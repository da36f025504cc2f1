/** Liquidity providers' fees over whole runs: what is credited and collected never exceeds what was charged. */
module PoolFees {
  import opened Numbers
  import opened TickManager
  import opened PositionManager
  import opened TickSearch
  import opened Ledger
  import opened TM = TokenMath
  import opened SwapManager
  import opened SwapProgress
  import opened SwapBooks
  import opened SwapClaims
  import opened SwapGrowth
  import opened PoolState
  import opened PoolInvariant
  import opened PoolLiquidity
  import opened PoolSteps
  import opened PoolPayouts
  import opened PoolSwap
  import opened PoolRun
  import opened PoolSafety
  import opened PoolAmounts
  import PM = PriceMath

  /** A valuation under which no range holds any principal, so that only fees count. */
  function Flat(t: int): u128 { 1 }

  /** All fees of one token that positions are owed, credited or not, scaled by 2^64. */
  ghost function FeeClaims(p: Pool, token: Token): real
    requires Dated(p.positions, p.since, p.history)
  {
    PoolClaims(Flat, p, token)
  }

  lemma FlatHasNoValue(token: Token, liquidity: nat, x: real)
    ensures Value(token, liquidity, Coord(token, 1), Coord(token, 1), x) == 0.0
  {
    TimesZero(liquidity);
  }

  /** Fee claims do not depend on the price. */
  lemma FlatPrice(ps: seq<Position>, since: seq<nat>, h: seq<Accrual>, token: Token, x: real, y: real)
    requires Dated(ps, since, h)
    ensures Claims(Flat, token, ps, since, h, x) == Claims(Flat, token, ps, since, h, y)
  {
    hide Value, Coord, Times, Pending;
    forall i | 0 <= i < |ps|
      ensures Value(token, ps[i].liquidity, Coord(token, 1), Coord(token, 1), x)
          == Value(token, ps[i].liquidity, Coord(token, 1), Coord(token, 1), y)
    {
      FlatHasNoValue(token, ps[i].liquidity, x);
      FlatHasNoValue(token, ps[i].liquidity, y);
    }
    assert ClaimSeq(Flat, token, ps, since, h, x) == ClaimSeq(Flat, token, ps, since, h, y);
  }

  // ---------------------------------------------------------------- fees through a swap

  /** The fees of all steps less the protocol's share. */
  function ProviderFees(steps: seq<SwapStepComputation>, rate: ProtocolFeeRate): nat {
    if |steps| == 0 then 0
    else
      var fee := steps[|steps| - 1].feeAmount;
      ProtocolShareWithinFee(fee, rate);
      ProviderFees(steps[..|steps| - 1], rate) + (fee - CalculateProtocolFee(fee, rate))
  }

  lemma ProviderFeesAppend(steps: seq<SwapStepComputation>, c: SwapStepComputation, rate: ProtocolFeeRate)
    ensures ProviderFees(steps + [c], rate)
        == ProviderFees(steps, rate) + c.feeAmount - CalculateProtocolFee(c.feeAmount, rate)
  {
    assert (steps + [c])[..|steps|] == steps;
  }

  /** Fee claims on the input side stay within the fees charged; on the output side nothing accrues. */
  ghost predicate FeesWithin(e: SwapEnv, ps: seq<Position>, since: seq<nat>, st: SwapState, claimsIn: real,
                             claimsOut: real) {
    && Dated(ps, since, st.history)
    && Claims(Flat, InputToken(e.aToB), ps, since, st.history, 0.0)
        <= claimsIn + Q * (ProviderFees(st.steps, e.protocolFeeRate) as real)
    && Claims(Flat, OutputToken(e.aToB), ps, since, st.history, 0.0) == claimsOut
  }

  lemma StepFees(e: SwapEnv, ps: seq<Position>, since: seq<nat>, st: SwapState, c: SwapStepComputation, st': SwapState,
                 claimsIn: real, claimsOut: real)
    requires Account(e, ps, st, c, st') && FeesWithin(e, ps, since, st, claimsIn, claimsOut)
    ensures FeesWithin(e, ps, since, st', claimsIn, claimsOut)
  {
    hide Claims, AllUnbroken, Charge, Payout, GrowthDelta, CalculateProtocolFee;
    var entry := StepAccrual(e, st, c);
    ClaimsAccrue(Flat, InputToken(e.aToB), ps, since, st.history, 0.0, entry);
    ClaimsIgnore(Flat, OutputToken(e.aToB), ps, since, st.history, 0.0, entry);
    GrowthWithinFee(c.feeAmount, e.protocolFeeRate, st.liquidity);
    ProviderFeesAppend(st.steps, c, e.protocolFeeRate);
  }

  lemma {:induction false} SwapLoopFees(e: SwapEnv, ps: seq<Position>, since: seq<nat>, st: SwapState, claimsIn: real,
                                        claimsOut: real)
    requires Ready(e, st) && SwapLoop(e, st).Ok?
    requires Ranges(ps, e.tickSpacing) && LiquidityBooked(ps, st.ticks, st.tickIndex, st.liquidity)
    requires FeesWithin(e, ps, since, st, claimsIn, claimsOut)
    ensures FeesWithin(e, ps, since, SwapLoop(e, st).value, claimsIn, claimsOut)
    decreases Remaining(e, st)
  {
    if Running(e, st) {
      StepProgresses(e, st);
      StepBooked(e, ps, st);
      StepAccount(e, ps, st);
      StepFees(e, ps, since, st, Open(e, st).c, SwapStep(e, st).value, claimsIn, claimsOut);
      SwapLoopFees(e, ps, since, SwapStep(e, st).value, claimsIn, claimsOut);
    }
  }

  /** One unit of growth for all the liquidity active at each entry: what rounding may keep from the providers. */
  ghost function Dust(ps: seq<Position>, entries: seq<Accrual>): nat {
    if |entries| == 0 then 0
    else
      var tick := entries[|entries| - 1].tick;
      SumNonNegative(ps, ActiveAt(tick), |ps|);
      Dust(ps, entries[..|entries| - 1]) + Sum(ps, ActiveAt(tick))
  }

  /** Fee claims on the input side reach the fees charged, but for the dust of the entries from n on. */
  ghost predicate FeesReach(e: SwapEnv, ps: seq<Position>, since: seq<nat>, st: SwapState, n: nat, claimsIn: real) {
    && Dated(ps, since, st.history) && n <= |st.history|
    && claimsIn + Q * (ProviderFees(st.steps, e.protocolFeeRate) as real)
        <= Claims(Flat, InputToken(e.aToB), ps, since, st.history, 0.0) + (Dust(ps, st.history[n..]) as real)
  }

  lemma DustAppend(ps: seq<Position>, h: seq<Accrual>, n: nat, entry: Accrual)
    requires n <= |h|
    ensures Dust(ps, (h + [entry])[n..]) == Dust(ps, h[n..]) + Sum(ps, ActiveAt(entry.tick))
  {
    hide Sum;
    assert (h + [entry])[n..] == h[n..] + [entry];
    assert (h[n..] + [entry])[..|h[n..]|] == h[n..];
  }

  lemma StepFeesReach(e: SwapEnv, ps: seq<Position>, since: seq<nat>, st: SwapState, c: SwapStepComputation,
                      st': SwapState, n: nat, claimsIn: real)
    requires Account(e, ps, st, c, st') && FeesReach(e, ps, since, st, n, claimsIn)
    requires st.liquidity == 0 ==> c.feeAmount == 0
    ensures FeesReach(e, ps, since, st', n, claimsIn)
  {
    hide Claims, AllUnbroken, Charge, Payout, GrowthDelta, CalculateProtocolFee, Dust, Sum;
    var entry := StepAccrual(e, st, c);
    ClaimsAccrue(Flat, InputToken(e.aToB), ps, since, st.history, 0.0, entry);
    GrowthUsesFee(c.feeAmount, e.protocolFeeRate, st.liquidity);
    ProviderFeesAppend(st.steps, c, e.protocolFeeRate);
    DustAppend(ps, st.history, n, entry);
  }

  /** Through a whole swap the providers' fees reach the positions, to the rounding of each step. */
  lemma {:induction false} SwapLoopFeesReach(e: SwapEnv, ps: seq<Position>, since: seq<nat>, st: SwapState, n: nat,
                                             claimsIn: real)
    requires Ready(e, st) && SwapLoop(e, st).Ok?
    requires Ranges(ps, e.tickSpacing) && LiquidityBooked(ps, st.ticks, st.tickIndex, st.liquidity)
    requires FeesReach(e, ps, since, st, n, claimsIn)
    ensures FeesReach(e, ps, since, SwapLoop(e, st).value, n, claimsIn)
    decreases Remaining(e, st)
  {
    if Running(e, st) {
      hide SwapStep, Open, FeesReach, Settles, Region, HoldsInitialized, Account;
      StepProgresses(e, st);
      StepSettles(e, st);
      StepBooked(e, ps, st);
      StepAccount(e, ps, st);
      StepFeesReach(e, ps, since, st, Open(e, st).c, SwapStep(e, st).value, n, claimsIn);
      SwapLoopFeesReach(e, ps, since, SwapStep(e, st).value, n, claimsIn);
    }
  }

  // ---------------------------------------------------------------- one instruction

  /**
   * What one instruction charges for the providers, credits to positions and pays out of their fees, and what its
   * rounding may keep from them, in units of 2^-64.
   */
  datatype FeeFlow = FeeFlow(charged: nat, credited: nat, collected: nat, rounding: nat)

  const NO_FLOW := FeeFlow(0, 0, 0, 0)

  /** The flow of a loop that has finished: its fees, and one unit of growth for each step's liquidity. */
  ghost function LoopFlow(p: Pool, r: SwapState, aToB: bool, token: Token): FeeFlow {
    if token != InputToken(aToB) then NO_FLOW
    else
      FeeFlow(ProviderFees(r.steps, p.protocolFeeRate), 0, 0,
              if |p.history| <= |r.history| then Dust(p.positions, r.history[|p.history|..]) else 0)
  }

  ghost function SwapFlow(price: int -> u128, p: Pool, amount: u64, threshold: u64, limit: u128, isInput: bool,
                          aToB: bool,
                          starts: seq<int>, now: u64, token: Token): FeeFlow
    requires Sound(price, p) && StepSwap(price, p, amount, threshold, limit, isInput, aToB, starts, now).Ok?
  {
    var accrued := AccrueRewards(p, now).value;
    var e, st := EnvOf(price, accrued, limit, isInput, aToB, starts), SwapStart(accrued, amount, aToB);
    SoundIsReady(price, p, amount, limit, isInput, aToB, starts, now);
    LoopFlow(accrued, SwapLoop(e, st).value, aToB, token)
  }

  /** Settling credits whole tokens, so less than one is lost. */
  function SettleFlow(p: Pool, id: nat, now: u64, token: Token): FeeFlow
    requires id < |p.positions| && AccrueRewards(p, now).Ok?
  {
    var q, c := p.positions[id], FeeChannel(token);
    FeeFlow(0, Credit(q.liquidity, InsideOf(AccrueRewards(p, now).value, q).At(c), Checkpoint(q, c)), 0, TWO_64)
  }

  /** What is collected is what the vault lets go. */
  function CollectFlow(p: Pool, id: nat, token: Token): FeeFlow
    requires StepCollectFees(p, id).Ok?
  {
    FeeFlow(0, 0, Vault(p, token) - Vault(StepCollectFees(p, id).value, token), 0)
  }

  ghost function Flow(price: int -> u128, p: Pool, op: Op, token: Token): FeeFlow
    requires Sound(price, p) && Step(price, p, op).Ok?
  {
    match op
    case IncreaseLiquidity(id, _, _, _, _, _, now) => SettleFlow(p, id, now, token)
    case DecreaseLiquidity(id, _, _, _, _, _, now) => SettleFlow(p, id, now, token)
    case UpdateFeesAndRewards(id, _, _, now) => SettleFlow(p, id, now, token)
    case CollectFees(id) => CollectFlow(p, id, token)
    case Swap(amount, threshold, limit, isInput, aToB, starts, now) =>
      SwapFlow(price, p, amount, threshold, limit, isInput, aToB, starts, now, token)
    case _ => NO_FLOW
  }

  /**
   * A flow accounts for the change from p to r, in claims and in the amounts owed: the claims grow by no more than what
   * was charged less what was collected, and by no less than that less the rounding.
   */
  ghost predicate Flows(p: Pool, r: Pool, token: Token, f: FeeFlow)
    requires Dated(p.positions, p.since, p.history) && Dated(r.positions, r.since, r.history)
  {
    && FeeClaims(r, token) + Q * (f.collected as real) <= FeeClaims(p, token) + Q * (f.charged as real)
    && FeeClaims(p, token) + Q * (f.charged as real)
        <= FeeClaims(r, token) + Q * (f.collected as real) + (f.rounding as real)
    && Sum(r.positions, OwedIn(token)) + f.collected == Sum(p.positions, OwedIn(token)) + f.credited
  }

  lemma RewardsFlowNothing(p: Pool, now: u64, token: Token)
    requires Dated(p.positions, p.since, p.history) && AccrueRewards(p, now).Ok?
    ensures var r := AccrueRewards(p, now).value;
            Dated(r.positions, r.since, r.history) && FeeClaims(r, token) == FeeClaims(p, token)
  {
    hide Claims, Coord, RewardDelta;
    var x := Coord(token, p.sqrtPrice);
    var e0, e1, e2 := RewardAccrual(p, now, 0), RewardAccrual(p, now, 1), RewardAccrual(p, now, 2);
    ClaimsIgnore(Flat, token, p.positions, p.since, p.history, x, e0);
    ClaimsIgnore(Flat, token, p.positions, p.since, p.history + [e0], x, e1);
    ClaimsIgnore(Flat, token, p.positions, p.since, p.history + [e0] + [e1], x, e2);
  }

  /** Without principal a claim is pending growth and what is owed. */
  lemma FlatClaim(q: Position, pending: nat, token: Token, x: real)
    ensures Claim(Flat, token, q, pending, x)
        == Times(q.liquidity, pending as real) + Q * (Owed(q, FeeChannel(token)) as real)
  {
    hide Value, Coord, Times;
    FlatHasNoValue(token, q.liquidity, x);
  }

  /** Settling trades liquidity times pending growth for whole tokens, and loses less than one. */
  lemma SettledFees(p: Pool, id: nat, r: Pool, token: Token)
    requires Dated(p.positions, p.since, p.history) && id < |p.positions| == |r.positions|
    requires r.positions == p.positions[id := r.positions[id]] && r.since == p.since[id := |p.history|]
    requires r.history == p.history && r.sqrtPrice == p.sqrtPrice
    requires Owed(r.positions[id], FeeChannel(token))
        == Owed(p.positions[id], FeeChannel(token)) + Uncredited(p, id, token)
    ensures Dated(r.positions, r.since, r.history)
    ensures FeeClaims(r, token) <= FeeClaims(p, token) <= FeeClaims(r, token) + Q
  {
    hide Claims, InsideHistory, Claim, Coord, Times;
    var q, q', c, x := p.positions[id], r.positions[id], FeeChannel(token), Coord(token, p.sqrtPrice);
    ClaimsUpdate(Flat, token, p.positions, p.since, p.history, x, id, q', |p.history|);
    NothingPending(q', p.history, c);
    FlatClaim(q', 0, token, x);
    FlatClaim(q, Pending(q, p.since[id], p.history, c), token, x);
    TimesZero(q'.liquidity);
    FloorAsReal(q.liquidity, Pending(q, p.since[id], p.history, c));
    FloorIsNear(q.liquidity, Pending(q, p.since[id], p.history, c));
  }

  lemma FloorIsNear(liquidity: nat, pending: nat)
    ensures Times(liquidity, pending as real) < Q * ((liquidity * pending / TWO_64) as real) + Q
  {
    PM.MulNonNegative(liquidity, pending);
    var x := liquidity * pending / TWO_64;
    FloorGalois(liquidity * pending, TWO_64, x + 1);
    TimesIsProduct(liquidity, pending as real);
    CastProduct(liquidity, pending);
    CastProduct(x, TWO_64);
  }

  /** Settling a position credits it and takes no more than a token's rounding from the claims. */
  lemma ReplacedFlows(price: int -> u128, p: Pool, id: nat, delta: int, r: Pool, token: Token)
    requires Invariant(price, p) && Replaced(p, id, delta, r)
    ensures Dated(r.positions, r.since, r.history)
    ensures var q, c := p.positions[id], FeeChannel(token);
            Flows(p, r, token, FeeFlow(0, Credit(q.liquidity, InsideOf(p, q).At(c), Checkpoint(q, c)), 0, TWO_64))
  {
    hide Sound, Coupled, AllCoupled, LiquidityBooked, TickKept, TicksMatch, Settled, GrowthsInside, AllQuiet,
        PoolClaims, FeeClaims, Value, Credit, Solvent, Uncredited;
    var q := p.positions[id];
    SettledExactly(price, p, id, token);
    SumUpdate(p.positions, OwedIn(token), id, r.positions[id], |p.positions|);
    OwedApart(Settled(q, InsideOf(p, q)), r.positions[id], token);
    SettledFees(p, id, r, token);
  }

  lemma OwedApart(q: Position, q': Position, token: Token)
    requires q' == q.(liquidity := q'.liquidity)
    ensures Owed(q', FeeChannel(token)) == Owed(q, FeeChannel(token))
  {
  }

  lemma FlowsSequence(p: Pool, q: Pool, r: Pool, r': Pool, token: Token, f: FeeFlow)
    requires Dated(p.positions, p.since, p.history) && Dated(q.positions, q.since, q.history)
    requires Dated(r.positions, r.since, r.history) && Dated(r'.positions, r'.since, r'.history)
    requires FeeClaims(q, token) == FeeClaims(p, token) && q.positions == p.positions
    requires FeeClaims(r', token) == FeeClaims(r, token) && r'.positions == r.positions
    requires Flows(q, r, token, f)
    ensures Flows(p, r', token, f)
  {
    hide FeeClaims;
  }

  /** Increasing and decreasing liquidity, up to the vault balances. */
  lemma ModifyFlows(price: int -> u128, p: Pool, id: nat, delta: i128, ls: int, us: int, now: u64, token: Token,
                    r: Pool)
    requires Invariant(price, p) && p.tickSpacing > 0 && id < |p.positions| && delta != 0
    requires ModifyLiquidity(p, id, delta, ls, us, now).Ok?
    requires r == ModifyLiquidity(p, id, delta, ls, us, now).value.(vaultA := r.vaultA, vaultB := r.vaultB)
    ensures Dated(p.positions, p.since, p.history) && Dated(r.positions, r.since, r.history)
    ensures Flows(p, r, token, SettleFlow(p, id, now, token))
  {
    hide Invariant, CalculateModifyLiquidity, NextRewardInfos, RewardAccrual, Replaced, Flows, PoolClaims, Credit;
    SpacingPositive(price, p);
    var q, accrued := p.positions[id], AccrueRewards(p, now).value;
    var u := CalculateModifyLiquidity(accrued, q, TickAt(p.ticks, q.tickLowerIndex), TickAt(p.ticks, q.tickUpperIndex),
                                      delta).value;
    var synced := Sync(accrued, id, u);
    RewardsAccrue(price, p, now);
    InvariantIsConsistent(price, accrued);
    SyncReplaces(price, accrued, id, delta, u);
    RewardsFlowNothing(p, now, token);
    ReplacedFlows(price, accrued, id, delta, synced, token);
    VaultsApartFromFees(synced, r, token);
    FlowsSequence(p, accrued, synced, r, token, SettleFlow(p, id, now, token));
  }

  lemma VaultsApartFromFees(p: Pool, r: Pool, token: Token)
    requires Dated(p.positions, p.since, p.history) && r == p.(vaultA := r.vaultA, vaultB := r.vaultB)
    ensures Dated(r.positions, r.since, r.history) && FeeClaims(r, token) == FeeClaims(p, token)
  {
    hide Claims;
  }

  lemma UpdateFlows(price: int -> u128, p: Pool, id: nat, ls: int, us: int, now: u64, token: Token)
    requires Invariant(price, p) && p.tickSpacing > 0 && StepUpdateFeesAndRewards(p, id, ls, us, now).Ok?
    ensures var r := StepUpdateFeesAndRewards(p, id, ls, us, now).value;
            Dated(p.positions, p.since, p.history) && Dated(r.positions, r.since, r.history)
            && Flows(p, r, token, SettleFlow(p, id, now, token))
  {
    hide Invariant, StepUpdateFeesAndRewards, GrowthsInside, Settled, NextRewardInfos, RewardAccrual, Flows,
        PoolClaims, Credit, Replaced;
    SpacingPositive(price, p);
    UpdateIsSettling(p, id, ls, us, now);
    var accrued, r := AccrueRewards(p, now).value, StepUpdateFeesAndRewards(p, id, ls, us, now).value;
    RewardsAccrue(price, p, now);
    InvariantIsConsistent(price, accrued);
    SettleReplaces(price, accrued, id, r);
    RewardsFlowNothing(p, now, token);
    ReplacedFlows(price, accrued, id, 0, r, token);
    FlowsSequence(p, accrued, r, r, token, SettleFlow(p, id, now, token));
  }

  lemma CollectFlows(price: int -> u128, p: Pool, id: nat, token: Token)
    requires Invariant(price, p) && id < |p.positions| && StepCollectFees(p, id).Ok?
    ensures var r := StepCollectFees(p, id).value;
            Dated(p.positions, p.since, p.history) && Dated(r.positions, r.since, r.history)
            && Flows(p, r, token, CollectFlow(p, id, token))
  {
    hide Consistent, Solvent, PoolClaims;
    SpacingPositive(price, p);
    var r := StepCollectFees(p, id).value;
    CollectFeesPaysExactly(price, p, id);
    CollectedClaims(Flat, p, id, r, token);
    SumUpdate(p.positions, OwedIn(token), id, r.positions[id], |p.positions|);
  }

  lemma OpenFlows(price: int -> u128, p: Pool, lower: int, upper: int, token: Token)
    requires Invariant(price, p) && p.tickSpacing > 0 && StepOpenPosition(p, lower, upper).Ok?
    ensures var r := StepOpenPosition(p, lower, upper).value;
            Dated(p.positions, p.since, p.history) && Dated(r.positions, r.since, r.history)
                && Flows(p, r, token, NO_FLOW)
  {
    hide Consistent, Solvent, PoolClaims, IsUsableTick;
    SpacingPositive(price, p);
    var none := PositionRewardInfo(0, 0);
    var q := Position(0, lower, upper, 0, 0, 0, 0, [none, none, none]);
    var r := StepOpenPosition(p, lower, upper).value;
    OpenClaims(Flat, p, q, r, token);
    SumAppend(p.positions, OwedIn(token), q, |p.positions|);
  }

  lemma RewardFlows(price: int -> u128, p: Pool, id: nat, index: nat, available: u64, token: Token)
    requires Invariant(price, p) && StepCollectReward(p, id, index, available).Ok?
    ensures var r := StepCollectReward(p, id, index, available).value;
            Dated(p.positions, p.since, p.history) && Dated(r.positions, r.since, r.history)
                && Flows(p, r, token, NO_FLOW)
  {
    hide Consistent, Solvent, PoolClaims, SameTerms;
    SpacingPositive(price, p);
    var q, r := p.positions[id], StepCollectReward(p, id, index, available).value;
    RewardPaid(q, index, CollectableReward(q.rewardInfos[index].amountOwed, available).1);
    SameFeesSameClaims(Flat, p, id, r.positions[id], r, token);
    SumUpdate(p.positions, OwedIn(token), id, r.positions[id], |p.positions|);
  }

  lemma CloseFlows(price: int -> u128, p: Pool, id: nat, token: Token)
    requires Invariant(price, p) && StepClosePosition(p, id).Ok?
    ensures var r := StepClosePosition(p, id).value;
            Dated(p.positions, p.since, p.history) && Dated(r.positions, r.since, r.history)
                && Flows(p, r, token, NO_FLOW)
  {
    hide Consistent, Solvent, PoolClaims, Removed;
    SpacingPositive(price, p);
    ClosedClaims(Flat, p, id, StepClosePosition(p, id).value, token);
    SumRemove(p.positions, OwedIn(token), id, |p.positions| - 1);
    OneFewer(p.positions, id);
  }

  lemma OneFewer<T>(s: seq<T>, i: nat)
    requires i < |s|
    ensures |Removed(s, i)| == |s| - 1
  {
  }

  /** Instructions that touch no position and no growth. */
  lemma NothingFlows(p: Pool, r: Pool, token: Token)
    requires Dated(p.positions, p.since, p.history)
    requires r.positions == p.positions && r.since == p.since && r.history == p.history && r.sqrtPrice == p.sqrtPrice
    ensures Dated(r.positions, r.since, r.history) && Flows(p, r, token, NO_FLOW)
  {
    hide Claims, Sum;
  }

  lemma SwapFlows(price: int -> u128, p: Pool, amount: u64, threshold: u64, limit: u128, isInput: bool, aToB: bool,
                  starts: seq<int>, now: u64, token: Token)
    requires Invariant(price, p) && Sound(price, p)
        && StepSwap(price, p, amount, threshold, limit, isInput, aToB, starts, now).Ok?
    ensures var r := StepSwap(price, p, amount, threshold, limit, isInput, aToB, starts, now).value;
            Dated(p.positions, p.since, p.history) && Dated(r.positions, r.since, r.history)
            && Flows(p, r, token, SwapFlow(price, p, amount, threshold, limit, isInput, aToB, starts, now, token))
  {
    hide Invariant, Sound, Ready, SwapLoop, NextRewardInfos, RewardAccrual, Flows, FeeClaims, SwapAmounts;
    var accrued := AccrueRewards(p, now).value;
    var e, st := EnvOf(price, accrued, limit, isInput, aToB, starts), SwapStart(accrued, amount, aToB);
    SpacingPositive(price, p);
    SoundIsReady(price, p, amount, limit, isInput, aToB, starts, now);
    RewardsAccrue(price, p, now);
    InvariantIsConsistent(price, accrued);
    RewardsFlowNothing(p, now, token);
    var result := StepSwap(price, p, amount, threshold, limit, isInput, aToB, starts, now).value;
    LoopFlows(price, accrued, amount, e, st, result, token);
    FlowsSequence(p, accrued, result, result, token,
                  SwapFlow(price, p, amount, threshold, limit, isInput, aToB, starts, now, token));
  }

  lemma LoopFlows(price: int -> u128, p: Pool, amount: u64, e: SwapEnv, st: SwapState, r: Pool, token: Token)
    requires Entered(price, p, amount, e, st) && SwapLoop(e, st).Ok?
    requires r.positions == p.positions && r.since == p.since && r.history == SwapLoop(e, st).value.history
    ensures Dated(p.positions, p.since, p.history) && Dated(r.positions, r.since, r.history)
    ensures Flows(p, r, token, LoopFlow(p, SwapLoop(e, st).value, e.aToB, token))
  {
    hide Ready, SwapLoop, Claims, LiquidityBooked, Sound, AllCoupled, AllQuiet, Ranges, Sum, Coord;
    var ps, since, h, i, o := p.positions, p.since, p.history, InputToken(e.aToB), OutputToken(e.aToB);
    SpacingOf(price, p);
    SwapLoopFees(e, ps, since, st, Claims(Flat, i, ps, since, h, 0.0), Claims(Flat, o, ps, since, h, 0.0));
    assert st.history[|h|..] == [];
    SwapLoopFeesReach(e, ps, since, st, |h|, Claims(Flat, i, ps, since, h, 0.0));
    FlatPrice(ps, since, h, token, Coord(token, p.sqrtPrice), 0.0);
    FlatPrice(ps, since, SwapLoop(e, st).value.history, token, Coord(token, r.sqrtPrice), 0.0);
  }

  lemma SpacingOf(price: int -> u128, p: Pool)
    requires Consistent(price, p)
    ensures p.tickSpacing > 0
  {
  }

  lemma StepFlows(price: int -> u128, p: Pool, op: Op, token: Token)
    requires Invariant(price, p) && Step(price, p, op).Ok? && Invariant(price, Step(price, p, op).value)
    ensures Flows(p, Step(price, p, op).value, token, Flow(price, p, op, token))
  {
    hide Sound, Consistent, Solvent, StepUpdateFeesAndRewards, StepCollectFees, StepCollectReward, StepClosePosition,
        StepSwap, StepOpenPosition, ModifyLiquidity, LiquidityTokenDeltas,
         Flows, SwapFlow, SettleFlow, NextRewardInfos, RewardAccrual;
    SpacingPositive(price, p);
    match op
    case OpenPosition(lower, upper) => OpenFlows(price, p, lower, upper, token);
    case IncreaseLiquidity(id, amount, maxA, maxB, ls, us, now) =>
      ModifyFlows(price, p, id, ConvertToLiquidityDelta(amount, true).value, ls, us, now, token,
                  Step(price, p, op).value);
    case DecreaseLiquidity(id, amount, minA, minB, ls, us, now) =>
      ModifyFlows(price, p, id, ConvertToLiquidityDelta(amount, false).value, ls, us, now, token,
                  Step(price, p, op).value);
    case UpdateFeesAndRewards(id, ls, us, now) => UpdateFlows(price, p, id, ls, us, now, token);
    case CollectFees(id) =>
      MissingPosition(p, id);
      CollectFlows(price, p, id, token);
    case CollectReward(id, index, available) => RewardFlows(price, p, id, index, available, token);
    case ClosePosition(id) => CloseFlows(price, p, id, token);
    case Swap(amount, threshold, limit, isInput, aToB, starts, now) =>
      SwapFlows(price, p, amount, threshold, limit, isInput, aToB, starts, now, token);
    case SetRewardEmissions(index, emissions, available, now) =>
      var accrued := AccrueRewards(p, now).value;
      SpacingPositive(price, Step(price, p, op).value);
      AccruedDated(price, p, now);
      RewardsFlowNothing(p, now, token);
      NothingFlows(accrued, Step(price, p, op).value, token);
      FlowsSequence(p, accrued, Step(price, p, op).value, Step(price, p, op).value, token, NO_FLOW);
    case _ => NothingFlows(p, Step(price, p, op).value, token);
  }

  lemma AccruedDated(price: int -> u128, p: Pool, now: u64)
    requires Invariant(price, p) && AccrueRewards(p, now).Ok?
    ensures var r := AccrueRewards(p, now).value;
            Dated(r.positions, r.since, r.history)
  {
    hide *;
    hide Invariant;
    RewardsAccrue(price, p, now);
    SpacingPositive(price, AccrueRewards(p, now).value);
  }

  // ---------------------------------------------------------------- whole runs

  function AddFlows(f: FeeFlow, g: FeeFlow): FeeFlow {
    FeeFlow(f.charged + g.charged, f.credited + g.credited, f.collected + g.collected, f.rounding + g.rounding)
  }

  ghost function RunFlow(price: int -> u128, p: Pool, ops: seq<Op>, token: Token): FeeFlow
    requires Invariant(price, p)
  {
    if |ops| == 0 then NO_FLOW
    else
      var before, op := Run(price, p, ops[..|ops| - 1]), ops[|ops| - 1];
      AddFlows(RunFlow(price, p, ops[..|ops| - 1], token),
               if Step(price, before, op).Ok? then Flow(price, before, op, token) else NO_FLOW)
  }

  lemma FlowsAdd(p: Pool, q: Pool, r: Pool, token: Token, f: FeeFlow, g: FeeFlow)
    requires Dated(p.positions, p.since, p.history) && Dated(q.positions, q.since, q.history)
        && Dated(r.positions, r.since, r.history)
    requires Flows(p, q, token, f) && Flows(q, r, token, g)
    ensures Flows(p, r, token, AddFlows(f, g))
  {
    hide FeeClaims, Sum;
  }

  /** Over a run from any pool: its flows account for every change of the fee claims and of the amounts owed. */
  lemma {:induction false} RunFlows(price: int -> u128, p: Pool, ops: seq<Op>, token: Token)
    requires Invariant(price, p)
    ensures Flows(p, Run(price, p, ops), token, RunFlow(price, p, ops, token))
  {
    hide Invariant, Step, Flows, Flow;
    SpacingPositive(price, p);
    if |ops| == 0 {
      NothingFlows(p, p, token);
    } else {
      var before, op, after := Run(price, p, ops[..|ops| - 1]), ops[|ops| - 1], Run(price, p, ops);
      RunFlows(price, p, ops[..|ops| - 1], token);
      SpacingPositive(price, before);
      SpacingPositive(price, after);
      if Step(price, before, op).Ok? {
        StepFlows(price, before, op, token);
        FlowsAdd(p, before, after, token, RunFlow(price, p, ops[..|ops| - 1], token), Flow(price, before, op, token));
      } else {
        NothingFlows(before, after, token);
        FlowsAdd(p, before, after, token, RunFlow(price, p, ops[..|ops| - 1], token), NO_FLOW);
      }
    }
  }

  /** What settling all of the first n positions now would credit. */
  function TotalUncredited(p: Pool, token: Token, n: nat): nat
    requires Dated(p.positions, p.since, p.history) && n <= |p.positions|
  {
    if n == 0 then 0 else TotalUncredited(p, token, n - 1) + Uncredited(p, n - 1, token)
  }

  lemma {:induction false} FeesWithinPayable(p: Pool, token: Token, n: nat)
    requires Dated(p.positions, p.since, p.history) && n <= |p.positions| && 0 < p.sqrtPrice
    ensures SumUpTo(p.positions, OwedIn(token), n) + TotalUncredited(p, token, n) <= Payable(Flat, p, token, n)
  {
    hide Uncredited, Withdrawable;
    if n > 0 {
      FeesWithinPayable(p, token, n - 1);
    }
  }

  /** A position's fees, credited or not, are within one token of what they come to in whole tokens. */
  lemma FlatClaimIsNear(p: Pool, i: nat, token: Token)
    requires Dated(p.positions, p.since, p.history) && i < |p.positions|
    ensures var q := p.positions[i];
            Claim(Flat, token, q, Pending(q, p.since[i], p.history, FeeChannel(token)), Coord(token, p.sqrtPrice))
            <= Q * ((Owed(q, FeeChannel(token)) + Uncredited(p, i, token) + 1) as real)
  {
    hide Claim, Coord, Times, InsideHistory;
    var q, pending := p.positions[i], Pending(p.positions[i], p.since[i], p.history, FeeChannel(token));
    FlatClaim(q, pending, token, Coord(token, p.sqrtPrice));
    FloorIsNear(q.liquidity, pending);
  }

  lemma {:induction false} FeeClaimsAreNear(p: Pool, token: Token, n: nat)
    requires Dated(p.positions, p.since, p.history) && n <= |p.positions|
    ensures RealSum(ClaimSeq(Flat, token, p.positions, p.since, p.history, Coord(token, p.sqrtPrice)), n)
            <= Q * ((SumUpTo(p.positions, OwedIn(token), n) + TotalUncredited(p, token, n) + n) as real)
  {
    hide Claim, Coord, Uncredited, Pending;
    if n > 0 {
      FeeClaimsAreNear(p, token, n - 1);
      FlatClaimIsNear(p, n - 1, token);
    }
  }

  /**
   * Fees over every run from a new pool: all fees ever credited to positions, with those still to be credited, are at
   * most all fees ever charged less the protocol's share, and fall short of them by no more than the rounding: one
   * unit of growth for each unit of liquidity at every step of a swap, one token at every settlement, and one for each
   * position that has yet to be settled. What was credited is what was collected and what is owed.
   */
  lemma CreditsMatchCharges(price: int -> u128, p: Pool, ops: seq<Op>, token: Token)
    requires Invariant(price, p) && p.positions == []
    ensures var r, f := Run(price, p, ops), RunFlow(price, p, ops, token);
            && Dated(r.positions, r.since, r.history)
            && f.credited + TotalUncredited(r, token, |r.positions|) <= f.charged
            && TWO_64 * f.charged
                 <= TWO_64 * (f.credited + TotalUncredited(r, token, |r.positions|) + |r.positions|) + f.rounding
            && f.collected + Sum(r.positions, OwedIn(token)) == f.credited
  {
    hide Consistent, Solvent, Step, RunFlow, Run, ClaimSeq, Payable, Uncredited, TotalUncredited;
    var r, f := Run(price, p, ops), RunFlow(price, p, ops, token);
    SpacingPositive(price, p);
    SpacingPositive(price, r);
    RunFlows(price, p, ops, token);
    InvariantIsConsistent(price, r);
    Priced(price, r);
    FeesWithinPayable(r, token, |r.positions|);
    PayableWithinClaims(Flat, r, token, |r.positions|);
    WholeFees(FeeClaims(r, token), f.collected, f.charged, Payable(Flat, r, token, |r.positions|));
    FeeClaimsAreNear(r, token, |r.positions|);
    NearlyAllFees(FeeClaims(r, token), f.charged, f.collected, f.rounding,
                  Sum(r.positions, OwedIn(token)) + TotalUncredited(r, token, |r.positions|) + |r.positions|);
  }

  lemma WholeFees(claims: real, collected: nat, charged: nat, payable: nat)
    requires claims + Q * (collected as real) <= Q * (charged as real) && Q * (payable as real) <= claims
    ensures payable + collected <= charged
  {
  }

  lemma NearlyAllFees(claims: real, charged: nat, collected: nat, rounding: nat, near: nat)
    requires Q * (charged as real) <= claims + Q * (collected as real) + (rounding as real)
    requires claims <= Q * (near as real)
    ensures TWO_64 * charged <= TWO_64 * (near + collected) + rounding
  {
  }
}
