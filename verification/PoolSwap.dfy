/** A swap keeps the pool invariant, is always able to pay, and never wraps the protocol's fees. */
module PoolSwap {
  import opened Numbers
  import opened TickManager
  import opened PositionManager
  import opened TickSearch
  import opened Ledger
  import opened TM = TokenMath
  import opened SwapManager
  import opened SwapProgress
  import opened SwapBooks
  import opened SwapClaims
  import opened SwapGrowth
  import opened PoolState
  import opened PoolInvariant
  import opened PoolSteps
  import opened PoolPayouts

  /** The loop as a pool enters it. */
  ghost predicate Entered(price: int -> u128, p: Pool, amount: u64, e: SwapEnv, st: SwapState) {
    && Consistent(price, p)
    && e == EnvOf(price, p, e.limit, e.isInput, e.aToB, e.starts)
    && st == SwapStart(p, amount, e.aToB)
    && Ready(e, st)
  }

  /** Positions stay coupled through the loop: the growth inside their ranges tracks the longer history. */
  lemma LoopKeepsCoupling(price: int -> u128, p: Pool, amount: u64, e: SwapEnv, st: SwapState, r: SwapState)
    requires Entered(price, p, amount, e, st) && SwapLoop(e, st) == Ok(r)
    ensures AllQuiet(r.ticks, StateGrowths(e, r)) && Dated(p.positions, p.since, r.history)
    ensures AllCoupled(r.ticks, r.tickIndex, StateGrowths(e, r), p.positions, p.since, r.history)
  {
    hide SwapLoop, Ready, Coupled, Wrap128, InsideAt, InsideHistory, IsPriceTable, Linked, Quiet, IsUsableTick;
    assert StateGrowths(e, st) == PoolGrowths(p);
    SwapLoopLinked(e, st);
    LinkedHistory(e, st, r);
    forall i: nat, c: Channel | i < |p.positions| && p.positions[i].liquidity > 0
      ensures Coupled(r.ticks, r.tickIndex, StateGrowths(e, r), p.positions[i], p.since[i], r.history, c)
    {
      var q := p.positions[i];
      EndsInitialized(p.positions, p.ticks, i);
      RangeAboveLowest(q, p.tickSpacing);
      LinkedInside(e, st, r, q.tickLowerIndex, q.tickUpperIndex, c);
      CouplingExtends(p.ticks, p.tickIndex, PoolGrowths(p), r.ticks, r.tickIndex, StateGrowths(e, r), q, p.since[i],
                      p.history, r.history[|p.history|..], c);
    }
  }

  lemma RangeAboveLowest(q: Position, spacing: nat)
    requires spacing > 0 && IsUsableTick(q.tickLowerIndex, spacing)
    ensures LOWEST <= q.tickLowerIndex
  {
  }

  lemma LinkedHistory(e: SwapEnv, a: SwapState, b: SwapState)
    requires Linked(e, a, b)
    ensures |a.history| <= |b.history| && b.history == a.history + b.history[|a.history|..]
    ensures AllQuiet(b.ticks, StateGrowths(e, b))
  {
  }

  /** The pool as the swap leaves it, whatever the vaults hold. */
  lemma SwapStaysConsistent(price: int -> u128, p: Pool, amount: u64, e: SwapEnv, st: SwapState, r: SwapState, p': Pool)
    requires Entered(price, p, amount, e, st) && SwapLoop(e, st) == Ok(r)
    requires p' == UpdateAfterSwap(p, e.aToB, r).(vaultA := p'.vaultA, vaultB := p'.vaultB)
    ensures Consistent(price, p')
  {
    hide SwapLoop, IsPriceTable, AllCoupled, AllQuiet, LiquidityBooked, IsUsableTick, Coherent, Wrap64;
    LoopKeepsCoupling(price, p, amount, e, st, r);
    SwapLoopBooked(e, p.positions, st);
    SwapLoopEnds(e, st);
    assert StateGrowths(e, r) == PoolGrowths(p');
  }

  /** Solvency as the swap's account starts it. */
  lemma CoveredAtStart(price: int -> u128, p: Pool, amount: u64, e: SwapEnv, st: SwapState)
    requires Entered(price, p, amount, e, st) && Solvent(price, p, TokenA) && Solvent(price, p, TokenB)
    ensures var i, o := InputToken(e.aToB), OutputToken(e.aToB);
            Covered(e, p.positions, p.since, st, Vault(p, i), Vault(p, o), ProtocolOwed(p, i), ProtocolOwed(p, o))
  {
    hide Ready, IsPriceTable, AllCoupled, AllQuiet, LiquidityBooked, Ranges, Claims;
  }

  /** And as its account ends: the vaults, moved by all the steps' amounts, cover claims and protocol fees. */
  lemma CoveredAtEnd(price: int -> u128, p: Pool, amount: u64, e: SwapEnv, st: SwapState, r: SwapState)
    requires Entered(price, p, amount, e, st) && Solvent(price, p, TokenA) && Solvent(price, p, TokenB)
        && SwapLoop(e, st) == Ok(r)
    ensures var i, o := InputToken(e.aToB), OutputToken(e.aToB);
            Covered(e, p.positions, p.since, r, Vault(p, i), Vault(p, o), ProtocolOwed(p, i), ProtocolOwed(p, o))
  {
    hide SwapLoop, Ready, IsPriceTable, AllCoupled, AllQuiet, LiquidityBooked, Covered, Ranges;
    CoveredAtStart(price, p, amount, e, st);
    var i, o := InputToken(e.aToB), OutputToken(e.aToB);
    SwapLoopCovered(e, p.positions, p.since, st, Vault(p, i), Vault(p, o), ProtocolOwed(p, i), ProtocolOwed(p, o));
  }

  /** The swap's total input and output are what the handler transfers. */
  lemma AmountsAreTotals(e: SwapEnv, amount: u64, r: SwapState)
    requires Accounted(e, amount, r)
    ensures var amounts := SwapAmounts(amount, e.isInput, e.aToB, r);
            amounts == if e.aToB then (TotalIn(r.steps), TotalOut(r.steps)) else (TotalOut(r.steps), TotalIn(r.steps))
  {
  }

  /** In whole tokens: the output vault holds the output, and the input vault the protocol's new fees. */
  lemma EndBounds(e: SwapEnv, ps: seq<Position>, since: seq<nat>, r: SwapState, vaultIn: nat, vaultOut: nat,
                  owedIn: nat, owedOut: nat)
    requires Ready(e, r) && Ranges(ps, e.tickSpacing) && Covered(e, ps, since, r, vaultIn, vaultOut, owedIn, owedOut)
    ensures TotalOut(r.steps) + owedOut <= vaultOut
    ensures owedIn + TotalProtocolFee(r.steps, e.protocolFeeRate) <= vaultIn + TotalIn(r.steps)
  {
    hide IsPriceTable, Claims, Coherent;
    forall token: Token
      ensures 0.0 <= ClaimsAt(e, token, ps, since, r)
    {
      forall k | 0 <= k < |ps|
        ensures LowCoord(e.price, token, ps[k]) <= HighCoord(e.price, token, ps[k])
      {
        OrderedRange(e.price, ps[k], token);
      }
      ClaimsContain(e.price, token, ps, since, r.history, Coord(token, r.sqrtPrice), |ps|);
    }
    WholeTokens(owedIn + TotalProtocolFee(r.steps, e.protocolFeeRate), vaultIn + TotalIn(r.steps));
    WholeTokens(owedOut, vaultOut - TotalOut(r.steps));
  }

  lemma WholeTokens(a: int, b: int)
    ensures Q * (a as real) <= Q * (b as real) ==> a <= b
  {
  }

  /** What a swap moves, in true sums: no wrap-around shows in any balance or protocol fee. */
  ghost predicate Transferred(p: Pool, e: SwapEnv, r: SwapState, p': Pool) {
    var i, o := InputToken(e.aToB), OutputToken(e.aToB);
    && Vault(p', i) == Vault(p, i) + TotalIn(r.steps)
    && Vault(p', o) == Vault(p, o) - TotalOut(r.steps)
    && ProtocolOwed(p', i) == ProtocolOwed(p, i) + TotalProtocolFee(r.steps, e.protocolFeeRate)
    && ProtocolOwed(p', o) == ProtocolOwed(p, o)
  }

  lemma SwapReady(price: int -> u128, p: Pool, amount: u64, e: SwapEnv, st: SwapState, r: SwapState)
    requires Entered(price, p, amount, e, st) && SwapLoop(e, st) == Ok(r)
    ensures Ready(e, r) && Ranges(p.positions, e.tickSpacing)
  {
    hide SwapLoop, IsPriceTable, AllCoupled, AllQuiet, LiquidityBooked;
    SwapLoopEnds(e, st);
  }

  lemma StaysSolvent(price: int -> u128, p: Pool, e: SwapEnv, r: SwapState, p': Pool)
    requires e.price == price && Consistent(price, p')
    requires p'.positions == p.positions && p'.since == p.since && p'.history == r.history
        && p'.sqrtPrice == r.sqrtPrice
    requires var i, o := InputToken(e.aToB), OutputToken(e.aToB);
             && Covered(e, p.positions, p.since, r, Vault(p, i), Vault(p, o), ProtocolOwed(p, i), ProtocolOwed(p, o))
             && Transferred(p, e, r, p')
    ensures Solvent(price, p', TokenA) && Solvent(price, p', TokenB)
  {
    hide IsPriceTable, AllCoupled, AllQuiet, LiquidityBooked, Ranges, Claims, Coord;
  }

  /** The transfers themselves: nothing wraps, and a covered payout succeeds. */
  lemma TransfersAreExact(p: Pool, e: SwapEnv, r: SwapState, amounts: (int, int))
    requires amounts == if e.aToB then (TotalIn(r.steps), TotalOut(r.steps)) else (TotalOut(r.steps), TotalIn(r.steps))
    requires var i, o := InputToken(e.aToB), OutputToken(e.aToB);
             && TotalOut(r.steps) <= Vault(p, o)
             && ProtocolOwed(p, i) + TotalProtocolFee(r.steps, e.protocolFeeRate) <= Vault(p, i) + TotalIn(r.steps)
    requires r.protocolFee == TotalProtocolFee(r.steps, e.protocolFeeRate)
    ensures var after := UpdateAfterSwap(p, e.aToB, r);
            var done := PerformSwap(after, amounts, e.aToB);
            && done != Err(InsufficientFunds)
            && (done.Ok? ==> && Transferred(p, e, r, done.value)
                             && done.value == after.(vaultA := done.value.vaultA, vaultB := done.value.vaultB))
  {
    hide TotalIn, TotalOut, TotalProtocolFee;
  }

  /** Both transfers of a finished swap: the payout cannot fall short, and the invariant holds again. */
  lemma FinishedSwap(price: int -> u128, p: Pool, amount: u64, e: SwapEnv, st: SwapState, r: SwapState)
    requires Entered(price, p, amount, e, st) && Solvent(price, p, TokenA) && Solvent(price, p, TokenB)
        && SwapLoop(e, st) == Ok(r)
    requires Accounted(e, amount, r)
    ensures var amounts := SwapAmounts(amount, e.isInput, e.aToB, r);
            var done := PerformSwap(UpdateAfterSwap(p, e.aToB, r), amounts, e.aToB);
            && done != Err(InsufficientFunds)
            && (done.Ok? ==> Invariant(price, done.value) && Transferred(p, e, r, done.value))
  {
    hide SwapLoop, Ready, IsPriceTable, AllCoupled, AllQuiet, LiquidityBooked, Covered, Ranges, Consistent, PerformSwap,
         Vault, ProtocolOwed, Transferred, Solvent;
    var i, o := InputToken(e.aToB), OutputToken(e.aToB);
    AmountsAreTotals(e, amount, r);
    SwapReady(price, p, amount, e, st, r);
    CoveredAtEnd(price, p, amount, e, st, r);
    EndBounds(e, p.positions, p.since, r, Vault(p, i), Vault(p, o), ProtocolOwed(p, i), ProtocolOwed(p, o));
    var amounts := SwapAmounts(amount, e.isInput, e.aToB, r);
    var done := PerformSwap(UpdateAfterSwap(p, e.aToB, r), amounts, e.aToB);
    TransfersAreExact(p, e, r, amounts);
    if done.Ok? {
      SwapStaysConsistent(price, p, amount, e, st, r, done.value);
      StaysSolvent(price, p, e, r, done.value);
    }
  }

  /** A swap keeps the invariant; its payout never fails for lack of funds. */
  lemma SwapKeeps(price: int -> u128, p: Pool, amount: u64, threshold: u64, limit: u128, isInput: bool, aToB: bool,
                  starts: seq<int>, now: u64)
    requires Invariant(price, p) && Sound(price, p)
    ensures StepSwap(price, p, amount, threshold, limit, isInput, aToB, starts, now) != Err(InsufficientFunds)
    ensures var r := StepSwap(price, p, amount, threshold, limit, isInput, aToB, starts, now);
            r.Ok? ==> Invariant(price, r.value)
  {
    hide Invariant, Sound, Ready, SwapLoop, PerformSwap, UpdateAfterSwap, SwapAmounts, RewardAccrual, Accounted,
        Consistent, Solvent;
    if AccrueRewards(p, now).Ok? && CheckSwap(p, amount, limit, aToB).Ok?
        && !(exists s :: s in starts && s !in p.arrays) {
      var accrued := AccrueRewards(p, now).value;
      var e, st := EnvOf(price, accrued, limit, isInput, aToB, starts), SwapStart(accrued, amount, aToB);
      SoundIsReady(price, p, amount, limit, isInput, aToB, starts, now);
      RewardsAccrue(price, p, now);
      LoopNotAboutFunds(e, st);
      if SwapLoop(e, st).Ok? {
        var r := SwapLoop(e, st).value;
        AmountsNonNegative(e, st, amount);
        InvariantIsConsistent(price, accrued);
        assert Entered(price, accrued, amount, e, st);
        FinishedSwap(price, accrued, amount, e, st, r);
      }
    }
  }

  // No part of an iteration reports a lack of funds.

  lemma SearchNotAboutFunds(ticks: Ticks, starts: seq<int>, index: int, spacing: nat, aToB: bool, at: nat)
    requires spacing > 0
    ensures NextInitialized(ticks, starts, index, spacing, aToB, at) != Err(InsufficientFunds)
    decreases |starts| - at
  {
    if at < |starts| {
      SearchNotAboutFunds(ticks, starts, NextSearchIndex(starts[at], spacing, aToB), spacing, aToB, at + 1);
    }
  }

  lemma DeltasNotAboutFunds(current: u128, target: u128, liquidity: u128, isInput: bool, aToB: bool)
    ensures GetAmountFixedDelta(current, target, liquidity, isInput, aToB) != Err(InsufficientFunds)
    ensures GetAmountUnfixedDelta(current, target, liquidity, isInput, aToB) != Err(InsufficientFunds)
  {
  }

  lemma NextPriceNotAboutFunds(current: u128, liquidity: u128, amount: u64, isInput: bool, aToB: bool)
    ensures GetNextSqrtPrice(current, liquidity, amount, isInput, aToB) != Err(InsufficientFunds)
  {
  }

  lemma ComputeNotAboutFunds(e: SwapEnv, st: SwapState, index: int)
    ensures Compute(e, st, index) != Err(InsufficientFunds)
  {
    hide GetAmountFixedDelta, GetAmountUnfixedDelta, GetNextSqrtPrice, Target;
    forall target: u128
      ensures GetAmountFixedDelta(st.sqrtPrice, target, st.liquidity, e.isInput, e.aToB) != Err(InsufficientFunds)
      ensures GetAmountUnfixedDelta(st.sqrtPrice, target, st.liquidity, e.isInput, e.aToB) != Err(InsufficientFunds)
    {
      DeltasNotAboutFunds(st.sqrtPrice, target, st.liquidity, e.isInput, e.aToB);
    }
    forall amount: u64
      ensures GetNextSqrtPrice(st.sqrtPrice, st.liquidity, amount, e.isInput, e.aToB) != Err(InsufficientFunds)
    {
      NextPriceNotAboutFunds(st.sqrtPrice, st.liquidity, amount, e.isInput, e.aToB);
    }
  }

  lemma MoveNotAboutFunds(e: SwapEnv, st: SwapState, next: u128, at: nat, index: int)
    requires e.tickSpacing > 0
    ensures MovePrice(e, st, next, at, index) != Err(InsufficientFunds)
  {
    hide CrossUpdate, TickIndexFromSqrtPrice, NextArrayIndex;
  }

  lemma StepNotAboutFunds(e: SwapEnv, st: SwapState)
    requires e.tickSpacing > 0
    ensures SwapStep(e, st) != Err(InsufficientFunds)
  {
    hide CalculateFees, NextInitialized, Compute, MovePrice;
    SearchNotAboutFunds(st.ticks, e.starts, st.tickIndex, e.tickSpacing, e.aToB, st.arrayIndex);
    if Search(e, st).Ok? {
      var (at, index) := Search(e, st).value;
      ComputeNotAboutFunds(e, st, index);
      if Compute(e, st, index).Ok? && Book(e, st, Compute(e, st, index).value).Ok? {
        MoveNotAboutFunds(e, Book(e, st, Compute(e, st, index).value).value, Compute(e, st, index).value.nextPrice, at,
                          index);
      }
    }
  }

  lemma {:induction false} LoopNotAboutFunds(e: SwapEnv, st: SwapState)
    requires Ready(e, st)
    ensures SwapLoop(e, st) != Err(InsufficientFunds)
    decreases Remaining(e, st)
  {
    if Running(e, st) {
      StepNotAboutFunds(e, st);
      if SwapStep(e, st).Ok? {
        StepProgresses(e, st);
        LoopNotAboutFunds(e, SwapStep(e, st).value);
      }
    }
  }
}
