/** What holds of every pool that any run can reach. */
module PoolSafety {
  import opened Numbers
  import opened PositionManager
  import opened TickSearch
  import opened Ledger
  import opened TM = TokenMath
  import PM = PriceMath
  import opened SwapManager
  import opened SwapBooks
  import opened SwapGrowth
  import opened PoolState
  import opened PoolInvariant
  import opened PoolLiquidity
  import opened PoolSteps
  import opened PoolPayouts
  import opened PoolSwap
  import opened PoolRun

  /** Some run leads here from a newly initialised pool. */
  ghost predicate Reachable(price: int -> u128, p: Pool) {
    exists spacing: nat, s: u128, rate: FeeRate, protocolRate: ProtocolFeeRate, ops: seq<Op> ::
      LeadsTo(price, spacing, s, rate, protocolRate, ops, p)
  }

  ghost predicate LeadsTo(price: int -> u128, spacing: nat, s: u128, rate: FeeRate, protocolRate: ProtocolFeeRate,
                          ops: seq<Op>, p: Pool) {
    && IsPriceTable(price) && spacing > 0
    && NewPool(price, spacing, s, rate, protocolRate).Ok?
    && var p0 := NewPool(price, spacing, s, rate, protocolRate).value;
       Invariant(price, p0) && p == Run(price, p0, ops)
  }

  lemma ReachableIsInvariant(price: int -> u128, p: Pool)
    requires Reachable(price, p)
    ensures Invariant(price, p)
  {
    hide Run, NewPool, Invariant;
  }

  lemma NewPoolIsReachable(price: int -> u128, spacing: nat, s: u128, rate: FeeRate, protocolRate: ProtocolFeeRate)
    requires IsPriceTable(price) && spacing > 0 && NewPool(price, spacing, s, rate, protocolRate).Ok?
    ensures Reachable(price, NewPool(price, spacing, s, rate, protocolRate).value)
  {
    hide Invariant, IsPriceTable, NewPool, Step;
    NewPoolInvariant(price, spacing, s, rate, protocolRate);
    var p := NewPool(price, spacing, s, rate, protocolRate).value;
    assert LeadsTo(price, spacing, s, rate, protocolRate, [], p);
  }

  /** There are reachable pools, so what is proved of them is not empty. */
  lemma ReachablePoolsExist()
    ensures exists price: int -> u128, p: Pool :: Reachable(price, p)
  {
    UnitPriceIsTable();
    hide Reachable, IsPriceTable, TickIndexFromSqrtPrice, UnitPrice;
    NewPoolIsReachable(UnitPrice, 1, MIN_SQRT_PRICE_X64, 3000, 300);
    assert Reachable(UnitPrice, NewPool(UnitPrice, 1, MIN_SQRT_PRICE_X64, 3000, 300).value);
  }

  // ---------------------------------------------------------------- solvency in whole tokens

  /**
   * One token's worth of an amount of liquidity in a position's range at the present price, rounded: the amount over
   * the part of the range on that token's side of the price.
   */
  function PartAmount(price: int -> u128, p: Pool, q: Position, amount: nat, token: Token, roundUp: bool): nat
    requires 0 < price(q.tickLowerIndex) <= price(q.tickUpperIndex) && 0 < p.sqrtPrice
  {
    var low, high := price(q.tickLowerIndex), price(q.tickUpperIndex);
    TokenAmount(token, amount, TokenLow(token, low, high, p.sqrtPrice), TokenHigh(token, low, high, p.sqrtPrice),
                roundUp)
  }

  /** What a position would be paid in one token for all its liquidity at the present price, rounded down. */
  function Withdrawable(price: int -> u128, p: Pool, q: Position, token: Token): nat
    requires 0 < price(q.tickLowerIndex) <= price(q.tickUpperIndex) && 0 < p.sqrtPrice
  {
    PartAmount(price, p, q, q.liquidity, token, false)
  }

  /** The fees that settling a position now would credit: its share of all growth inside its range since last time. */
  function Uncredited(p: Pool, i: nat, token: Token): nat
    requires Dated(p.positions, p.since, p.history) && i < |p.positions|
  {
    var q := p.positions[i];
    PM.MulNonNegative(q.liquidity, Pending(q, p.since[i], p.history, FeeChannel(token)));
    q.liquidity * Pending(q, p.since[i], p.history, FeeChannel(token)) / TWO_64
  }

  /** Everything the first n positions could take out of one vault. */
  function Payable(price: int -> u128, p: Pool, token: Token, n: nat): nat
    requires Dated(p.positions, p.since, p.history) && n <= |p.positions| && 0 < p.sqrtPrice
    requires forall i :: 0 <= i < |p.positions| ==>
        0 < price(p.positions[i].tickLowerIndex) <= price(p.positions[i].tickUpperIndex)
  {
    if n == 0 then 0
    else
      var q := p.positions[n - 1];
      Payable(price, p, token, n - 1)
      + Withdrawable(price, p, q, token) + Uncredited(p, n - 1, token) + Owed(q, FeeChannel(token))
  }

  lemma Priced(price: int -> u128, p: Pool)
    requires Consistent(price, p)
    ensures 0 < p.sqrtPrice && Dated(p.positions, p.since, p.history)
    ensures forall i :: 0 <= i < |p.positions| ==>
        0 < price(p.positions[i].tickLowerIndex) <= price(p.positions[i].tickUpperIndex)
  {
    forall i | 0 <= i < |p.positions|
      ensures 0 < price(p.positions[i].tickLowerIndex) <= price(p.positions[i].tickUpperIndex)
    {
      OrderedRange(price, p.positions[i], TokenA);
    }
  }

  lemma FloorAsReal(liquidity: nat, pending: nat)
    ensures Q * ((liquidity * pending / TWO_64) as real) <= Times(liquidity, pending as real)
  {
    PM.MulNonNegative(liquidity, pending);
    var x: nat := liquidity * pending / TWO_64;
    FloorGalois(liquidity * pending, TWO_64, x);
    CreditAsReal(liquidity, pending, x);
  }

  /** In whole tokens, a position's part is within its claim. */
  lemma PayableWithinClaim(price: int -> u128, p: Pool, i: nat, token: Token)
    requires Dated(p.positions, p.since, p.history) && i < |p.positions| && 0 < p.sqrtPrice
    requires 0 < price(p.positions[i].tickLowerIndex) <= price(p.positions[i].tickUpperIndex)
    ensures var q := p.positions[i];
            Q * ((Withdrawable(price, p, q, token) + Uncredited(p, i, token) + Owed(q, FeeChannel(token))) as real)
            <= Claim(price, token, q, Pending(q, p.since[i], p.history, FeeChannel(token)), Coord(token, p.sqrtPrice))
  {
    hide Coord, Value, Times, TokenAmount, InsideHistory;
    var q := p.positions[i];
    var low, high := price(q.tickLowerIndex), price(q.tickUpperIndex);
    ValueOverPart(token, q.liquidity, low, high, p.sqrtPrice);
    AmountCoversExact(token, q.liquidity, TokenLow(token, low, high, p.sqrtPrice),
                      TokenHigh(token, low, high, p.sqrtPrice));
    FloorAsReal(q.liquidity, Pending(q, p.since[i], p.history, FeeChannel(token)));
  }

  lemma {:induction false} PayableWithinClaims(price: int -> u128, p: Pool, token: Token, n: nat)
    requires Dated(p.positions, p.since, p.history) && n <= |p.positions| && 0 < p.sqrtPrice
    requires forall i :: 0 <= i < |p.positions| ==>
        0 < price(p.positions[i].tickLowerIndex) <= price(p.positions[i].tickUpperIndex)
    ensures Q * (Payable(price, p, token, n) as real)
            <= RealSum(ClaimSeq(price, token, p.positions, p.since, p.history, Coord(token, p.sqrtPrice)), n)
  {
    hide Coord, Claim, Withdrawable, Uncredited, Pending;
    if n > 0 {
      PayableWithinClaims(price, p, token, n - 1);
      PayableWithinClaim(price, p, n - 1, token);
    }
  }

  /**
   * Vault solvency over every run: each vault covers everything that all positions together could withdraw at the
   * present price, all fees owed to them, credited or not, and all fees owed to the protocol.
   */
  lemma VaultsCoverEverything(price: int -> u128, p: Pool, token: Token)
    requires Reachable(price, p)
    ensures Dated(p.positions, p.since, p.history) && 0 < p.sqrtPrice
    ensures forall i :: 0 <= i < |p.positions| ==>
        0 < price(p.positions[i].tickLowerIndex) <= price(p.positions[i].tickUpperIndex)
    ensures Payable(price, p, token, |p.positions|) + ProtocolOwed(p, token) <= Vault(p, token)
  {
    hide Reachable, Consistent, Payable, Vault, ProtocolOwed, ClaimSeq;
    ReachableIsInvariant(price, p);
    Priced(price, p);
    PayableWithinClaims(price, p, token, |p.positions|);
    CoveredAmount(PoolClaims(price, p, token), ProtocolOwed(p, token), Vault(p, token),
                  Payable(price, p, token, |p.positions|));
  }

  lemma AmountIsTokenAmountExactly(token: Token, low: u128, high: u128, liquidity: u128, roundUp: bool)
    requires 0 < low <= high
    ensures var r := AmountOf(low, high, liquidity, token, roundUp);
            r.Ok? ==> r.value == TokenAmount(token, liquidity, low, high, roundUp)
    ensures low == high ==> TokenAmount(token, liquidity, low, high, roundUp) == 0
  {
    AmountDeltaAAgrees(low, high, liquidity, roundUp);
    AmountDeltaBAgrees(low, high, liquidity, roundUp);
  }

  /** What the instructions compute for an amount of liquidity is its worth, rounded as asked. */
  lemma DeltaIsPart(price: int -> u128, p: Pool, q: Position, amount: u128, roundUp: bool, token: Token)
    requires Consistent(price, p) && MIN_TICK_INDEX <= q.tickLowerIndex < q.tickUpperIndex <= MAX_TICK_INDEX
    requires LiquidityTokenDeltas(price, p.tickIndex, p.sqrtPrice, q, amount, roundUp).Ok?
    ensures 0 < price(q.tickLowerIndex) <= price(q.tickUpperIndex) && 0 < p.sqrtPrice
    ensures DeltaOf(LiquidityTokenDeltas(price, p.tickIndex, p.sqrtPrice, q, amount, roundUp).value, token)
            == PartAmount(price, p, q, amount, token, roundUp)
  {
    hide AllCoupled, AllQuiet, LiquidityBooked, LiquidityTokenDeltas, AmountOf, TokenAmount, IsPriceTable, DeltaOf;
    OrderedRange(price, q, token);
    var low, high := price(q.tickLowerIndex), price(q.tickUpperIndex);
    DeltasArePartAmounts(price, p.tickIndex, p.sqrtPrice, q, amount, roundUp, token);
    AmountIsTokenAmountExactly(token, TokenLow(token, low, high, p.sqrtPrice),
                               TokenHigh(token, low, high, p.sqrtPrice), amount, roundUp);
  }

  /**
   * Withdrawable is what the withdrawal instruction computes for the whole liquidity, whenever that does not overflow.
   */
  lemma WithdrawableIsPaid(price: int -> u128, p: Pool, q: Position, token: Token)
    requires Consistent(price, p) && MIN_TICK_INDEX <= q.tickLowerIndex < q.tickUpperIndex <= MAX_TICK_INDEX
    requires LiquidityTokenDeltas(price, p.tickIndex, p.sqrtPrice, q, q.liquidity, false).Ok?
    ensures 0 < price(q.tickLowerIndex) <= price(q.tickUpperIndex) && 0 < p.sqrtPrice
    ensures DeltaOf(LiquidityTokenDeltas(price, p.tickIndex, p.sqrtPrice, q, q.liquidity, false).value, token)
            == Withdrawable(price, p, q, token)
  {
    hide Consistent, LiquidityTokenDeltas, TokenAmount, TokenLow, TokenHigh, DeltaOf;
    DeltaIsPart(price, p, q, q.liquidity, false, token);
  }

  /** The worth of an amount, unrounded and scaled by 2^64, lies less than one token from its roundings. */
  lemma PartIsWorthRounded(price: int -> u128, p: Pool, q: Position, amount: nat, token: Token)
    requires 0 < price(q.tickLowerIndex) <= price(q.tickUpperIndex) && 0 < p.sqrtPrice
    ensures var worth := Value(token, amount, LowCoord(price, token, q), HighCoord(price, token, q),
                               Coord(token, p.sqrtPrice));
            var up: int := PartAmount(price, p, q, amount, token, true);
            var down := PartAmount(price, p, q, amount, token, false);
            && Q * ((up - 1) as real) < worth <= Q * (up as real)
            && Q * (down as real) <= worth < Q * ((down + 1) as real)
  {
    hide Value, Coord, TokenAmount, Times;
    var low, high := price(q.tickLowerIndex), price(q.tickUpperIndex);
    ValueOverPart(token, amount, low, high, p.sqrtPrice);
    AmountIsRounded(token, amount, TokenLow(token, low, high, p.sqrtPrice),
                    TokenHigh(token, low, high, p.sqrtPrice));
  }

  // ---------------------------------------------------------------- nothing is lost to wrap-around or overflow

  lemma OnePayable(price: int -> u128, p: Pool, i: nat, token: Token)
    requires Consistent(price, p) && Solvent(price, p, token) && i < |p.positions|
    ensures Dated(p.positions, p.since, p.history)
    ensures Uncredited(p, i, token) + Owed(p.positions[i], FeeChannel(token)) + ProtocolOwed(p, token)
        <= Vault(p, token)
  {
    hide AllCoupled, AllQuiet, LiquidityBooked, Claim, ClaimSeq, Uncredited, Withdrawable, Coord, Vault, ProtocolOwed,
        IsPriceTable;
    var q := p.positions[i];
    Priced(price, p);
    PayableWithinClaim(price, p, i, token);
    forall k | 0 <= k < |p.positions|
      ensures LowCoord(price, token, p.positions[k]) <= HighCoord(price, token, p.positions[k])
    {
      OrderedRange(price, p.positions[k], token);
    }
    ClaimsContain(price, token, p.positions, p.since, p.history, Coord(token, p.sqrtPrice), i);
    var part := Withdrawable(price, p, q, token) + Uncredited(p, i, token) + Owed(q, FeeChannel(token));
    CoveredAmount(PoolClaims(price, p, token), ProtocolOwed(p, token), Vault(p, token), part);
  }

  lemma CreditIsFloor(liquidity: u128, inside: u128, checkpoint: u128, pending: nat)
    requires liquidity > 0 ==> Wrap128(inside - checkpoint) == Wrap128(pending)
    requires liquidity * pending / TWO_64 < TWO_64
    ensures Credit(liquidity, inside, checkpoint) == liquidity * pending / TWO_64
  {
    if liquidity > 0 {
      FloorGalois(liquidity * pending, TWO_64, TWO_64);
      CreditBound(liquidity, inside, checkpoint, pending);
    }
  }

  /** The credit for a coupled position is the floor of what the history shows, as long as that is an amount at all. */
  lemma CreditIsUncredited(p: Pool, i: nat, token: Token)
    requires Dated(p.positions, p.since, p.history) && i < |p.positions| && Uncredited(p, i, token) < TWO_64
    requires var q := p.positions[i];
             q.liquidity > 0 ==> Coupled(p.ticks, p.tickIndex, PoolGrowths(p), q, p.since[i], p.history,
                                         FeeChannel(token))
    ensures var q, c := p.positions[i], FeeChannel(token);
            Credit(q.liquidity, InsideAt(p.ticks, p.tickIndex, q.tickLowerIndex, q.tickUpperIndex, c, PoolGrowths(p)),
                   Checkpoint(q, c))
            == Uncredited(p, i, token)
  {
    hide InsideAt, InsideHistory, Credit, Wrap128;
    var q, c := p.positions[i], FeeChannel(token);
    CreditIsFloor(q.liquidity, InsideAt(p.ticks, p.tickIndex, q.tickLowerIndex, q.tickUpperIndex, c, PoolGrowths(p)),
                  Checkpoint(q, c),
                  Pending(q, p.since[i], p.history, c));
  }

  lemma SettledExactly(price: int -> u128, p: Pool, i: nat, token: Token)
    requires Invariant(price, p) && i < |p.positions|
    ensures Dated(p.positions, p.since, p.history)
    ensures var q, c := p.positions[i], FeeChannel(token);
            && Credit(q.liquidity, InsideOf(p, q).At(c), Checkpoint(q, c)) == Uncredited(p, i, token)
            && Owed(Settled(q, InsideOf(p, q)), c) == Owed(q, c) + Uncredited(p, i, token)
  {
    hide Sound, AllQuiet, LiquidityBooked, Coupled, GrowthsInside, Settled, Credit, Vault, ProtocolOwed, InsideAt,
        Uncredited;
    var q, c := p.positions[i], FeeChannel(token);
    OnePayable(price, p, i, token);
    SettledCheckpoint(q, InsideOf(p, q), c);
    ReportedInside(p, q.tickLowerIndex, q.tickUpperIndex, c);
    CreditIsUncredited(p, i, token);
  }

  /**
   * In every reachable pool, settling a position's fees credits exactly the floor of its liquidity times all the growth
   * accrued while the price was in its range: no growth difference is misread for having wrapped, no product overflows
   * to zero, and no amount owed wraps.
   */
  lemma SettlingIsExact(price: int -> u128, p: Pool, i: nat, token: Token)
    requires Reachable(price, p) && i < |p.positions|
    ensures Dated(p.positions, p.since, p.history)
    ensures var c := FeeChannel(token);
            Owed(Settled(p.positions[i], InsideOf(p, p.positions[i])), c)
                == Owed(p.positions[i], c) + Uncredited(p, i, token)
  {
    hide Reachable, Consistent, GrowthsInside, Settled, Credit, Uncredited;
    ReachableIsInvariant(price, p);
    SettledExactly(price, p, i, token);
  }

  // ---------------------------------------------------------------- the redundant views agree

  /** The three views of liquidity, and of the price, in every reachable pool. */
  lemma ViewsAgree(price: int -> u128, p: Pool)
    requires Reachable(price, p)
    ensures forall t: int ::
              && TickAt(p.ticks, t).liquidityGross == Sum(p.positions, GrossAt(t))
              && TickAt(p.ticks, t).liquidityNet == Sum(p.positions, NetAt(t))
              && (TickAt(p.ticks, t).initialized <==> TickAt(p.ticks, t).liquidityGross > 0)
    ensures p.liquidity == Sum(p.positions, ActiveAt(p.tickIndex)) == NetUpTo(p.ticks, p.tickIndex)
    ensures price(p.tickIndex) <= p.sqrtPrice <= price(p.tickIndex + 1)
  {
    hide Reachable, AllQuiet, AllCoupled, IsPriceTable;
    ReachableIsInvariant(price, p);
    ActiveIsNetUpTo(p.positions, p.ticks, p.tickIndex, p.tickSpacing);
  }

  /** No instruction of any run ever fails because a vault holds too little. */
  lemma NoPaymentFails(price: int -> u128, p: Pool, op: Op)
    requires Reachable(price, p) && Invariant(price, p)
    ensures Step(price, p, op) != Err(InsufficientFunds)
  {
    hide Reachable, Sound, StepIncreaseLiquidity, StepDecreaseLiquidity, StepUpdateFeesAndRewards, StepSwap,
        Consistent, Solvent, StepCollectFees, StepCollectProtocolFees;
    SpacingPositive(price, p);
    match op
    case IncreaseLiquidity(id, amount, maxA, maxB, ls, us, now) => IncreaseNeverShort(price, p, id, amount, maxA, maxB,
        ls, us, now);
    case DecreaseLiquidity(id, amount, minA, minB, ls, us, now) => DecreaseNeverShort(price, p, id, amount, minA, minB,
        ls, us, now);
    case UpdateFeesAndRewards(id, ls, us, now) => UpdateNeverShort(p, id, ls, us, now);
    case CollectFees(id) => CollectFeesKeeps(price, p, id); MissingPosition(p, id);
    case CollectProtocolFees => CollectProtocolFeesKeeps(price, p);
    case Swap(amount, threshold, limit, isInput, aToB, starts, now) => SwapKeeps(price, p, amount, threshold, limit,
        isInput, aToB, starts, now);
    case SetRewardEmissions(index, emissions, available, now) =>
    case _ =>
  }

  lemma IncreaseNeverShort(price: int -> u128, p: Pool, id: nat, amount: u128, maxA: u64, maxB: u64, ls: int, us: int,
                           now: u64)
    requires p.tickSpacing > 0
    ensures StepIncreaseLiquidity(price, p, id, amount, maxA, maxB, ls, us, now) != Err(InsufficientFunds)
  {
    hide CalculateModifyLiquidity, LiquidityTokenDeltas, NextRewardInfos, RewardAccrual;
    if id < |p.positions| {
      NotAboutFunds(price, p, id, amount, ls, us, now);
    }
  }

  lemma UpdateNeverShort(p: Pool, id: nat, ls: int, us: int, now: u64)
    requires p.tickSpacing > 0
    ensures StepUpdateFeesAndRewards(p, id, ls, us, now) != Err(InsufficientFunds)
  {
    hide GrowthsInside, Settled, RewardAccrual;
  }

  lemma MissingPosition(p: Pool, id: nat)
    ensures id >= |p.positions| ==> StepCollectFees(p, id) == Err(MissingAccount)
  {
  }
}
