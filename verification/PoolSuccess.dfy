/** Exactly when a deposit, and when a swap, succeeds. */
module PoolSuccess {
  import opened Numbers
  import opened PositionManager
  import opened TickSearch
  import opened Ledger
  import opened TM = TokenMath
  import opened SwapManager
  import opened SwapProgress
  import opened SwapBooks
  import opened SwapClaims
  import opened SwapGrowth
  import opened SwapTrace
  import opened PoolState
  import opened PoolInvariant
  import opened PoolLiquidity
  import opened PoolSteps
  import opened PoolSwap
  import opened PoolSafety
  import opened PoolAmounts

  // ---------------------------------------------------------------- deposits

  /** The two parts of the range at price s are prices. */
  lemma PartsArePrices(price: int -> u128, s: u128, q: Position, token: Token)
    requires IsPriceTable(price) && MIN_TICK_INDEX <= q.tickLowerIndex < q.tickUpperIndex <= MAX_TICK_INDEX
    ensures var low, high := price(q.tickLowerIndex), price(q.tickUpperIndex);
            0 < low <= TokenLow(token, low, high, s) <= TokenHigh(token, low, high, s) <= high < TWO_128
  {
    OrderedRange(price, q, token);
  }

  /** The amounts of a liquidity can be computed exactly when both parts can. */
  lemma DeltasCompute(price: int -> u128, tickIndex: int, s: u128, q: Position, liquidity: u128, roundUp: bool)
    requires IsPriceTable(price) && Coherent(price, s, tickIndex)
    requires MIN_TICK_INDEX <= q.tickLowerIndex < q.tickUpperIndex <= MAX_TICK_INDEX
    ensures var low, high := price(q.tickLowerIndex), price(q.tickUpperIndex);
            LiquidityTokenDeltas(price, tickIndex, s, q, liquidity, roundUp).Ok?
            <==> && PartComputes(TokenA, low, high, s, liquidity, roundUp)
                 && PartComputes(TokenB, low, high, s, liquidity, roundUp)
  {
    hide GetAmountDeltaA, GetAmountDeltaB;
    var l, u := q.tickLowerIndex, q.tickUpperIndex;
    OrderedRange(price, q, TokenA);
    PriceOrder(price, tickIndex + 1, l);
    PriceOrder(price, tickIndex + 1, u);
    PriceOrder(price, l, tickIndex);
    PriceOrder(price, u, tickIndex);
    NothingComputes(price(l), liquidity, roundUp);
    NothingComputes(price(u), liquidity, roundUp);
  }

  predicate PartComputes(token: Token, low: u128, high: u128, s: u128, liquidity: u128, roundUp: bool) {
    var part0, part1 := TokenLow(token, low, high, s), TokenHigh(token, low, high, s);
    part0 < TWO_128 && part1 < TWO_128 && AmountOf(part0, part1, liquidity, token, roundUp).Ok?
  }

  lemma NothingComputes(s: u128, liquidity: u128, roundUp: bool)
    requires 0 < s
    ensures GetAmountDeltaA(s, s, liquidity, roundUp) == Ok(0) && GetAmountDeltaB(s, s, liquidity, roundUp) == Ok(0)
  {
    AmountDeltaAAgrees(s, s, liquidity, roundUp);
    AmountDeltaBAgrees(s, s, liquidity, roundUp);
    assert liquidity * (s - s) == 0;
  }

  /** What a deposit charges in one token fits the widths it is computed in. */
  predicate ChargeFits(price: int -> u128, p: Pool, q: Position, amount: u128, token: Token)
    requires 0 < price(q.tickLowerIndex) <= price(q.tickUpperIndex) && 0 < p.sqrtPrice
  {
    var low, high := price(q.tickLowerIndex), price(q.tickUpperIndex);
    Fits(PartAmount(price, p, q, amount, token, true), amount, TokenLow(token, low, high, p.sqrtPrice),
         TokenHigh(token, low, high, p.sqrtPrice), token.TokenA?)
  }

  lemma ChargeComputes(price: int -> u128, p: Pool, q: Position, amount: u128, token: Token)
    requires Consistent(price, p) && MIN_TICK_INDEX <= q.tickLowerIndex < q.tickUpperIndex <= MAX_TICK_INDEX
    ensures 0 < price(q.tickLowerIndex) <= price(q.tickUpperIndex) && 0 < p.sqrtPrice
    ensures PartComputes(token, price(q.tickLowerIndex), price(q.tickUpperIndex), p.sqrtPrice, amount, true)
            <==> ChargeFits(price, p, q, amount, token)
  {
    hide AllCoupled, AllQuiet, LiquidityBooked, IsPriceTable, TokenLow, TokenHigh, GetAmountDeltaA, GetAmountDeltaB;
    PartsArePrices(price, p.sqrtPrice, q, token);
    var low, high := price(q.tickLowerIndex), price(q.tickUpperIndex);
    var part0, part1 := TokenLow(token, low, high, p.sqrtPrice), TokenHigh(token, low, high, p.sqrtPrice);
    AmountDeltaAAgrees(part0, part1, amount, true);
    AmountDeltaBAgrees(part0, part1, amount, true);
  }

  /** Liquidity can be added without leaving any width: the position's, both ticks' and, in range, the pool's. */
  predicate RoomFor(p: Pool, q: Position, amount: nat) {
    var lower, upper := TickAt(p.ticks, q.tickLowerIndex), TickAt(p.ticks, q.tickUpperIndex);
    && q.liquidity + amount < TWO_128
    && lower.liquidityGross + amount < TWO_128 && lower.liquidityNet + amount <= I128_MAX
    && upper.liquidityGross + amount < TWO_128 && I128_MIN <= upper.liquidityNet - amount
    && (q.tickLowerIndex <= p.tickIndex < q.tickUpperIndex ==> p.liquidity + amount < TWO_128)
  }

  lemma AdditionCalculates(p: Pool, id: nat, amount: u128)
    requires id < |p.positions| && 0 < amount <= I128_MAX
    ensures var q, delta: int := p.positions[id], amount;
            CalculateModifyLiquidity(p, q, TickAt(p.ticks, q.tickLowerIndex), TickAt(p.ticks, q.tickUpperIndex),
                                     delta).Ok?
            <==> RoomFor(p, q, amount)
  {
    hide GrowthsInside, Settled;
  }

  /** The handler succeeds exactly when each of its parts does. */
  lemma IncreaseSucceedsWhen(price: int -> u128, p: Pool, id: nat, amount: u128, maxA: u64, maxB: u64, ls: int,
                             us: int, now: u64)
    requires p.tickSpacing > 0 && id < |p.positions|
    requires var q, accrued, delta: int := p.positions[id], AccrueRewards(p, now), amount;
             0 < amount <= I128_MAX && p.rewardLastUpdated <= now ==>
               (CalculateModifyLiquidity(accrued.value, q, TickAt(p.ticks, q.tickLowerIndex),
                                         TickAt(p.ticks, q.tickUpperIndex), delta).Ok?
                <==> RoomFor(p, q, amount))
    ensures var q := p.positions[id];
            var deltas := LiquidityTokenDeltas(price, p.tickIndex, p.sqrtPrice, q, amount, true);
            StepIncreaseLiquidity(price, p, id, amount, maxA, maxB, ls, us, now).Ok?
            <==> && 0 < amount <= I128_MAX && RoomFor(p, q, amount) && p.rewardLastUpdated <= now
                 && GetTick(p, ls, q.tickLowerIndex).Ok? && GetTick(p, us, q.tickUpperIndex).Ok?
                 && deltas.Ok?
                 && DeltaOf(deltas.value, TokenA) <= maxA && Vault(p, TokenA) + DeltaOf(deltas.value, TokenA) < TWO_64
                 && DeltaOf(deltas.value, TokenB) <= maxB && Vault(p, TokenB) + DeltaOf(deltas.value, TokenB) < TWO_64
  {
    hide CalculateModifyLiquidity, LiquidityTokenDeltas, RewardAccrual, GrownReward, RoomFor;
  }

  /** A charge in one token that is computable, within the maximum, and that the vault has room for. */
  predicate Chargeable(price: int -> u128, p: Pool, q: Position, amount: u128, token: Token, max: u64)
    requires 0 < price(q.tickLowerIndex) <= price(q.tickUpperIndex) && 0 < p.sqrtPrice
  {
    && ChargeFits(price, p, q, amount, token)
    && PartAmount(price, p, q, amount, token, true) <= max
    && Vault(p, token) + PartAmount(price, p, q, amount, token, true) < TWO_64
  }

  /**
   * In every pool of any run a deposit succeeds exactly when its amount is positive and a signed 128-bit number, there
   * is room for it, the tick arrays are the right ones, the clock has not run backwards, and its charge in each token
   * can be computed, is within the maximum and fits the vault.
   */
  lemma DepositSucceeds(price: int -> u128, p: Pool, id: nat, amount: u128, maxA: u64, maxB: u64, ls: int, us: int,
                        now: u64)
    requires Invariant(price, p) && id < |p.positions|
    ensures 0 < price(p.positions[id].tickLowerIndex) <= price(p.positions[id].tickUpperIndex) && 0 < p.sqrtPrice
    ensures var q := p.positions[id];
            StepIncreaseLiquidity(price, p, id, amount, maxA, maxB, ls, us, now).Ok?
            <==> && 0 < amount <= I128_MAX && RoomFor(p, q, amount) && p.rewardLastUpdated <= now
                 && GetTick(p, ls, q.tickLowerIndex).Ok? && GetTick(p, us, q.tickUpperIndex).Ok?
                 && Chargeable(price, p, q, amount, TokenA, maxA) && Chargeable(price, p, q, amount, TokenB, maxB)
  {
    hide Invariant, Consistent, CalculateModifyLiquidity, LiquidityTokenDeltas, RewardAccrual, GrownReward,
        StepIncreaseLiquidity, GetTick, Vault, RoomFor, PartAmount, ChargeFits;
    SpacingPositive(price, p);
    InvariantIsConsistent(price, p);
    var q := p.positions[id];
    PositionPriced(price, p, id);
    if 0 < amount <= I128_MAX && p.rewardLastUpdated <= now {
      AdditionCalculates(AccrueRewards(p, now).value, id, amount);
      SameRoom(p, now, q, amount);
    }
    IncreaseSucceedsWhen(price, p, id, amount, maxA, maxB, ls, us, now);
    DepositComputes(price, p, id, amount);
    if LiquidityTokenDeltas(price, p.tickIndex, p.sqrtPrice, q, amount, true).Ok? {
      DeltaIsPart(price, p, q, amount, true, TokenA);
      DeltaIsPart(price, p, q, amount, true, TokenB);
    }
  }

  lemma SameRoom(p: Pool, now: u64, q: Position, amount: nat)
    requires AccrueRewards(p, now).Ok?
    ensures RoomFor(AccrueRewards(p, now).value, q, amount) == RoomFor(p, q, amount)
  {
  }

  lemma DepositComputes(price: int -> u128, p: Pool, id: nat, amount: u128)
    requires Consistent(price, p) && id < |p.positions|
    ensures 0 < price(p.positions[id].tickLowerIndex) <= price(p.positions[id].tickUpperIndex) && 0 < p.sqrtPrice
    ensures var q := p.positions[id];
            LiquidityTokenDeltas(price, p.tickIndex, p.sqrtPrice, q, amount, true).Ok?
            <==> ChargeFits(price, p, q, amount, TokenA) && ChargeFits(price, p, q, amount, TokenB)
  {
    hide AllCoupled, AllQuiet, LiquidityBooked, IsPriceTable, LiquidityTokenDeltas, ChargeFits, PartComputes;
    PositionPriced(price, p, id);
    var q := p.positions[id];
    DeltasCompute(price, p.tickIndex, p.sqrtPrice, q, amount, true);
    ChargeComputes(price, p, q, amount, TokenA);
    ChargeComputes(price, p, q, amount, TokenB);
  }

  // ---------------------------------------------------------------- swaps

  /** What a swap asks for before it looks at any tick. */
  ghost predicate Admitted(p: Pool, amount: u64, limit: u128, aToB: bool, starts: seq<int>, now: u64) {
    && (forall s :: s in starts ==> s in p.arrays)
    && MIN_SQRT_PRICE_X64 <= limit <= MAX_SQRT_PRICE_X64
    && (if aToB then limit <= p.sqrtPrice else p.sqrtPrice <= limit)
    && amount > 0 && p.rewardLastUpdated <= now
  }

  /** The swap's loop finishes, within the threshold, and the vault has room for what comes in. */
  ghost predicate Completes(price: int -> u128, p: Pool, amount: u64, threshold: u64, limit: u128, isInput: bool,
                            aToB: bool, starts: seq<int>, now: u64)
    requires Sound(price, p) && Admitted(p, amount, limit, aToB, starts, now)
  {
    var accrued := AccrueRewards(p, now).value;
    var e, st := EnvOf(price, accrued, limit, isInput, aToB, starts), SwapStart(accrued, amount, aToB);
    SoundIsReady(price, p, amount, limit, isInput, aToB, starts, now);
    && SwapLoop(e, st).Ok?
    && var steps := SwapLoop(e, st).value.steps;
       && (if isInput then threshold <= TotalOut(steps) else TotalIn(steps) <= threshold)
       && Vault(p, InputToken(aToB)) + TotalIn(steps) < TWO_64
  }

  lemma ThresholdIsOnTotals(e: SwapEnv, amount: u64, r: SwapState, threshold: u64)
    requires Accounted(e, amount, r)
    ensures CheckThreshold(SwapAmounts(amount, e.isInput, e.aToB, r), threshold, e.isInput, e.aToB).Ok?
            <==> if e.isInput then threshold <= TotalOut(r.steps) else TotalIn(r.steps) <= threshold
  {
    hide TotalIn, TotalOut, TotalProtocolFee;
  }

  lemma TransfersSucceed(p: Pool, aToB: bool, r: SwapState, amounts: (int, int))
    requires 0 <= amounts.0 && 0 <= amounts.1
    requires PerformSwap(UpdateAfterSwap(p, aToB, r), amounts, aToB) != Err(InsufficientFunds)
    ensures PerformSwap(UpdateAfterSwap(p, aToB, r), amounts, aToB).Ok?
            <==> Vault(p, InputToken(aToB)) + (if aToB then amounts.0 else amounts.1) < TWO_64
  {
  }

  /** Once a swap is admitted and its loop has finished, only the threshold and the incoming transfer can fail it. */
  lemma FinishSucceeds(price: int -> u128, p: Pool, amount: u64, threshold: u64, e: SwapEnv, st: SwapState)
    requires Invariant(price, p) && Entered(price, p, amount, e, st) && SwapLoop(e, st).Ok?
    ensures var r := SwapLoop(e, st).value;
            var amounts := SwapAmounts(amount, e.isInput, e.aToB, r);
            && 0 <= amounts.0 && 0 <= amounts.1
            && (CheckThreshold(amounts, threshold, e.isInput, e.aToB).Ok?
                <==> if e.isInput then threshold <= TotalOut(r.steps) else TotalIn(r.steps) <= threshold)
            && (PerformSwap(UpdateAfterSwap(p, e.aToB, r), amounts, e.aToB).Ok?
                <==> Vault(p, InputToken(e.aToB)) + TotalIn(r.steps) < TWO_64)
  {
    hide Invariant, Ready, SwapLoop, PerformSwap, UpdateAfterSwap, SwapAmounts, CheckThreshold, Accounted, Consistent,
        Solvent, TotalIn, TotalOut, Vault;
    InvariantIsConsistent(price, p);
    AmountsNonNegative(e, st, amount);
    var r := SwapLoop(e, st).value;
    FinishedSwap(price, p, amount, e, st, r);
    AmountsAreTotals(e, amount, r);
    ThresholdIsOnTotals(e, amount, r, threshold);
    TransfersSucceed(p, e.aToB, r, SwapAmounts(amount, e.isInput, e.aToB, r));
  }

  lemma AdmittedIsChecked(p: Pool, amount: u64, limit: u128, aToB: bool, starts: seq<int>, now: u64)
    ensures Admitted(p, amount, limit, aToB, starts, now)
            <==> && !(exists s :: s in starts && s !in p.arrays)
                 && CheckSwap(p, amount, limit, aToB).Ok? && AccrueRewards(p, now).Ok?
  {
    hide RewardAccrual, GrownReward;
  }

  /**
   * In every pool of any run a swap succeeds exactly when its arrays exist, its limit is a price on the trade's side,
   * its amount is positive and the clock has not run backwards, its loop finishes, the side that was not specified
   * meets the threshold, and the vault has room for the input. SwapLoopSucceeds says when the loop finishes.
   */
  lemma SwapSucceeds(price: int -> u128, p: Pool, amount: u64, threshold: u64, limit: u128, isInput: bool, aToB: bool,
                     starts: seq<int>, now: u64)
    requires Invariant(price, p) && Sound(price, p)
    ensures StepSwap(price, p, amount, threshold, limit, isInput, aToB, starts, now).Ok?
            <==> && Admitted(p, amount, limit, aToB, starts, now)
                 && Completes(price, p, amount, threshold, limit, isInput, aToB, starts, now)
  {
    hide Invariant, Sound, Ready, SwapLoop, PerformSwap, UpdateAfterSwap, SwapAmounts, CheckThreshold, Accounted,
        Consistent, Solvent, CheckSwap, NextRewardInfos, RewardAccrual, TotalIn, TotalOut, Admitted;
    AdmittedIsChecked(p, amount, limit, aToB, starts, now);
    if Admitted(p, amount, limit, aToB, starts, now) {
      var accrued := AccrueRewards(p, now).value;
      var e, st := EnvOf(price, accrued, limit, isInput, aToB, starts), SwapStart(accrued, amount, aToB);
      SoundIsReady(price, p, amount, limit, isInput, aToB, starts, now);
      RewardsAccrue(price, p, now);
      if SwapLoop(e, st).Ok? {
        InvariantIsConsistent(price, accrued);
        assert Entered(price, accrued, amount, e, st);
        FinishSucceeds(price, accrued, amount, threshold, e, st);
      }
    }
  }

  /**
   * Given contiguous arrays, the first of which covers the current tick, the loop finishes exactly when at each of its
   * heads an array is left to search and the next iteration fits.
   */
  lemma ArraysDecide(price: int -> u128, p: Pool, amount: u64, limit: u128, isInput: bool, aToB: bool,
                     starts: seq<int>, now: u64)
    requires Sound(price, p) && Admitted(p, amount, limit, aToB, starts, now)
    requires Contiguous(starts, p.tickSpacing, aToB)
    requires |starts| > 0 ==> InSearchRange(starts[0], p.tickIndex, p.tickSpacing, !aToB)
    ensures var accrued := AccrueRewards(p, now).value;
            var e, st := EnvOf(price, accrued, limit, isInput, aToB, starts), SwapStart(accrued, amount, aToB);
            && Ready(e, st)
            && (SwapLoop(e, st).Ok? <==> forall s :: Ready(e, s) && Visits(e, st, s) && Running(e, s) ==> GoesOn(e, s))
  {
    hide Ready, SwapLoop, Visits, GoesOn, NextRewardInfos, RewardAccrual, Contiguous, Sound;
    AdmittedIsChecked(p, amount, limit, aToB, starts, now);
    SoundIsReady(price, p, amount, limit, isInput, aToB, starts, now);
    var accrued := AccrueRewards(p, now).value;
    SwapLoopSucceeds(EnvOf(price, accrued, limit, isInput, aToB, starts), SwapStart(accrued, amount, aToB));
  }
}
