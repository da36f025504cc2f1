/** Whoever holds liquidity can always take it out: exactly when a withdrawal succeeds. */
module PoolExit {
  import opened Numbers
  import opened TickManager
  import opened PositionManager
  import opened TickSearch
  import opened Ledger
  import opened TM = TokenMath
  import PM = PriceMath
  import opened SwapManager
  import opened SwapBooks
  import opened SwapGrowth
  import opened PoolState
  import opened PoolInvariant
  import opened PoolLiquidity
  import opened PoolSteps
  import opened PoolPayouts
  import opened PoolSafety

  // ---------------------------------------------------------------- the amounts can be computed

  /** An amount that fits 64 bits never overflows on the way, at prices within the bounds. */
  lemma FloorAmountComputes(token: Token, low: u128, high: u128, liquidity: u128)
    requires 0 < low <= high <= MAX_SQRT_PRICE_X64
    requires TokenAmount(token, liquidity, low, high, false) < TWO_64
    ensures AmountOf(low, high, liquidity, token, false).Ok?
  {
    AmountDeltaAAgrees(low, high, liquidity, false);
    AmountDeltaBAgrees(low, high, liquidity, false);
    PM.MulPositive(high, low);
    PM.MulNonNegative(liquidity, high - low);
    FitsBelow(liquidity * (high - low), low, high);
  }

  lemma FitsBelow(n: nat, low: u128, high: u128)
    requires 0 < low <= high <= MAX_SQRT_PRICE_X64
    ensures high * low > 0
    ensures n * TWO_64 / (high * low) < TWO_64 ==> n < TWO_192
    ensures n / TWO_64 < TWO_64 ==> n < TWO_128
  {
    PM.MulPositive(high, low);
    FloorGalois(n * TWO_64, high * low, TWO_64);
    MulMono(low, MAX_SQRT_PRICE_X64, high);
    MulMono(high, MAX_SQRT_PRICE_X64, MAX_SQRT_PRICE_X64);
  }

  /** The exact parts of a withdrawal are bounded by what the vaults hold. */
  lemma PartFits(price: int -> u128, p: Pool, id: nat, amount: u128, token: Token)
    requires Consistent(price, p) && Solvent(price, p, token) && id < |p.positions|
        && amount <= p.positions[id].liquidity
    ensures var q := p.positions[id];
            var low, high := price(q.tickLowerIndex), price(q.tickUpperIndex);
            && 0 < TokenLow(token, low, high, p.sqrtPrice) <= TokenHigh(token, low, high, p.sqrtPrice)
                <= MAX_SQRT_PRICE_X64
            && AmountOf(TokenLow(token, low, high, p.sqrtPrice), TokenHigh(token, low, high, p.sqrtPrice), amount,
                        token, false).Ok?
  {
    hide Coupled, AllCoupled, LiquidityBooked, AllQuiet, Value, Coord, PoolClaims, InsideHistory, Vault, ProtocolOwed,
        TokenAmount, Times, AmountOf;
    var q, c := p.positions[id], FeeChannel(token);
    var low, high := price(q.tickLowerIndex), price(q.tickUpperIndex);
    OrderedRange(price, q, token);
    PriceOrder(price, q.tickUpperIndex, MAX_TICK_INDEX);
    var part0, part1 := TokenLow(token, low, high, p.sqrtPrice), TokenHigh(token, low, high, p.sqrtPrice);
    ValueOverPart(token, amount, low, high, p.sqrtPrice);
    AmountCoversExact(token, amount, part0, part1);
    ValueMonotone(token, amount, q.liquidity, LowCoord(price, token, q), HighCoord(price, token, q),
                  Coord(token, p.sqrtPrice));
    ClaimsWithin(price, p, token, id);
    TimesMonotone(q.liquidity, 0.0, Pending(q, p.since[id], p.history, c) as real);
    CoveredAmount(PoolClaims(price, p, token), ProtocolOwed(p, token), Vault(p, token),
                  TokenAmount(token, amount, part0, part1, false));
    FloorAmountComputes(token, part0, part1, amount);
  }

  /** The instruction's case split computes nothing but those parts. */
  lemma PartsSuffice(price: int -> u128, tickIndex: int, s: u128, q: Position, liquidity: u128)
    requires IsPriceTable(price) && Coherent(price, s, tickIndex)
    requires MIN_TICK_INDEX <= q.tickLowerIndex < q.tickUpperIndex <= MAX_TICK_INDEX
    requires forall token :: var low, high := price(q.tickLowerIndex), price(q.tickUpperIndex);
               0 < TokenLow(token, low, high, s) <= TokenHigh(token, low, high, s) <= MAX_SQRT_PRICE_X64
               && AmountOf(TokenLow(token, low, high, s), TokenHigh(token, low, high, s), liquidity, token, false).Ok?
    ensures LiquidityTokenDeltas(price, tickIndex, s, q, liquidity, false).Ok?
  {
    hide GetAmountDeltaA, GetAmountDeltaB;
    var l, u := q.tickLowerIndex, q.tickUpperIndex;
    PriceOrder(price, l, u);
    PriceOrder(price, tickIndex + 1, l);
    PriceOrder(price, tickIndex + 1, u);
    PriceOrder(price, l, tickIndex);
    PriceOrder(price, u, tickIndex);
    var low, high := price(l), price(u);
    assert AmountOf(TokenLow(TokenA, low, high, s), TokenHigh(TokenA, low, high, s), liquidity, TokenA, false).Ok?;
    assert AmountOf(TokenLow(TokenB, low, high, s), TokenHigh(TokenB, low, high, s), liquidity, TokenB, false).Ok?;
  }

  lemma WithdrawalComputes(price: int -> u128, p: Pool, id: nat, amount: u128)
    requires Invariant(price, p) && id < |p.positions| && amount <= p.positions[id].liquidity
    ensures LiquidityTokenDeltas(price, p.tickIndex, p.sqrtPrice, p.positions[id], amount, false).Ok?
  {
    hide Solvent, AllCoupled, LiquidityBooked, AllQuiet, AmountOf, LiquidityTokenDeltas, TokenLow, TokenHigh,
        IsPriceTable;
    var low, high := price(p.positions[id].tickLowerIndex), price(p.positions[id].tickUpperIndex);
    forall token: Token
      ensures 0 < TokenLow(token, low, high, p.sqrtPrice) <= TokenHigh(token, low, high, p.sqrtPrice)
          <= MAX_SQRT_PRICE_X64
      ensures AmountOf(TokenLow(token, low, high, p.sqrtPrice), TokenHigh(token, low, high, p.sqrtPrice), amount,
                       token, false).Ok?
    {
      if token == TokenA { PartFits(price, p, id, amount, TokenA); } else { PartFits(price, p, id, amount, TokenB); }
    }
    PartsSuffice(price, p.tickIndex, p.sqrtPrice, p.positions[id], amount);
  }

  // ---------------------------------------------------------------- the bookkeeping admits it

  /** A tick's net liquidity stays within its signed width if this much is taken out at its lower or upper side. */
  predicate NetFits(tick: Tick, amount: nat, isUpper: bool) {
    tick.liquidityGross == amount || I128_MIN <= tick.liquidityNet + (if isUpper then amount else -(amount as int))
        <= I128_MAX
  }

  predicate NetsFit(p: Pool, q: Position, amount: nat) {
    NetFits(TickAt(p.ticks, q.tickLowerIndex), amount, false)
        && NetFits(TickAt(p.ticks, q.tickUpperIndex), amount, true)
  }

  /**
   * Removing liquidity that the position has underflows nowhere; only the net of a crowded tick could leave its range.
   */
  lemma RemovalCalculates(price: int -> u128, p: Pool, id: nat, amount: u128)
    requires Consistent(price, p) && id < |p.positions| && 0 < amount <= I128_MAX
    ensures var q, delta: int := p.positions[id], -(amount as int);
            CalculateModifyLiquidity(p, q, TickAt(p.ticks, q.tickLowerIndex), TickAt(p.ticks, q.tickUpperIndex),
                                     delta).Ok?
            <==> amount <= q.liquidity && NetsFit(p, q, amount)
  {
    hide AllCoupled, AllQuiet, IsPriceTable, GrowthsInside, Settled, Coherent;
    var q := p.positions[id];
    if amount <= q.liquidity {
      SumContains(p.positions, ActiveAt(p.tickIndex), id, |p.positions|);
      SumContains(p.positions, GrossAt(q.tickLowerIndex), id, |p.positions|);
      SumContains(p.positions, GrossAt(q.tickUpperIndex), id, |p.positions|);
    }
  }

  /** The nets fit whenever the gross liquidity of both ticks is itself a signed 128-bit number. */
  lemma NetsFitBelowHalf(price: int -> u128, p: Pool, id: nat, amount: u128)
    requires Consistent(price, p) && id < |p.positions| && amount <= p.positions[id].liquidity
    requires TickAt(p.ticks, p.positions[id].tickLowerIndex).liquidityGross <= I128_MAX
    requires TickAt(p.ticks, p.positions[id].tickUpperIndex).liquidityGross <= I128_MAX
    ensures NetsFit(p, p.positions[id], amount) && amount <= I128_MAX
  {
    hide AllCoupled, AllQuiet, IsPriceTable, Coherent;
    var q := p.positions[id];
    var ps := p.positions;
    TickAfterRemoval(ps, id, amount, q.tickLowerIndex);
    TickAfterRemoval(ps, id, amount, q.tickUpperIndex);
    SumContains(ps, GrossAt(q.tickLowerIndex), id, |ps|);
  }

  /** The gross and net of an end of the position once this much is taken out of it. */
  lemma TickAfterRemoval(ps: seq<Position>, id: nat, amount: u128, t: int)
    requires id < |ps| && amount <= ps[id].liquidity && ps[id].tickLowerIndex < ps[id].tickUpperIndex
    requires t == ps[id].tickLowerIndex || t == ps[id].tickUpperIndex
    ensures var gross := Sum(ps, GrossAt(t)) - amount;
            -gross <= Sum(ps, NetAt(t)) + (if t == ps[id].tickLowerIndex then -(amount as int) else amount) <= gross
  {
    var q' := ps[id].(liquidity := ps[id].liquidity - amount);
    SumUpdate(ps, GrossAt(t), id, q', |ps|);
    SumUpdate(ps, NetAt(t), id, q', |ps|);
    NetWithinGross(ps[id := q'], t, |ps|);
  }

  // ---------------------------------------------------------------- exactly when a withdrawal succeeds

  /**
   * In every pool of any run a withdrawal succeeds exactly when its amount is positive, within the position's liquidity
   * and a signed 128-bit number, the nets of both ticks stay within that width, the two tick arrays are the right ones,
   * the clock has not run backwards, and what the amount is worth in each token is at least the minimum asked for.
   * Nothing else can keep liquidity in the pool.
   */
  lemma WithdrawalSucceeds(price: int -> u128, p: Pool, id: nat, amount: u128, minA: u64, minB: u64, ls: int, us: int,
                           now: u64)
    requires Invariant(price, p) && id < |p.positions|
    ensures 0 < price(p.positions[id].tickLowerIndex) <= price(p.positions[id].tickUpperIndex) && 0 < p.sqrtPrice
    ensures var q := p.positions[id];
            StepDecreaseLiquidity(price, p, id, amount, minA, minB, ls, us, now).Ok?
            <==> && 0 < amount <= q.liquidity && amount <= I128_MAX
                 && NetsFit(p, q, amount) && p.rewardLastUpdated <= now
                 && GetTick(p, ls, q.tickLowerIndex).Ok? && GetTick(p, us, q.tickUpperIndex).Ok?
                 && minA <= PartAmount(price, p, q, amount, TokenA, false)
                 && minB <= PartAmount(price, p, q, amount, TokenB, false)
  {
    hide Invariant, CalculateModifyLiquidity, LiquidityTokenDeltas, RewardAccrual, StepDecreaseLiquidity, GetTick,
        Vault, NetFits, Consistent, PartAmount;
    SpacingPositive(price, p);
    InvariantIsConsistent(price, p);
    Priced(price, p);
    if 0 < amount <= I128_MAX && p.rewardLastUpdated <= now {
      RewardsAccrue(price, p, now);
      InvariantIsConsistent(price, AccrueRewards(p, now).value);
      RemovalCalculates(price, AccrueRewards(p, now).value, id, amount);
    }
    if 0 < amount <= p.positions[id].liquidity {
      PaymentComputes(price, p, id, amount, TokenA);
      PaymentComputes(price, p, id, amount, TokenB);
    }
    DecreaseSucceedsWhen(price, p, id, amount, minA, minB, ls, us, now);
  }

  lemma PaymentComputes(price: int -> u128, p: Pool, id: nat, amount: u128, token: Token)
    requires Invariant(price, p) && id < |p.positions| && amount <= p.positions[id].liquidity
    ensures 0 < price(p.positions[id].tickLowerIndex) <= price(p.positions[id].tickUpperIndex) && 0 < p.sqrtPrice
    ensures var deltas := LiquidityTokenDeltas(price, p.tickIndex, p.sqrtPrice, p.positions[id], amount, false);
            && deltas.Ok? && DeltaOf(deltas.value, token) <= Vault(p, token)
            && DeltaOf(deltas.value, token) == PartAmount(price, p, p.positions[id], amount, token, false)
  {
    hide AllCoupled, AllQuiet, LiquidityBooked, Solvent, LiquidityTokenDeltas, Vault, PartAmount;
    InvariantIsConsistent(price, p);
    WithdrawalComputes(price, p, id, amount);
    WithdrawalCovered(price, p, id, amount, token);
    DeltaIsPart(price, p, p.positions[id], amount, false, token);
  }

  /** The handler succeeds exactly when each of its parts does. */
  lemma DecreaseSucceedsWhen(price: int -> u128, p: Pool, id: nat, amount: u128, minA: u64, minB: u64, ls: int,
                             us: int, now: u64)
    requires p.tickSpacing > 0 && id < |p.positions|
    requires var q, accrued, delta: int := p.positions[id], AccrueRewards(p, now), -(amount as int);
             0 < amount <= I128_MAX && p.rewardLastUpdated <= now ==>
               (CalculateModifyLiquidity(accrued.value, q, TickAt(p.ticks, q.tickLowerIndex),
                                         TickAt(p.ticks, q.tickUpperIndex), delta).Ok?
                <==> amount <= q.liquidity && NetsFit(p, q, amount))
    requires 0 < amount <= p.positions[id].liquidity ==>
               var deltas := LiquidityTokenDeltas(price, p.tickIndex, p.sqrtPrice, p.positions[id], amount, false);
               && deltas.Ok?
               && DeltaOf(deltas.value, TokenA) <= Vault(p, TokenA)
               && DeltaOf(deltas.value, TokenB) <= Vault(p, TokenB)
    ensures var q := p.positions[id];
            var deltas := LiquidityTokenDeltas(price, p.tickIndex, p.sqrtPrice, q, amount, false);
            StepDecreaseLiquidity(price, p, id, amount, minA, minB, ls, us, now).Ok?
            <==> && 0 < amount <= q.liquidity && amount <= I128_MAX
                 && NetsFit(p, q, amount) && p.rewardLastUpdated <= now
                 && GetTick(p, ls, q.tickLowerIndex).Ok? && GetTick(p, us, q.tickUpperIndex).Ok?
                 && minA <= DeltaOf(deltas.value, TokenA) && minB <= DeltaOf(deltas.value, TokenB)
  {
    hide CalculateModifyLiquidity, LiquidityTokenDeltas, RewardAccrual, GrownReward, NetsFit;
  }
}
