/**
 * programs/whirlpool/src/manager/swap_manager.rs: the swap loop as a step function, its iteration, and the loop itself.
 */
module SwapManager {
  import opened Numbers
  import opened TickManager
  import opened TickSearch
  import opened Ledger
  import opened TM = TokenMath

  type FeeRate = x: int | 0 <= x <= 30000
  type ProtocolFeeRate = x: int | 0 <= x <= 2500

  // ---------------------------------------------------------------- the price of a tick

  /**
   * The contract of the tick-to-price function: strictly increasing over the tick range (and one tick beyond either
   * end), with the two price bounds at the two ends.
   */
  ghost predicate IsPriceTable(price: int -> u128) {
    && price(MIN_TICK_INDEX) == MIN_SQRT_PRICE_X64
    && price(MAX_TICK_INDEX) == MAX_SQRT_PRICE_X64
    && price(MIN_TICK_INDEX - 1) > 0
    && forall a: int, b: int :: MIN_TICK_INDEX - 1 <= a < b <= MAX_TICK_INDEX + 1 ==> Below(price, a, b)
  }

  predicate Below(price: int -> u128, a: int, b: int) {
    price(a) < price(b)
  }

  /** One price table: a unit apart, but for the last step. */
  function UnitPrice(t: int): u128 {
    if t < MIN_TICK_INDEX then MIN_SQRT_PRICE_X64 - 1
    else if t < MAX_TICK_INDEX then MIN_SQRT_PRICE_X64 + (t - MIN_TICK_INDEX)
    else if t == MAX_TICK_INDEX then MAX_SQRT_PRICE_X64 else MAX_SQRT_PRICE_X64 + 1
  }

  lemma UnitPriceIsTable()
    ensures IsPriceTable(UnitPrice)
  {
  }

  /** The contract can be met, so what is proved of every price table is not empty. */
  lemma PriceTablesExist()
    ensures exists price: int -> u128 :: IsPriceTable(price)
  {
    UnitPriceIsTable();
  }

  /** The greatest tick at or below t whose price is at most s. */
  function FloorTick(price: int -> u128, s: u128, t: int): int
    decreases t - MIN_TICK_INDEX
  {
    if t <= MIN_TICK_INDEX || price(t) <= s then t else FloorTick(price, s, t - 1)
  }

  function TickIndexFromSqrtPrice(price: int -> u128, s: u128): int {
    FloorTick(price, s, MAX_TICK_INDEX)
  }

  lemma {:induction false} FloorTickIsFloor(price: int -> u128, s: u128, t: int)
    requires IsPriceTable(price) && MIN_SQRT_PRICE_X64 <= s
    requires MIN_TICK_INDEX <= t <= MAX_TICK_INDEX && s < price(t + 1)
    ensures var r := FloorTick(price, s, t);
            MIN_TICK_INDEX <= r <= t && price(r) <= s < price(r + 1)
    decreases t - MIN_TICK_INDEX
  {
    if t > MIN_TICK_INDEX && price(t) > s {
      FloorTickIsFloor(price, s, t - 1);
    }
  }

  /** The tick of a price inverts the price of a tick, rounding down. */
  lemma TickOfPriceIsFloorInverse(price: int -> u128, s: u128)
    requires IsPriceTable(price) && MIN_SQRT_PRICE_X64 <= s <= MAX_SQRT_PRICE_X64
    ensures var t := TickIndexFromSqrtPrice(price, s);
            MIN_TICK_INDEX <= t <= MAX_TICK_INDEX && price(t) <= s < price(t + 1)
    ensures forall t: int :: MIN_TICK_INDEX <= t <= MAX_TICK_INDEX ==>
        (price(t) <= s <==> t <= TickIndexFromSqrtPrice(price, s))
  {
    PriceOrder(price, MAX_TICK_INDEX, MAX_TICK_INDEX + 1);
    FloorTickIsFloor(price, s, MAX_TICK_INDEX);
    var r := TickIndexFromSqrtPrice(price, s);
    forall t: int | MIN_TICK_INDEX <= t <= MAX_TICK_INDEX
      ensures price(t) <= s <==> t <= r
    {
      PriceOrder(price, t, r);
      PriceOrder(price, t, r + 1);
    }
  }

  lemma PriceOrder(price: int -> u128, a: int, b: int)
    requires IsPriceTable(price)
    requires MIN_TICK_INDEX - 1 <= a <= MAX_TICK_INDEX + 1 && MIN_TICK_INDEX - 1 <= b <= MAX_TICK_INDEX + 1
    ensures a < b <==> price(a) < price(b)
    ensures a <= b <==> price(a) <= price(b)
  {
    assert a < b ==> Below(price, a, b);
    assert b < a ==> Below(price, b, a);
  }

  // ---------------------------------------------------------------- one iteration

  datatype SwapEnv = SwapEnv(
    price: int -> u128,
    tickSpacing: nat,
    feeRate: FeeRate,
    protocolFeeRate: ProtocolFeeRate,
    starts: seq<int>,
    limit: u128,
    isInput: bool,
    aToB: bool,
    otherFeeGrowth: u128,
    rewardInfos: RewardInfos)

  /**
   * The loop's variables. The last three are the record the proofs are about: every growth accrual, every step's
   * computation and every tick crossed, in order.
   */
  datatype SwapState = SwapState(
    amountRemaining: u64,
    amountCalculated: u64,
    sqrtPrice: u128,
    tickIndex: int,
    liquidity: u128,
    protocolFee: u64,
    arrayIndex: nat,
    feeGrowthInput: u128,
    ticks: Ticks,
    history: seq<Accrual>,
    steps: seq<SwapStepComputation>,
    crossed: seq<int>)

  function InputChannel(aToB: bool): Channel { if aToB then FeeA else FeeB }

  function GrowthsOf(e: SwapEnv, feeGrowthInput: u128): Growths {
    if e.aToB then Growths(feeGrowthInput, e.otherFeeGrowth, e.rewardInfos)
    else Growths(e.otherFeeGrowth, feeGrowthInput, e.rewardInfos)
  }

  function CalculateProtocolFee(fee: u64, rate: ProtocolFeeRate): u64 {
    MulIsProduct(fee, rate);
    MulMono(rate, PROTOCOL_FEE_RATE_MUL_VALUE, fee);
    Mul(fee, rate) / PROTOCOL_FEE_RATE_MUL_VALUE
  }

  /** The growth per unit of liquidity that the liquidity providers' part of a fee amounts to. */
  function GrowthDelta(fee: u64, rate: ProtocolFeeRate, liquidity: u128): u128 {
    if liquidity == 0 then 0
    else
      var delta := CalculateProtocolFee(fee, rate);
      MulIsProduct(fee, rate);
      MulMono(rate, PROTOCOL_FEE_RATE_MUL_VALUE, fee);
      QuotIsQuotient((fee - delta) * TWO_64, liquidity);
      FloorGalois((fee - delta) * TWO_64, liquidity, TWO_128);
      MulMono(1, liquidity, TWO_128);
      Quot((fee - delta) * TWO_64, liquidity)
  }

  function CalculateFees(fee: u64, rate: ProtocolFeeRate, liquidity: u128, protocolFee: u64, growth: u128): (u64,
      u128) {
    var nextProtocolFee := if rate > 0 then Wrap64(protocolFee + CalculateProtocolFee(fee, rate)) else protocolFee;
    var nextGrowth := if liquidity > 0 then Wrap128(growth + GrowthDelta(fee, rate, liquidity)) else growth;
    (nextProtocolFee, nextGrowth)
  }

  /** The protocol's share is the rate's part of the fee, rounded down. */
  lemma ProtocolShareIsFloor(fee: u64, rate: ProtocolFeeRate)
    ensures var share := CalculateProtocolFee(fee, rate);
            share <= fee && share * 10000 <= fee * rate < (share + 1) * 10000
  {
    MulIsProduct(fee, rate);
    MulMono(rate, 10000, fee);
  }

  /**
   * What providers get: growth per unit of liquidity is the fee less the protocol's share, in units of 2^-64 and
   * rounded down; none without liquidity.
   */
  lemma GrowthIsFloor(fee: u64, rate: ProtocolFeeRate, liquidity: u128)
    ensures var kept, growth := fee - CalculateProtocolFee(fee, rate), GrowthDelta(fee, rate, liquidity);
            if liquidity == 0 then growth == 0
            else growth * liquidity <= kept * 0x1_0000_0000_0000_0000 < (growth + 1) * liquidity
  {
    ProtocolShareIsFloor(fee, rate);
    if liquidity > 0 {
      var n, growth := (fee - CalculateProtocolFee(fee, rate)) * TWO_64, GrowthDelta(fee, rate, liquidity);
      QuotIsQuotient(n, liquidity);
      FloorGalois(n, liquidity, growth);
      FloorGalois(n, liquidity, growth + 1);
    }
  }

  /** The running totals after a step's fee: neither share is dropped, whatever its rate or the liquidity. */
  lemma FeesAreShared(fee: u64, rate: ProtocolFeeRate, liquidity: u128, protocolFee: u64, growth: u128)
    ensures CalculateFees(fee, rate, liquidity, protocolFee, growth)
         == (Wrap64(protocolFee + CalculateProtocolFee(fee, rate)), Wrap128(growth + GrowthDelta(fee, rate, liquidity)))
  {
    if rate == 0 {
      ProtocolShareIsFloor(fee, rate);
      SmallMod(protocolFee, TWO_64);
    }
    if liquidity == 0 {
      WrapSmall(growth);
    }
  }

  function Target(e: SwapEnv, nextTickPrice: u128): u128 {
    if e.aToB then (if e.limit > nextTickPrice then e.limit else nextTickPrice)
    else (if e.limit < nextTickPrice then e.limit else nextTickPrice)
  }

  function NextAmounts(isInput: bool, remaining: u64, calculated: u64, c: SwapStepComputation): Result<(u64, u64)> {
    if isInput then
      if remaining < c.amountIn || remaining - c.amountIn < c.feeAmount then Err(AmountRemainingOverflow)
      else if calculated + c.amountOut >= TWO_64 then Err(AmountCalcOverflow)
      else Ok((remaining - c.amountIn - c.feeAmount, calculated + c.amountOut))
    else
      if remaining < c.amountOut then Err(AmountRemainingOverflow)
      else if calculated + c.amountIn + c.feeAmount >= TWO_64 then Err(AmountCalcOverflow)
      else Ok((remaining - c.amountOut, calculated + c.amountIn + c.feeAmount))
  }

  /** SwapTickSequence::get_tick on the given array finds an initialised tick. */
  predicate HoldsInitialized(ticks: Ticks, starts: seq<int>, at: nat, index: int, spacing: nat)
    requires spacing > 0
  {
    at < |starts| && InSearchRange(starts[at], index, spacing, false) && IsUsableTick(index, spacing)
    && TickAt(ticks, index).initialized
  }

  /** Liquidity after crossing: minus the net going left, plus the net going right. */
  function CrossLiquidity(liquidity: u128, net: i128, aToB: bool): Result<u128> {
    if aToB && net == I128_MIN then Err(ArithmeticPanic)
    else
      var signed: int := if aToB then -net else net;
      AddLiquidityDelta(liquidity, signed)
  }

  function Cross(e: SwapEnv, st: SwapState, index: int): Result<SwapState> {
    var tick := TickAt(st.ticks, index);
    var liquidity :- CrossLiquidity(st.liquidity, tick.liquidityNet, e.aToB);
    Ok(st.(liquidity := liquidity,
           ticks := st.ticks[index := CrossUpdate(tick, GrowthsOf(e, st.feeGrowthInput))],
           crossed := st.crossed + [index]))
  }

  function NextArrayIndex(e: SwapEnv, at: nat, index: int): nat
    requires e.tickSpacing > 0 && at < |e.starts|
  {
    var offset := TickOffset(e.starts[at], index, e.tickSpacing);
    if (e.aToB && offset == 0) || (!e.aToB && offset == TICK_ARRAY_SIZE - 1) then at + 1 else at
  }

  function Arrive(e: SwapEnv, st: SwapState, at: nat, index: int): Result<SwapState>
    requires e.tickSpacing > 0
  {
    var st1 :- if HoldsInitialized(st.ticks, e.starts, at, index, e.tickSpacing) then Cross(e, st, index) else Ok(st);
    if at >= |e.starts| then Err(TickArrayIndexOutofBounds)
    else Ok(st1.(arrayIndex := NextArrayIndex(e, at, index), tickIndex := if e.aToB then index - 1 else index))
  }

  /** The state once a step's amounts and fees are booked, before the price moves. */
  function Book(e: SwapEnv, st: SwapState, c: SwapStepComputation): Result<SwapState> {
    var amounts :- NextAmounts(e.isInput, st.amountRemaining, st.amountCalculated, c);
    var fees := CalculateFees(c.feeAmount, e.protocolFeeRate, st.liquidity, st.protocolFee, st.feeGrowthInput);
    Ok(st.(amountRemaining := amounts.0,
           amountCalculated := amounts.1,
           protocolFee := fees.0,
           feeGrowthInput := fees.1,
           history := st.history
                      + [Accrual(InputChannel(e.aToB), st.tickIndex,
                                 GrowthDelta(c.feeAmount, e.protocolFeeRate, st.liquidity))],
           steps := st.steps + [c]))
  }

  function MovePrice(e: SwapEnv, st: SwapState, next: u128, at: nat, index: int): Result<SwapState>
    requires e.tickSpacing > 0
  {
    var st1 :- if next == e.price(index) then Arrive(e, st, at, index)
               else if next != st.sqrtPrice then Ok(st.(tickIndex := TickIndexFromSqrtPrice(e.price, next)))
               else Ok(st);
    Ok(st1.(sqrtPrice := next))
  }

  function Search(e: SwapEnv, st: SwapState): Result<(nat, int)>
    requires e.tickSpacing > 0
  {
    NextInitialized(st.ticks, e.starts, st.tickIndex, e.tickSpacing, e.aToB, st.arrayIndex)
  }

  function Compute(e: SwapEnv, st: SwapState, index: int): Result<SwapStepComputation> {
    ComputeSwap(st.amountRemaining, e.feeRate, st.liquidity, st.sqrtPrice, Target(e, e.price(index)), e.isInput, e.aToB)
  }

  function SwapStep(e: SwapEnv, st: SwapState): Result<SwapState>
    requires e.tickSpacing > 0
  {
    var found :- Search(e, st);
    var c :- Compute(e, st, found.1);
    var booked :- Book(e, st, c);
    MovePrice(e, booked, c.nextPrice, found.0, found.1)
  }

  predicate Running(e: SwapEnv, st: SwapState) {
    st.amountRemaining > 0 && e.limit != st.sqrtPrice
  }

  // ---------------------------------------------------------------- progress

  /** The price and the tick agree. The upper bound is attained only where a leftward arrival left the price. */
  predicate Coherent(price: int -> u128, s: u128, t: int) {
    && MIN_SQRT_PRICE_X64 <= s <= MAX_SQRT_PRICE_X64
    && MIN_TICK_INDEX - 1 <= t <= MAX_TICK_INDEX
    && price(t) <= s <= price(t + 1)
  }

  ghost predicate GoodEnv(e: SwapEnv) {
    && e.tickSpacing > 0
    && IsPriceTable(e.price)
    && AlignedStarts(e.starts, e.tickSpacing)
    && MIN_SQRT_PRICE_X64 <= e.limit <= MAX_SQRT_PRICE_X64
  }

  /** What every loop head satisfies. */
  ghost predicate Ready(e: SwapEnv, st: SwapState) {
    && GoodEnv(e)
    && InitializedAreUsable(st.ticks, e.tickSpacing)
    && Coherent(e.price, st.sqrtPrice, st.tickIndex)
    && (if e.aToB then e.limit <= st.sqrtPrice else st.sqrtPrice <= e.limit)
  }

  /** The region of one step: the next tick, and no initialised tick strictly on the way to it. */
  ghost predicate Region(e: SwapEnv, ticks: Ticks, t: int, next: int) {
    && MIN_TICK_INDEX <= next <= MAX_TICK_INDEX
    && (if e.aToB then next <= t && NoneBetween(ticks, next, t) else t < next && NoneBetween(ticks, t, next - 1))
  }

  lemma SearchRegion(e: SwapEnv, st: SwapState)
    requires Ready(e, st) && Running(e, st) && Search(e, st).Ok?
    ensures var (at, next) := Search(e, st).value;
            && Region(e, st.ticks, st.tickIndex, next)
            && at < |e.starts|
            && (TickAt(st.ticks, next).initialized ==> HoldsInitialized(st.ticks, e.starts, at, next, e.tickSpacing))
  {
    if e.aToB {
      if st.tickIndex < MIN_TICK_INDEX {
        PriceOrder(e.price, st.tickIndex + 1, MIN_TICK_INDEX);
        assert false;
      }
      SearchLeft(st.ticks, e.starts, st.tickIndex, e.tickSpacing, st.arrayIndex);
    } else {
      if st.tickIndex >= MAX_TICK_INDEX {
        PriceOrder(e.price, MAX_TICK_INDEX, st.tickIndex);
        assert false;
      }
      SearchRight(st.ticks, e.starts, st.tickIndex, e.tickSpacing, st.arrayIndex);
    }
  }
}
