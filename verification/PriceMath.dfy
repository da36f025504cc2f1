/**
 * sdk/src/utils/position-util.ts and sdk/src/utils/swap-utils.ts: the Q64.64 price formulas over unbounded integers.
 */
module PriceMath {
  import opened Numbers

  datatype SwapDirection = AtoB | BtoA
  datatype AmountSpecified = Input | Output
  datatype PositionStatus = BelowRange | InRange | AboveRange

  function GetPositionStatus(tickCurrent: int, tickLower: int, tickUpper: int): PositionStatus {
    if tickCurrent < tickLower then BelowRange
    else if tickCurrent < tickUpper then InRange
    else AboveRange
  }

  function Min(x: nat, y: nat): nat { if x < y then x else y }
  function Max(x: nat, y: nat): nat { if x < y then y else x }

  function GetTokenAFromLiquidity(liquidity: nat, price0: nat, price1: nat, roundUp: bool): nat
    requires price0 > 0 && price1 > 0
  {
    var lower, upper := Min(price0, price1), Max(price0, price1);
    MulPositive(upper, lower);
    MulNonNegative(liquidity, upper - lower);
    DivRoundIf(liquidity * (upper - lower) * TWO_64, upper * lower, roundUp)
  }

  function GetTokenBFromLiquidity(liquidity: nat, price0: nat, price1: nat, roundUp: bool): nat {
    var lower, upper := Min(price0, price1), Max(price0, price1);
    MulNonNegative(liquidity, upper - lower);
    DivRoundIf(liquidity * (upper - lower), TWO_64, roundUp)
  }

  function GetLiquidityFromTokenA(amount: nat, lower: nat, upper: nat, roundUp: bool): nat
    requires 0 < lower < upper
  {
    MulNonNegative(amount, lower);
    MulNonNegative(amount * lower, upper);
    DivRoundIf((amount * lower * upper) / (upper - lower), TWO_64, roundUp)
  }

  function GetLiquidityFromTokenB(amount: nat, lower: nat, upper: nat, roundUp: bool): nat
    requires lower < upper
  {
    DivRoundIf(amount * TWO_64, upper - lower, roundUp)
  }

  function GetLowerSqrtPriceFromTokenA(amount: nat, liquidity: nat, price: nat): nat
    requires liquidity > 0
  {
    MulNonNegative(liquidity, price);
    MulNonNegative(amount, price);
    CeilDiv(liquidity * price * TWO_64, liquidity * TWO_64 + amount * price)
  }

  function GetUpperSqrtPriceFromTokenA(amount: nat, liquidity: nat, price: nat): nat
    requires amount * price < liquidity * TWO_64
  {
    MulNonNegative(liquidity, price);
    CeilDiv(liquidity * price * TWO_64, liquidity * TWO_64 - amount * price)
  }

  function GetLowerSqrtPriceFromTokenB(amount: nat, liquidity: nat, price: nat): int
    requires liquidity > 0
  {
    price - CeilDiv(amount * TWO_64, liquidity)
  }

  function GetUpperSqrtPriceFromTokenB(amount: nat, liquidity: nat, price: nat): nat
    requires liquidity > 0
  {
    price + (amount * TWO_64) / liquidity
  }

  /** Whether the fixed side of a swap is token A. */
  predicate FixesA(specified: AmountSpecified, direction: SwapDirection) {
    specified.Input? == direction.AtoB?
  }

  function GetAmountFixedDelta(current: nat, target: nat, liquidity: nat,
                               specified: AmountSpecified, direction: SwapDirection): nat
    requires current > 0 && target > 0
  {
    if FixesA(specified, direction) then
      GetTokenAFromLiquidity(liquidity, current, target, specified.Input?)
    else
      GetTokenBFromLiquidity(liquidity, current, target, specified.Input?)
  }

  function GetAmountUnfixedDelta(current: nat, target: nat, liquidity: nat,
                                 specified: AmountSpecified, direction: SwapDirection): nat
    requires current > 0 && target > 0
  {
    if FixesA(specified, direction) then
      GetTokenBFromLiquidity(liquidity, current, target, specified.Output?)
    else
      GetTokenAFromLiquidity(liquidity, current, target, specified.Output?)
  }

  /** The denominator of the price formula is positive. Only taking out A can violate it. */
  predicate HasNextPrice(price: nat, liquidity: nat, amount: nat,
                         specified: AmountSpecified, direction: SwapDirection)
  {
    liquidity > 0 && (specified.Output? && direction.BtoA? ==> amount * price < liquidity * TWO_64)
  }

  function GetNextSqrtPrice(price: nat, liquidity: nat, amount: nat,
                            specified: AmountSpecified, direction: SwapDirection): int
    requires HasNextPrice(price, liquidity, amount, specified, direction)
  {
    if specified.Input? && direction.AtoB? then GetLowerSqrtPriceFromTokenA(amount, liquidity, price)
    else if specified.Output? && direction.BtoA? then GetUpperSqrtPriceFromTokenA(amount, liquidity, price)
    else if specified.Input? && direction.BtoA? then GetUpperSqrtPriceFromTokenB(amount, liquidity, price)
    else GetLowerSqrtPriceFromTokenB(amount, liquidity, price)
  }

  // ---------------------------------------------------------------- nonlinear steps

  lemma MulNonNegative(x: nat, y: nat)
    ensures x * y >= 0
  {
  }

  lemma MulPositive(x: nat, y: nat)
    requires x > 0 && y > 0
    ensures x * y > 0
  {
  }

  // ---------------------------------------------------------------- optimality of the next price

  /** Clearing the denominators of  liquidity * (price - q) / (price * q) <= amount. */
  lemma ClearDenominators(price: int, liquidity: int, amount: int, q: int)
    ensures q * (liquidity * TWO_64 + amount * price) - liquidity * price * TWO_64
         == amount * (price * q) - liquidity * (price - q) * TWO_64
  {
    assert q * (liquidity * TWO_64 + amount * price) == q * liquidity * TWO_64 + q * (amount * price);
    assert q * (amount * price) == amount * (price * q);
    assert liquidity * (price - q) == liquidity * price - q * liquidity;
  }

  lemma OptimalInputA(price: nat, liquidity: nat, amount: nat, q: nat)
    requires liquidity > 0 && 0 < q <= price
    ensures GetTokenAFromLiquidity(liquidity, price, q, true) <= amount
            <==> GetLowerSqrtPriceFromTokenA(amount, liquidity, price) <= q
  {
    MulPositive(price, q);
    MulNonNegative(liquidity, price - q);
    MulNonNegative(liquidity, price);
    MulNonNegative(amount, price);
    var n, m, d := liquidity * (price - q) * TWO_64, liquidity * price * TWO_64, liquidity * TWO_64 + amount * price;
    CeilGalois(n, price * q, amount);
    CeilGalois(m, d, q);
    ClearDenominators(price, liquidity, amount, q);
  }

  lemma ClearDenominatorsOut(price: int, liquidity: int, amount: int, q: int)
    ensures q * (liquidity * TWO_64 - amount * price) - liquidity * price * TWO_64
         == liquidity * (q - price) * TWO_64 - amount * (q * price)
  {
    assert q * (liquidity * TWO_64 - amount * price) == q * liquidity * TWO_64 - q * (amount * price);
    assert q * (amount * price) == amount * (q * price);
    assert liquidity * (q - price) == q * liquidity - liquidity * price;
  }

  lemma OptimalOutputA(price: nat, liquidity: nat, amount: nat, q: nat)
    requires liquidity > 0 && 0 < price <= q
    ensures GetTokenAFromLiquidity(liquidity, price, q, false) >= amount
            <==> amount * price < liquidity * TWO_64
                 && GetUpperSqrtPriceFromTokenA(amount, liquidity, price) <= q
  {
    MulPositive(q, price);
    MulPositive(liquidity, price);
    MulNonNegative(liquidity, q - price);
    var n, m, d := liquidity * (q - price) * TWO_64, liquidity * price * TWO_64, liquidity * TWO_64 - amount * price;
    FloorGalois(n, q * price, amount);
    ClearDenominatorsOut(price, liquidity, amount, q);
    assert q * d - m == n - amount * (q * price);
    if d > 0 {
      CeilGalois(m, d, q);
    } else {
      MulMono(d, 0, q);
      assert q * d == d * q;
    }
  }

  lemma OptimalInputB(price: nat, liquidity: nat, amount: nat, q: nat)
    requires liquidity > 0 && price <= q
    ensures GetTokenBFromLiquidity(liquidity, price, q, true) <= amount
            <==> q <= GetUpperSqrtPriceFromTokenB(amount, liquidity, price)
  {
    MulNonNegative(liquidity, q - price);
    CeilGalois(liquidity * (q - price), TWO_64, amount);
    FloorGalois(amount * TWO_64, liquidity, q - price);
  }

  lemma OptimalOutputB(price: nat, liquidity: nat, amount: nat, q: nat)
    requires liquidity > 0 && q <= price
    ensures GetTokenBFromLiquidity(liquidity, price, q, false) >= amount
            <==> q <= GetLowerSqrtPriceFromTokenB(amount, liquidity, price)
  {
    MulNonNegative(liquidity, price - q);
    FloorGalois(liquidity * (price - q), TWO_64, amount);
    CeilGalois(amount * TWO_64, liquidity, price - q);
  }

  /** q lies on the side of price that the trade moves to. */
  predicate Ahead(price: int, q: int, direction: SwapDirection) {
    if direction.AtoB? then q <= price else price <= q
  }

  /**
   * The next price is exactly optimal in all four quadrants. Over every candidate price q in the trade direction,
   * a specified input pays for q exactly when q is no farther than the next price, and a specified output is
   * obtained at q exactly when q is at least as far. Where the output formula has no positive denominator
   * no price at all yields the output.
   */
  lemma NextPriceIsOptimal(price: nat, liquidity: nat, amount: nat, q: nat,
                           specified: AmountSpecified, direction: SwapDirection)
    requires liquidity > 0 && price > 0 && q > 0 && Ahead(price, q, direction)
    ensures specified.Input? ==>
              (GetAmountFixedDelta(price, q, liquidity, specified, direction) <= amount
               <==> Ahead(q, GetNextSqrtPrice(price, liquidity, amount, specified, direction), direction))
    ensures specified.Output? ==>
              (GetAmountFixedDelta(price, q, liquidity, specified, direction) >= amount
               <==> HasNextPrice(price, liquidity, amount, specified, direction)
                    && Ahead(GetNextSqrtPrice(price, liquidity, amount, specified, direction), q, direction))
  {
    match (specified, direction)
    case (Input, AtoB) => OptimalInputA(price, liquidity, amount, q);
    case (Output, BtoA) => OptimalOutputA(price, liquidity, amount, q);
    case (Input, BtoA) => OptimalInputB(price, liquidity, amount, q);
    case (Output, AtoB) => OptimalOutputB(price, liquidity, amount, q);
  }

  lemma LowerPriceFromAIsAhead(price: nat, liquidity: nat, amount: nat)
    requires liquidity > 0
    ensures GetLowerSqrtPriceFromTokenA(amount, liquidity, price) <= price
  {
    MulNonNegative(amount, price);
    MulNonNegative(liquidity, price);
    var m, d := liquidity * price * TWO_64, liquidity * TWO_64 + amount * price;
    CeilGalois(m, d, price);
    MulMono(liquidity * TWO_64, d, price);
    assert price * d == d * price;
    assert m == liquidity * TWO_64 * price;
  }

  lemma UpperPriceFromAIsAhead(price: nat, liquidity: nat, amount: nat)
    requires price > 0 && amount * price < liquidity * TWO_64
    ensures price <= GetUpperSqrtPriceFromTokenA(amount, liquidity, price)
  {
    MulNonNegative(amount, price);
    MulNonNegative(liquidity, price);
    var lq, m, d := liquidity * TWO_64, liquidity * price * TWO_64, liquidity * TWO_64 - amount * price;
    CeilGalois(m, d, price - 1);
    MulMono(d, lq, price - 1);
    assert m == lq * price;
    assert lq * (price - 1) == lq * price - lq;
    assert (price - 1) * d == d * (price - 1);
  }

  /** The next price never moves against the trade. */
  lemma NextPriceMovesAhead(price: nat, liquidity: nat, amount: nat,
                            specified: AmountSpecified, direction: SwapDirection)
    requires price > 0 && HasNextPrice(price, liquidity, amount, specified, direction)
    ensures Ahead(price, GetNextSqrtPrice(price, liquidity, amount, specified, direction), direction)
  {
    match (specified, direction)
    case (Input, AtoB) => LowerPriceFromAIsAhead(price, liquidity, amount);
    case (Output, BtoA) => UpperPriceFromAIsAhead(price, liquidity, amount);
    case (Input, BtoA) =>
    case (Output, AtoB) =>
  }

  // ---------------------------------------------------------------- splitting a trade

  /** Scaling numerator and denominator alike changes neither rounding. */
  lemma ScaleQuotient(n: nat, d: nat, k: nat)
    requires d > 0 && k > 0
    ensures d * k > 0 && n * k >= 0
    ensures CeilDiv(n * k, d * k) == CeilDiv(n, d) && (n * k) / (d * k) == n / d
  {
    MulPositive(d, k);
    MulNonNegative(n, k);
    var c, f := CeilDiv(n, d), n / d;
    CeilGalois(n, d, c); CeilGalois(n, d, c - 1);
    CeilGalois(n * k, d * k, c); CeilGalois(n * k, d * k, c - 1);
    ScaleInequality(n, c * d, k); ScaleInequality(n, (c - 1) * d, k);
    FloorGalois(n, d, f); FloorGalois(n, d, f + 1);
    FloorGalois(n * k, d * k, f); FloorGalois(n * k, d * k, f + 1);
    ScaleInequality(f * d, n, k); ScaleInequality((f + 1) * d, n, k);
    Reassociate(c, d, k); Reassociate(c - 1, d, k); Reassociate(f, d, k); Reassociate(f + 1, d, k);
  }

  lemma Reassociate(x: int, y: int, z: int)
    ensures x * (y * z) == x * y * z
  {
  }

  lemma ScaleInequality(x: int, y: int, k: int)
    requires k > 0
    ensures x <= y <==> x * k <= y * k
  {
    if x <= y { MulMono(x, y, k); } else { MulMono(y + 1, x, k); assert (y + 1) * k == y * k + k; }
  }

  lemma SplitTokenB(liquidity: nat, a: nat, b: nat, c: nat)
    requires a <= b <= c
    ensures var up := GetTokenBFromLiquidity(liquidity, a, b, true) + GetTokenBFromLiquidity(liquidity, b, c, true);
            var whole := GetTokenBFromLiquidity(liquidity, a, c, true);
            whole <= up <= whole + 1
    ensures var down := GetTokenBFromLiquidity(liquidity, a, b, false) + GetTokenBFromLiquidity(liquidity, b, c, false);
            var whole := GetTokenBFromLiquidity(liquidity, a, c, false);
            whole - 1 <= down <= whole
  {
    MulNonNegative(liquidity, b - a);
    MulNonNegative(liquidity, c - b);
    Distribute(b - a, c - b, liquidity);
    SplitCeil(liquidity * (b - a), liquidity * (c - b), TWO_64);
    SplitFloor(liquidity * (b - a), liquidity * (c - b), TWO_64);
  }

  /** The amount of A between lower and upper over the denominator d that a third price k enlarges it to. */
  lemma TokenAOverCommonDenominator(liquidity: nat, lower: nat, upper: nat, k: nat, d: nat)
    requires 0 < lower <= upper && 0 < k && d == upper * lower * k
    ensures d > 0 && liquidity * (upper - lower) * TWO_64 * k >= 0
    ensures GetTokenAFromLiquidity(liquidity, lower, upper, true)
        == CeilDiv(liquidity * (upper - lower) * TWO_64 * k, d)
    ensures GetTokenAFromLiquidity(liquidity, lower, upper, false) == (liquidity * (upper - lower) * TWO_64 * k) / d
  {
    MulPositive(upper, lower);
    MulNonNegative(liquidity, upper - lower);
    ScaleQuotient(liquidity * (upper - lower) * TWO_64, upper * lower, k);
  }

  lemma Commute(a: nat, b: nat, c: nat)
    ensures b * a * c == c * b * a == c * a * b
    ensures b * a * c >= 0
  {
    Reassociate(c, b, a);
    Reassociate(c, a, b);
    MulNonNegative(b, a);
  }

  lemma SplitNumerators(liquidity: int, a: int, b: int, c: int)
    ensures liquidity * (b - a) * TWO_64 * c + liquidity * (c - b) * TWO_64 * a == liquidity * (c - a) * TWO_64 * b
  {
    assert liquidity * (b - a) * TWO_64 * c == TWO_64 * (liquidity * (b * c - a * c));
    assert liquidity * (c - b) * TWO_64 * a == TWO_64 * (liquidity * (a * c - a * b));
    assert liquidity * (c - a) * TWO_64 * b == TWO_64 * (liquidity * (b * c - a * b));
    assert liquidity * (b * c - a * c) + liquidity * (a * c - a * b) == liquidity * (b * c - a * b);
  }

  lemma SplitTokenA(liquidity: nat, a: nat, b: nat, c: nat)
    requires 0 < a <= b <= c
    ensures var up := GetTokenAFromLiquidity(liquidity, a, b, true) + GetTokenAFromLiquidity(liquidity, b, c, true);
            var whole := GetTokenAFromLiquidity(liquidity, a, c, true);
            whole <= up <= whole + 1
    ensures var down := GetTokenAFromLiquidity(liquidity, a, b, false) + GetTokenAFromLiquidity(liquidity, b, c, false);
            var whole := GetTokenAFromLiquidity(liquidity, a, c, false);
            whole - 1 <= down <= whole
  {
    Commute(a, b, c);
    var d := b * a * c;
    TokenAOverCommonDenominator(liquidity, a, b, c, d);
    TokenAOverCommonDenominator(liquidity, b, c, a, d);
    TokenAOverCommonDenominator(liquidity, a, c, b, d);
    SplitNumerators(liquidity, a, b, c);
    var n1, n2 := liquidity * (b - a) * TWO_64 * c, liquidity * (c - b) * TWO_64 * a;
    SplitCeil(n1, n2, d);
    SplitFloor(n1, n2, d);
  }

  /**
   * Moving the price from `low` up to `high` with token B and back down with token A, stopping at any `mid` on
   * either leg, never leaves the trader with more of either token: what a leg pays out, in however many steps,
   * is at most what the opposite leg charged.
   */
  lemma NoProfitThereAndBack(liquidity: nat, low: nat, mid: nat, high: nat)
    requires 0 < low <= mid <= high
    ensures GetAmountUnfixedDelta(high, mid, liquidity, Input, AtoB)
        + GetAmountUnfixedDelta(mid, low, liquidity, Input, AtoB)
            <= GetAmountFixedDelta(low, high, liquidity, Input, BtoA)
            <= GetAmountFixedDelta(low, mid, liquidity, Input, BtoA)
                + GetAmountFixedDelta(mid, high, liquidity, Input, BtoA)
    ensures GetAmountUnfixedDelta(low, mid, liquidity, Input, BtoA)
        + GetAmountUnfixedDelta(mid, high, liquidity, Input, BtoA)
            <= GetAmountFixedDelta(high, low, liquidity, Input, AtoB)
            <= GetAmountFixedDelta(high, mid, liquidity, Input, AtoB)
                + GetAmountFixedDelta(mid, low, liquidity, Input, AtoB)
  {
    SplitTokenA(liquidity, low, mid, high);
    SplitTokenB(liquidity, low, mid, high);
  }

  // ---------------------------------------------------------------- liquidity round trips

  /** Liquidity bought with an amount of B, rounded down, is the largest liquidity that the amount pays for. */
  lemma LiquidityFromTokenBIsLargest(amount: nat, lower: nat, upper: nat, liquidity: nat)
    requires lower < upper
    ensures liquidity <= GetLiquidityFromTokenB(amount, lower, upper, false)
            <==> GetTokenBFromLiquidity(liquidity, lower, upper, true) <= amount
  {
    MulNonNegative(liquidity, upper - lower);
    FloorGalois(amount * TWO_64, upper - lower, liquidity);
    CeilGalois(liquidity * (upper - lower), TWO_64, amount);
  }

  /** The same for an amount of A, although two roundings lie between. */
  lemma LiquidityFromTokenAIsLargest(amount: nat, lower: nat, upper: nat, liquidity: nat)
    requires 0 < lower < upper
    ensures liquidity <= GetLiquidityFromTokenA(amount, lower, upper, false)
            <==> GetTokenAFromLiquidity(liquidity, lower, upper, true) <= amount
  {
    MulNonNegative(amount, lower);
    MulNonNegative(amount * lower, upper);
    MulPositive(upper, lower);
    MulNonNegative(liquidity, upper - lower);
    FloorFloor(amount * lower * upper, upper - lower, TWO_64, liquidity);
    CeilGalois(liquidity * (upper - lower) * TWO_64, upper * lower, amount);
    Reassociate(amount, lower, upper);
    assert amount * (upper * lower) == amount * (lower * upper);
    assert liquidity * TWO_64 * (upper - lower) == liquidity * (upper - lower) * TWO_64;
  }

  /** Liquidity rounded up from an amount pays out at least that amount, even when the payout rounds down. */
  lemma LiquidityRoundedUpPaysOut(amount: nat, lower: nat, upper: nat, liquidity: nat)
    requires lower < upper
    ensures GetLiquidityFromTokenB(amount, lower, upper, true) <= liquidity
            <==> amount <= GetTokenBFromLiquidity(liquidity, lower, upper, false)
  {
    MulNonNegative(liquidity, upper - lower);
    CeilGalois(amount * TWO_64, upper - lower, liquidity);
    FloorGalois(liquidity * (upper - lower), TWO_64, amount);
  }

  /** The quotient that the rounded-up liquidity for A is taken from, and the case in which its fraction is lost. */
  predicate LosesFraction(amount: nat, lower: nat, upper: nat)
    requires 0 < lower < upper
  {
    var n := amount * lower * upper;
    n % (upper - lower) > 0 && (n / (upper - lower)) % TWO_64 == 0
  }

  /**
   * For A the formula floors before it rounds up. Its liquidity yields the amount again exactly when that loses
   * nothing, and is otherwise one unit short.
   */
  lemma LiquidityRoundedUpFromA(amount: nat, lower: nat, upper: nat)
    requires 0 < lower < upper
    ensures var paid := GetTokenAFromLiquidity(GetLiquidityFromTokenA(amount, lower, upper, true), lower, upper, false);
            && amount - 1 <= paid
            && (amount <= paid <==> !LosesFraction(amount, lower, upper))
  {
    var d, p := upper - lower, upper * lower;
    MulNonNegative(amount, lower);
    MulNonNegative(amount * lower, upper);
    MulPositive(upper, lower);
    var n := amount * lower * upper;
    Reassociate(amount, lower, upper);
    var q := n / d;
    var r := CeilDiv(q, TWO_64);
    MulNonNegative(r, d);
    assert GetLiquidityFromTokenA(amount, lower, upper, true) == r;
    assert GetTokenAFromLiquidity(r, lower, upper, false) == r * d * TWO_64 / p;
    assert LosesFraction(amount, lower, upper) <==> n % d > 0 && q % TWO_64 == 0;
    hide *;
    FloorGalois(r * d * TWO_64, p, amount);
    FloorGalois(r * d * TWO_64, p, amount - 1);
    CeilOfFloor(n, d, p, q, r, amount);
  }

  lemma CeilOfFloor(n: nat, d: nat, p: nat, q: nat, r: nat, amount: nat)
    requires d > 0 && d <= p && n == amount * p && q == n / d && r == CeilDiv(q, TWO_64)
    ensures (amount - 1) * p <= r * d * TWO_64
    ensures amount * p <= r * d * TWO_64 <==> !(n % d > 0 && q % TWO_64 == 0)
  {
    var scaled := r * TWO_64;
    assert scaled >= q && (scaled == q <==> q % TWO_64 == 0);
    assert r * d * TWO_64 == scaled * d;
    assert n == q * d + n % d;
    MulMono(q, scaled, d);
    if scaled > q {
      MulMono(q + 1, scaled, d);
      Distribute(q, 1, d);
    }
    Distribute(amount, -1, p);
  }

  /** A case that loses it: one unit of liquidity between the prices 1 and 3. */
  lemma RoundedUpFromAFallsShort()
    ensures LosesFraction(12297829382473034411, 1, 3)
  {
  }
}
