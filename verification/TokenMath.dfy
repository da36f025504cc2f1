/** programs/whirlpool/src/math/{bit_math,token_math,swap_math}.rs: the same formulas in checked machine arithmetic. */
module TokenMath {
  import opened Numbers
  import PM = PriceMath

  const MIN_SQRT_PRICE_X64: u128 := 4295048016
  const MAX_SQRT_PRICE_X64: u128 := 79226673515401279992447579055
  const FEE_RATE_MUL_VALUE: nat := 1000000
  const PROTOCOL_FEE_RATE_MUL_VALUE: nat := 10000
  const MAX_FEE_RATE: nat := 30000
  const MAX_PROTOCOL_FEE_RATE: nat := 2500

  function ToU64(x: nat, error: ErrorCode): Result<u64> {
    if x < TWO_64 then Ok(x) else Err(error)
  }

  function CheckedMulDivRoundUpIf(n0: u128, n1: u128, d: u128, roundUp: bool): Result<u128> {
    if d == 0 then Err(DivideByZero)
    else
      var p := Mul(n0, n1);
      if p >= TWO_128 then Err(MulDivOverflow)
      else
        RoundedQuotIsRounded(p, d, roundUp);
        FloorGalois(p, d, p + 1);
        MulAtLeast(p + 1, d);
        Ok(RoundedQuot(p, d, roundUp))
  }

  function CheckedMulShiftRightRoundUpIf(n0: u128, n1: u128, roundUp: bool): Result<u64> {
    if n0 == 0 || n1 == 0 then Ok(0)
    else
      var p := Mul(n0, n1);
      if p >= TWO_128 then Err(MultiplicationShiftRightOverflow)
      else
        var result := p / TWO_64;
        var shouldRound := roundUp && p % TWO_64 > 0;
        if shouldRound && result == TWO_64 - 1 then Err(MultiplicationOverflow)
        else Ok(if shouldRound then result + 1 else result)
  }

  function CheckedMulShiftRight(n0: u128, n1: u128): Result<u64> {
    CheckedMulShiftRightRoundUpIf(n0, n1, false)
  }

  lemma MulAtLeast(x: nat, d: nat)
    requires d > 0
    ensures x <= x * d
  {
  }

  function GetAmountDeltaA(price0: u128, price1: u128, liquidity: u128, roundUp: bool): Result<u64> {
    var lower, upper := PM.Min(price0, price1), PM.Max(price0, price1);
    var product := Mul(liquidity, upper - lower);
    if product >= TWO_192 then Err(MultiplicationOverflow)
    else if Mul(upper, lower) == 0 then Err(ArithmeticPanic)
    else
      var quotient := RoundedQuot(product * TWO_64, Mul(upper, lower), roundUp);
      if quotient >= TWO_128 then Err(NumberDownCastError)
      else ToU64(quotient, TokenMaxExceeded)
  }

  function GetAmountDeltaB(price0: u128, price1: u128, liquidity: u128, roundUp: bool): Result<u64> {
    var lower, upper := PM.Min(price0, price1), PM.Max(price0, price1);
    CheckedMulShiftRightRoundUpIf(liquidity, upper - lower, roundUp)
  }

  function GetNextSqrtPriceFromARoundUp(price: u128, liquidity: u128, amount: u64, isInput: bool): Result<u128> {
    if amount == 0 then Ok(price)
    else
      var product := Mul(amount, price);
      if Mul(liquidity, price) >= TWO_192 then Err(MultiplicationOverflow)
      else if !isInput && liquidity * TWO_64 <= product then Err(DivideByZero)
      else
        var denominator := if isInput then liquidity * TWO_64 + product else liquidity * TWO_64 - product;
        if denominator == 0 then Err(ArithmeticPanic)
        else
          var next := RoundedQuot(Mul(liquidity, price) * TWO_64, denominator, true);
          if next >= TWO_128 then Err(NumberDownCastError)
          else if next < MIN_SQRT_PRICE_X64 then Err(TokenMinSubceeded)
          else if next > MAX_SQRT_PRICE_X64 then Err(TokenMaxExceeded)
          else Ok(next)
  }

  function GetNextSqrtPriceFromBRoundDown(price: u128, liquidity: u128, amount: u64, isInput: bool): Result<u128> {
    if liquidity == 0 then Err(DivideByZero)
    else
      var delta := RoundedQuot(amount * TWO_64, liquidity, !isInput);
      if isInput then
        if price + delta < TWO_128 then Ok(price + delta) else Err(SqrtPriceOutOfBounds)
      else
        if delta <= price then Ok(price - delta) else Err(SqrtPriceOutOfBounds)
  }

  function GetNextSqrtPrice(price: u128, liquidity: u128, amount: u64, isInput: bool, aToB: bool): Result<u128> {
    if isInput == aToB then GetNextSqrtPriceFromARoundUp(price, liquidity, amount, isInput)
    else GetNextSqrtPriceFromBRoundDown(price, liquidity, amount, isInput)
  }

  function GetAmountFixedDelta(current: u128, target: u128, liquidity: u128, isInput: bool, aToB: bool): Result<u64> {
    if aToB == isInput then GetAmountDeltaA(current, target, liquidity, isInput)
    else GetAmountDeltaB(current, target, liquidity, isInput)
  }

  function GetAmountUnfixedDelta(current: u128, target: u128, liquidity: u128, isInput: bool, aToB: bool): Result<u64> {
    if aToB == isInput then GetAmountDeltaB(current, target, liquidity, !isInput)
    else GetAmountDeltaA(current, target, liquidity, !isInput)
  }

  datatype SwapStepComputation = SwapStepComputation(amountIn: u64, amountOut: u64, nextPrice: u128, feeAmount: u64)

  function ComputeSwap(remaining: u64, feeRate: u16, liquidity: u128, current: u128, target: u128,
                       isInput: bool, aToB: bool): Result<SwapStepComputation>
  {
    var fixedToTarget :- GetAmountFixedDelta(current, target, liquidity, isInput, aToB);
    var amountCalc :- AmountAfterFee(remaining, feeRate, isInput);
    var next :- if amountCalc >= fixedToTarget then Ok(target)
                else GetNextSqrtPrice(current, liquidity, amountCalc, isInput, aToB);
    var isMaxSwap := next == target;
    var unfixed :- GetAmountUnfixedDelta(current, next, liquidity, isInput, aToB);
    var fixed :- if isMaxSwap then Ok(fixedToTarget) else GetAmountFixedDelta(current, next, liquidity, isInput, aToB);
    var amountIn := if isInput then fixed else unfixed;
    var amountOut := if isInput then unfixed else fixed;
    var cappedOut := if !isInput && amountOut > remaining then remaining else amountOut;
    var fee :- FeeAmount(remaining, feeRate, amountIn, isInput && !isMaxSwap);
    Ok(SwapStepComputation(amountIn, cappedOut, next, fee))
  }

  /** The part of a specified input that remains once the fee is set aside; all of a specified output. */
  function AmountAfterFee(remaining: u64, feeRate: u16, isInput: bool): Result<u64> {
    if isInput then
      var x :- CheckedMulDivRoundUpIf(remaining, FEE_RATE_MUL_VALUE - feeRate, FEE_RATE_MUL_VALUE, false);
      ToU64(x, NumberCastError)
    else Ok(remaining)
  }

  function FeeAmount(remaining: u64, feeRate: u16, amountIn: u64, takesRest: bool): Result<u64> {
    if takesRest then
      if amountIn <= remaining then Ok(remaining - amountIn) else Err(ArithmeticPanic)
    else
      var x :- CheckedMulDivRoundUpIf(amountIn, feeRate, FEE_RATE_MUL_VALUE - feeRate, true);
      ToU64(x, NumberCastError)
  }

  // ---------------------------------------------------------------- agreement with the unbounded formulas

  function Specified(isInput: bool): PM.AmountSpecified {
    if isInput then PM.Input else PM.Output
  }

  function Direction(aToB: bool): PM.SwapDirection {
    if aToB then PM.AtoB else PM.BtoA
  }

  lemma AmountDeltaAAgrees(price0: u128, price1: u128, liquidity: u128, roundUp: bool)
    requires price0 > 0 && price1 > 0
    ensures var exact := PM.GetTokenAFromLiquidity(liquidity, price0, price1, roundUp);
            var r := GetAmountDeltaA(price0, price1, liquidity, roundUp);
            && (r.Ok? <==> exact < TWO_64 && liquidity * (PM.Max(price0, price1) - PM.Min(price0, price1)) < TWO_192)
            && (r.Ok? ==> r.value == exact)
  {
    var lower, upper := PM.Min(price0, price1), PM.Max(price0, price1);
    PM.MulPositive(upper, lower);
    MulIsProduct(upper, lower);
    MulIsProduct(liquidity, upper - lower);
    RoundedQuotIsRounded(Mul(liquidity, upper - lower) * TWO_64, Mul(upper, lower), roundUp);
  }

  lemma AmountDeltaBAgrees(price0: u128, price1: u128, liquidity: u128, roundUp: bool)
    ensures var exact := PM.GetTokenBFromLiquidity(liquidity, price0, price1, roundUp);
            var r := GetAmountDeltaB(price0, price1, liquidity, roundUp);
            && (r.Ok? <==> exact < TWO_64 && liquidity * (PM.Max(price0, price1) - PM.Min(price0, price1)) < TWO_128)
            && (r.Ok? ==> r.value == exact)
  {
    MulIsProduct(liquidity, PM.Max(price0, price1) - PM.Min(price0, price1));
    PM.MulNonNegative(liquidity, PM.Max(price0, price1) - PM.Min(price0, price1));
  }

  /** Both formulas for token A are one quotient, over what the amount adds to or takes from the denominator. */
  lemma NextPriceFromAAgrees(price: u128, liquidity: u128, amount: u64, isInput: bool)
    requires price > 0 && liquidity > 0
    ensures var s, d := Specified(isInput), Direction(isInput);
            var r := GetNextSqrtPriceFromARoundUp(price, liquidity, amount, isInput);
            && (r.Ok? <==> PM.HasNextPrice(price, liquidity, amount, s, d)
                           && (amount == 0 || (liquidity * price < TWO_192
                                               && MIN_SQRT_PRICE_X64
                                                   <= PM.GetNextSqrtPrice(price, liquidity, amount, s, d)
                                                  <= MAX_SQRT_PRICE_X64)))
            && (r.Ok? ==> r.value == PM.GetNextSqrtPrice(price, liquidity, amount, s, d))
  {
    MulIsProduct(liquidity, price);
    MulIsProduct(amount, price);
    PM.MulNonNegative(amount, price);
    var denominator: int := if isInput then liquidity * TWO_64 + amount * price
        else liquidity * TWO_64 - amount * price;
    if denominator > 0 {
      RoundedQuotIsRounded(Mul(liquidity, price) * TWO_64, denominator, true);
    }
    if amount == 0 {
      NothingMovesPrice(price, liquidity);
    }
    hide Mul, RoundedQuot, CeilDiv;
  }

  lemma NothingMovesPrice(price: nat, liquidity: nat)
    requires price > 0 && liquidity > 0
    ensures liquidity * price * TWO_64 >= 0 && CeilDiv(liquidity * price * TWO_64, liquidity * TWO_64) == price
  {
    PM.MulPositive(liquidity, price);
    var m, d := liquidity * price * TWO_64, liquidity * TWO_64;
    assert m == price * d;
    CeilGalois(m, d, price);
    var less: int := price - 1;
    CeilGalois(m, d, less);
    Distribute(price, -1, d);
  }

  /** The program's next price is the formula's, and it fails exactly when that is out of the program's bounds. */
  lemma NextSqrtPriceAgrees(price: u128, liquidity: u128, amount: u64, isInput: bool, aToB: bool)
    requires price > 0 && liquidity > 0
    ensures var s, d := Specified(isInput), Direction(aToB);
            var r := GetNextSqrtPrice(price, liquidity, amount, isInput, aToB);
            && (r.Ok? <==> && PM.HasNextPrice(price, liquidity, amount, s, d)
                           && var exact := PM.GetNextSqrtPrice(price, liquidity, amount, s, d);
                              if isInput == aToB then
                                amount == 0 || (liquidity * price < TWO_192
                                                && MIN_SQRT_PRICE_X64 <= exact <= MAX_SQRT_PRICE_X64)
                              else 0 <= exact < TWO_128)
            && (r.Ok? ==> r.value == PM.GetNextSqrtPrice(price, liquidity, amount, s, d))
  {
    if isInput == aToB {
      hide GetNextSqrtPriceFromARoundUp, PM.GetNextSqrtPrice, PM.HasNextPrice;
      NextPriceFromAAgrees(price, liquidity, amount, isInput);
    } else {
      RoundedQuotIsRounded(amount * TWO_64, liquidity, !isInput);
    }
  }

  // ---------------------------------------------------------------- what one swap step does

  /** `next` lies between current and target, in the direction of the trade. */
  predicate Between(current: int, next: int, target: int, aToB: bool) {
    if aToB then target <= next <= current else current <= next <= target
  }

  /** The tokens the pool must receive for a price move, rounded up, and what it may pay out, rounded down. */
  function Charge(liquidity: nat, current: nat, next: nat, aToB: bool): nat
    requires current > 0 && next > 0
  {
    if aToB then PM.GetTokenAFromLiquidity(liquidity, current, next, true)
    else PM.GetTokenBFromLiquidity(liquidity, current, next, true)
  }

  function Payout(liquidity: nat, current: nat, next: nat, aToB: bool): nat
    requires current > 0 && next > 0
  {
    if aToB then PM.GetTokenBFromLiquidity(liquidity, current, next, false)
    else PM.GetTokenAFromLiquidity(liquidity, current, next, false)
  }

  /** The fee rounded up on what the rate leaves of an input, rounded down, stays within the input. */
  lemma FeeOnTop(remaining: nat, rate: nat, m: nat, amountIn: nat)
    requires rate < m && amountIn <= remaining * (m - rate) / m
    ensures amountIn <= remaining && amountIn + CeilDiv(amountIn * rate, m - rate) <= remaining
  {
    var r := m - rate;
    PM.MulNonNegative(remaining, r);
    PM.MulNonNegative(amountIn, rate);
    FloorGalois(remaining * r, m, amountIn);
    assert amountIn * m == amountIn * rate + amountIn * r;
    CeilGalois(amountIn * rate, r, remaining - amountIn);
    assert (remaining - amountIn) * r == remaining * r - amountIn * r;
  }

  /** A specified input that covers amountIn also covers the fee on top of it. */
  lemma FeeFitsInInput(remaining: u64, feeRate: u16, amountIn: u64)
    requires AmountAfterFee(remaining, feeRate, true).Ok?
    requires amountIn <= AmountAfterFee(remaining, feeRate, true).value
    requires FeeAmount(remaining, feeRate, amountIn, false).Ok?
    ensures amountIn + FeeAmount(remaining, feeRate, amountIn, false).value <= remaining
  {
    var m, r := FEE_RATE_MUL_VALUE, FEE_RATE_MUL_VALUE - feeRate;
    MulIsProduct(remaining, r);
    MulIsProduct(amountIn, feeRate);
    hide Mul;
    RoundedQuotIsRounded(Mul(remaining, r), m, false);
    if r > 0 {
      RoundedQuotIsRounded(Mul(amountIn, feeRate), r, true);
      hide RoundedQuot, CeilDiv;
      FeeOnTop(remaining, feeRate, m, amountIn);
    }
  }

  /** A step that stops short of its target: the next price and the fixed amount it settles. */
  lemma StopsShort(remaining: u64, amountCalc: u64, liquidity: u128, current: u128, target: u128, next: u128,
                   isInput: bool, aToB: bool)
    requires current > 0 && target > 0 && Between(current, target, target, aToB)
    requires GetAmountFixedDelta(current, target, liquidity, isInput, aToB).Ok?
    requires amountCalc < GetAmountFixedDelta(current, target, liquidity, isInput, aToB).value
    requires GetNextSqrtPrice(current, liquidity, amountCalc, isInput, aToB) == Ok(next)
    ensures next > 0 && Between(current, next, target, aToB)
    ensures isInput ==> next != target
    ensures var fixed := PM.GetAmountFixedDelta(current, next, liquidity, Specified(isInput), Direction(aToB));
            if isInput then fixed <= amountCalc else fixed >= amountCalc
  {
    var s, d := Specified(isInput), Direction(aToB);
    FixedDeltaAgrees(current, target, liquidity, isInput, aToB);
    if liquidity == 0 {
      NoLiquidityNoAmount(current, target);
      assert false;
    } else {
      NextSqrtPriceAgrees(current, liquidity, amountCalc, isInput, aToB);
      PM.NextPriceMovesAhead(current, liquidity, amountCalc, s, d);
      PM.NextPriceIsOptimal(current, liquidity, amountCalc, target, s, d);
      NextIsPositive(current, next, target, liquidity, amountCalc, isInput, aToB);
      PM.NextPriceIsOptimal(current, liquidity, amountCalc, next, s, d);
    }
  }

  lemma NextIsPositive(current: u128, next: u128, target: u128, liquidity: u128, amountCalc: u64, isInput: bool,
                       aToB: bool)
    requires current > 0 && target > 0 && liquidity > 0 && Between(current, target, target, aToB)
    requires PM.HasNextPrice(current, liquidity, amountCalc, Specified(isInput), Direction(aToB))
    requires next == PM.GetNextSqrtPrice(current, liquidity, amountCalc, Specified(isInput), Direction(aToB))
    requires PM.Ahead(current, next, Direction(aToB))
    requires var fixed := PM.GetAmountFixedDelta(current, target, liquidity, Specified(isInput), Direction(aToB));
             fixed > amountCalc
    ensures next > 0
  {
    PM.NextPriceIsOptimal(current, liquidity, amountCalc, target, Specified(isInput), Direction(aToB));
  }

  lemma NoLiquidityNoAmount(price0: nat, price1: nat)
    requires price0 > 0 && price1 > 0
    ensures forall up: bool :: PM.GetTokenAFromLiquidity(0, price0, price1, up) == 0
    ensures forall up: bool :: PM.GetTokenBFromLiquidity(0, price0, price1, up) == 0
  {
    PM.MulPositive(PM.Max(price0, price1), PM.Min(price0, price1));
  }

  /** An amount of either token fits the widths that the program computes it in. */
  predicate Fits(exact: nat, liquidity: nat, price0: nat, price1: nat, ofA: bool) {
    exact < TWO_64 && liquidity * (PM.Max(price0, price1) - PM.Min(price0, price1)) < if ofA then TWO_192 else TWO_128
  }

  /** The fixed and the unfixed amount of a step are the formulas', and fail exactly when those do not fit. */
  lemma FixedDeltaAgrees(current: u128, target: u128, liquidity: u128, isInput: bool, aToB: bool)
    requires current > 0 && target > 0
    ensures var r := GetAmountFixedDelta(current, target, liquidity, isInput, aToB);
            var exact := PM.GetAmountFixedDelta(current, target, liquidity, Specified(isInput), Direction(aToB));
            (r.Ok? <==> Fits(exact, liquidity, current, target, aToB == isInput)) && (r.Ok? ==> r.value == exact)
    ensures var r := GetAmountUnfixedDelta(current, target, liquidity, isInput, aToB);
            var exact := PM.GetAmountUnfixedDelta(current, target, liquidity, Specified(isInput), Direction(aToB));
            (r.Ok? <==> Fits(exact, liquidity, current, target, aToB != isInput)) && (r.Ok? ==> r.value == exact)
  {
    hide GetAmountDeltaA, GetAmountDeltaB, PM.GetTokenAFromLiquidity, PM.GetTokenBFromLiquidity;
    AmountDeltaAAgrees(current, target, liquidity, isInput);
    AmountDeltaBAgrees(current, target, liquidity, isInput);
    AmountDeltaAAgrees(current, target, liquidity, !isInput);
    AmountDeltaBAgrees(current, target, liquidity, !isInput);
  }

  /** What ComputeSwap returned, in terms of the helpers it called. */
  predicate Computed(remaining: u64, feeRate: u16, liquidity: u128, current: u128, target: u128,
                     isInput: bool, aToB: bool, c: SwapStepComputation)
  {
    var toTarget := GetAmountFixedDelta(current, target, liquidity, isInput, aToB);
    var amountCalc := AmountAfterFee(remaining, feeRate, isInput);
    var fixed := GetAmountFixedDelta(current, c.nextPrice, liquidity, isInput, aToB);
    var unfixed := GetAmountUnfixedDelta(current, c.nextPrice, liquidity, isInput, aToB);
    && toTarget.Ok? && amountCalc.Ok? && fixed.Ok? && unfixed.Ok?
    && (if amountCalc.value >= toTarget.value then c.nextPrice == target
        else GetNextSqrtPrice(current, liquidity, amountCalc.value, isInput, aToB) == Ok(c.nextPrice))
    && c.amountIn == (if isInput then fixed.value else unfixed.value)
    && c.amountOut == (if isInput then unfixed.value else if fixed.value > remaining then remaining else fixed.value)
    && FeeAmount(remaining, feeRate, c.amountIn, isInput && c.nextPrice != target) == Ok(c.feeAmount)
  }

  /** The guarantees of one step that are about the price and the amounts. */
  predicate Settles(remaining: nat, liquidity: nat, current: nat, target: nat,
                    isInput: bool, aToB: bool, c: SwapStepComputation)
  {
    && current > 0
    && c.nextPrice > 0
    && Between(current, c.nextPrice, target, aToB)
    && c.amountIn == Charge(liquidity, current, c.nextPrice, aToB)
    && c.amountOut <= Payout(liquidity, current, c.nextPrice, aToB)
    && (if isInput then c.amountIn + c.feeAmount else c.amountOut) <= remaining
    && (c.nextPrice != target ==> (if isInput then c.amountIn + c.feeAmount else c.amountOut) == remaining)
  }

  lemma ComputedSettles(remaining: u64, feeRate: u16, liquidity: u128, current: u128, target: u128,
                        isInput: bool, aToB: bool, c: SwapStepComputation)
    requires current > 0 && target > 0 && Between(current, target, target, aToB)
    requires Computed(remaining, feeRate, liquidity, current, target, isInput, aToB, c)
    ensures Settles(remaining, liquidity, current, target, isInput, aToB, c)
  {
    var fixedToTarget := GetAmountFixedDelta(current, target, liquidity, isInput, aToB).value;
    var amountCalc := AmountAfterFee(remaining, feeRate, isInput).value;
    if amountCalc < fixedToTarget {
      StopsShort(remaining, amountCalc, liquidity, current, target, c.nextPrice, isInput, aToB);
    }
    FixedDeltaAgrees(current, c.nextPrice, liquidity, isInput, aToB);
    if isInput && c.nextPrice == target {
      FeeFitsInInput(remaining, feeRate, c.amountIn);
    }
  }

  /** Without liquidity the step goes straight to its target and moves nothing. */
  lemma ComputedWithoutLiquidity(remaining: u64, feeRate: u16, current: u128, target: u128,
                                 isInput: bool, aToB: bool, c: SwapStepComputation)
    requires current > 0 && target > 0
    requires Computed(remaining, feeRate, 0, current, target, isInput, aToB, c)
    ensures c.nextPrice == target && c.amountIn == 0 && c.amountOut == 0 && c.feeAmount == 0
  {
    NoLiquidityNoAmount(current, target);
    FixedDeltaAgrees(current, target, 0, isInput, aToB);
    MulIsProduct(0, feeRate);
  }

  /**
   * Every successful swap step: the next price lies between the current price and the target; a step that stops short
   * of the target spends the whole remainder; the specified side never exceeds the remainder; the pool charges the
   * price move rounded up and pays at most that move rounded down; without liquidity nothing but the price moves.
   */
  lemma ComputeSwapSettles(remaining: u64, feeRate: u16, liquidity: u128, current: u128, target: u128,
                           isInput: bool, aToB: bool)
    requires current > 0 && target > 0 && Between(current, target, target, aToB)
    ensures var r := ComputeSwap(remaining, feeRate, liquidity, current, target, isInput, aToB);
            r.Ok? ==>
              && Settles(remaining, liquidity, current, target, isInput, aToB, r.value)
              && (liquidity == 0 ==> r.value == SwapStepComputation(0, 0, target, 0))
  {
    var r := ComputeSwap(remaining, feeRate, liquidity, current, target, isInput, aToB);
    if r.Ok? {
      assert Computed(remaining, feeRate, liquidity, current, target, isInput, aToB, r.value);
      ComputedSettles(remaining, feeRate, liquidity, current, target, isInput, aToB, r.value);
      if liquidity == 0 {
        ComputedWithoutLiquidity(remaining, feeRate, current, target, isInput, aToB, r.value);
      }
    }
  }

  // ---------------------------------------------------------------- exactly what one swap step settles

  /** x can be tried of an input of `remaining`: what the fee rate takes of the input is left over. */
  predicate CanTry(remaining: nat, feeRate: nat, x: int) {
    x * 1000000 <= remaining * (1000000 - feeRate)
  }

  /** f is the fee rate's part of an input of which amountIn remains, or more. */
  predicate PaysFee(amountIn: nat, feeRate: nat, f: int) {
    f * (1000000 - feeRate) >= amountIn * feeRate
  }

  /** The least fee that pays. */
  ghost predicate IsLeastFee(amountIn: nat, feeRate: nat, fee: nat) {
    forall f: int :: PaysFee(amountIn, feeRate, f) <==> fee <= f
  }

  /** What a step tries to settle: all of a specified output, what the fee rate leaves of a specified input. */
  function Tried(remaining: nat, feeRate: u16, isInput: bool): nat {
    if isInput then Quot(Mul(remaining, 1000000 - feeRate), 1000000) else remaining
  }

  /** The amount tried of an input is the greatest that leaves room for the fee. */
  lemma TriedIsGreatest(remaining: nat, feeRate: u16)
    ensures forall x: int :: CanTry(remaining, feeRate, x) <==> x <= Tried(remaining, feeRate, true)
    ensures Tried(remaining, feeRate, false) == remaining
  {
    var n := Mul(remaining, 1000000 - feeRate);
    MulIsProduct(remaining, 1000000 - feeRate);
    QuotIsQuotient(n, 1000000);
    forall x: int
      ensures CanTry(remaining, feeRate, x) <==> x <= Tried(remaining, feeRate, true)
    {
      FloorGalois(n, 1000000, x);
    }
  }

  /** Setting the fee aside never fails, and leaves what is tried. */
  lemma AmountAfterFeeIsTried(remaining: u64, feeRate: u16, isInput: bool)
    ensures AmountAfterFee(remaining, feeRate, isInput) == Ok(Tried(remaining, feeRate, isInput))
    ensures Tried(remaining, feeRate, isInput) <= remaining
  {
    var r: int := 1000000 - feeRate;
    MulIsProduct(remaining, r);
    PM.MulNonNegative(remaining, r);
    MulMono(r, 1000000, remaining);
    assert remaining * r == r * remaining;
    hide Mul, Quot;
    FloorGalois(remaining * r, 1000000, TWO_64);
    QuotIsQuotient(remaining * r, 1000000);
    FloorGalois(remaining * r, 1000000, remaining + 1);
    RoundedQuotIsRounded(remaining * r, 1000000, false);
  }

  /** Unless the step takes the rest of an input, its fee is the least one that pays, and it always fits. */
  lemma FeeIsLeast(remaining: u64, feeRate: u16, amountIn: u64)
    ensures var r := FeeAmount(remaining, feeRate, amountIn, false);
            r.Ok? && IsLeastFee(amountIn, feeRate, r.value)
  {
    var r: int := 1000000 - feeRate;
    MulIsProduct(amountIn, feeRate);
    PM.MulNonNegative(amountIn, feeRate);
    MulMono(feeRate, r, amountIn);
    assert amountIn * feeRate == feeRate * amountIn && amountIn * r == r * amountIn;
    hide Mul, RoundedQuot, CeilDiv;
    var n := amountIn * feeRate;
    RoundedQuotIsRounded(n, r, true);
    CeilGalois(n, r, amountIn);
    var fee := CeilDiv(n, r);
    forall f: int
      ensures PaysFee(amountIn, feeRate, f) <==> fee <= f
    {
      CeilGalois(n, r, f);
    }
  }

  /** The price a step moves to: its target if what is tried pays for all of the way, else as far as it goes. */
  predicate Reaches(tried: nat, liquidity: nat, current: nat, target: nat, isInput: bool, aToB: bool, next: nat)
    requires current > 0 && target > 0
  {
    var s, d := Specified(isInput), Direction(aToB);
    if tried >= PM.GetAmountFixedDelta(current, target, liquidity, s, d) then next == target
    else PM.HasNextPrice(current, liquidity, tried, s, d)
         && next == PM.GetNextSqrtPrice(current, liquidity, tried, s, d)
  }

  /**
   * All that one step settles: how far the price moves, the charge and the payout of that move, of which a specified
   * output takes no more than remains, and the fee: the rest of an input that does not reach the target, and
   * otherwise the least fee that pays.
   */
  ghost predicate ExactStep(remaining: nat, feeRate: u16, liquidity: nat, current: nat, target: nat,
                            isInput: bool, aToB: bool, c: SwapStepComputation)
  {
    && current > 0 && target > 0 && c.nextPrice > 0
    && Reaches(Tried(remaining, feeRate, isInput), liquidity, current, target, isInput, aToB, c.nextPrice)
    && c.amountIn == Charge(liquidity, current, c.nextPrice, aToB)
    && (var payout := Payout(liquidity, current, c.nextPrice, aToB);
        c.amountOut == if !isInput && remaining < payout then remaining else payout)
    && if isInput && c.nextPrice != target then c.amountIn + c.feeAmount == remaining
       else IsLeastFee(c.amountIn, feeRate, c.feeAmount)
  }

  lemma ComputedIsExact(remaining: u64, feeRate: u16, liquidity: u128, current: u128, target: u128,
                        isInput: bool, aToB: bool, c: SwapStepComputation)
    requires current > 0 && target > 0 && Between(current, target, target, aToB)
    requires Computed(remaining, feeRate, liquidity, current, target, isInput, aToB, c)
    ensures ExactStep(remaining, feeRate, liquidity, current, target, isInput, aToB, c)
  {
    hide GetAmountFixedDelta, GetAmountUnfixedDelta, AmountAfterFee, Tried, PM.GetTokenAFromLiquidity,
        PM.GetTokenBFromLiquidity, PM.GetNextSqrtPrice, PM.HasNextPrice, GetNextSqrtPrice, IsLeastFee;
    AmountAfterFeeIsTried(remaining, feeRate, isInput);
    var tried := Tried(remaining, feeRate, isInput);
    FixedDeltaAgrees(current, target, liquidity, isInput, aToB);
    if tried < GetAmountFixedDelta(current, target, liquidity, isInput, aToB).value {
      StopsShort(remaining, tried, liquidity, current, target, c.nextPrice, isInput, aToB);
      ShortPrice(liquidity, current, target, tried, c.nextPrice, isInput, aToB);
    }
    FixedDeltaAgrees(current, c.nextPrice, liquidity, isInput, aToB);
    if !(isInput && c.nextPrice != target) {
      FeeIsLeast(remaining, feeRate, c.amountIn);
    }
    hide FeeAmount;
  }

  /** Only with liquidity can a step stop short, and its price is then the formula's. */
  lemma ShortPrice(liquidity: u128, current: u128, target: u128, tried: u64, next: u128, isInput: bool, aToB: bool)
    requires current > 0 && target > 0
    requires GetAmountFixedDelta(current, target, liquidity, isInput, aToB).Ok?
    requires tried < GetAmountFixedDelta(current, target, liquidity, isInput, aToB).value
    requires GetNextSqrtPrice(current, liquidity, tried, isInput, aToB) == Ok(next)
    ensures PM.HasNextPrice(current, liquidity, tried, Specified(isInput), Direction(aToB))
    ensures next == PM.GetNextSqrtPrice(current, liquidity, tried, Specified(isInput), Direction(aToB))
  {
    FixedDeltaAgrees(current, target, liquidity, isInput, aToB);
    if liquidity == 0 {
      NoLiquidityNoAmount(current, target);
      assert false;
    } else {
      NextSqrtPriceAgrees(current, liquidity, tried, isInput, aToB);
    }
  }

  /**
   * Every successful swap step settles exactly: nothing in what it returns is left to the way it is computed.
   */
  lemma ComputeSwapIsExact(remaining: u64, feeRate: u16, liquidity: u128, current: u128, target: u128,
                           isInput: bool, aToB: bool)
    requires current > 0 && target > 0 && Between(current, target, target, aToB)
    ensures var r := ComputeSwap(remaining, feeRate, liquidity, current, target, isInput, aToB);
            r.Ok? ==> ExactStep(remaining, feeRate, liquidity, current, target, isInput, aToB, r.value)
  {
    hide ExactStep;
    var r := ComputeSwap(remaining, feeRate, liquidity, current, target, isInput, aToB);
    if r.Ok? {
      assert Computed(remaining, feeRate, liquidity, current, target, isInput, aToB, r.value);
      ComputedIsExact(remaining, feeRate, liquidity, current, target, isInput, aToB, r.value);
    }
  }

  /** The step's amounts and its next price fit the widths they are computed in. */
  predicate StepFits(tried: nat, liquidity: u128, current: u128, target: u128, isInput: bool, aToB: bool)
    requires current > 0 && target > 0
  {
    var s, d := Specified(isInput), Direction(aToB);
    && Fits(PM.GetAmountFixedDelta(current, target, liquidity, s, d), liquidity, current, target, aToB == isInput)
    && if tried >= PM.GetAmountFixedDelta(current, target, liquidity, s, d) then
         MoveFits(liquidity, current, target, isInput, aToB)
       else
         && NextPriceFits(tried, liquidity, current, isInput, aToB)
         && 0 < PM.GetNextSqrtPrice(current, liquidity, tried, s, d)
         && MoveFits(liquidity, current, PM.GetNextSqrtPrice(current, liquidity, tried, s, d), isInput, aToB)
  }

  /** Both amounts of a price move fit. */
  predicate MoveFits(liquidity: u128, current: u128, next: u128, isInput: bool, aToB: bool)
    requires current > 0 && next > 0
  {
    var s, d := Specified(isInput), Direction(aToB);
    && Fits(PM.GetAmountFixedDelta(current, next, liquidity, s, d), liquidity, current, next, aToB == isInput)
    && Fits(PM.GetAmountUnfixedDelta(current, next, liquidity, s, d), liquidity, current, next, aToB != isInput)
  }

  /** There is a next price, within the bounds that the program puts on it. */
  predicate NextPriceFits(amount: nat, liquidity: u128, price: u128, isInput: bool, aToB: bool) {
    var s, d := Specified(isInput), Direction(aToB);
    && PM.HasNextPrice(price, liquidity, amount, s, d)
    && var exact := PM.GetNextSqrtPrice(price, liquidity, amount, s, d);
       && 0 <= exact < TWO_128
       && (isInput == aToB ==>
             amount == 0
             || (liquidity * price < TWO_192 && MIN_SQRT_PRICE_X64 <= exact <= MAX_SQRT_PRICE_X64))
  }

  /** Once the next price is known, only the amounts of the move can fail. */
  lemma MoveSucceeds(remaining: u64, feeRate: u16, liquidity: u128, current: u128, target: u128, next: u128,
                     isInput: bool, aToB: bool)
    requires current > 0 && target > 0 && next > 0
    requires var toTarget := GetAmountFixedDelta(current, target, liquidity, isInput, aToB);
             var tried := AmountAfterFee(remaining, feeRate, isInput);
             && toTarget.Ok? && tried.Ok?
             && (if tried.value >= toTarget.value then next == target
                 else GetNextSqrtPrice(current, liquidity, tried.value, isInput, aToB) == Ok(next))
    requires isInput && next != target ==>
               PM.GetAmountFixedDelta(current, next, liquidity, Specified(isInput), Direction(aToB)) <= remaining
    ensures ComputeSwap(remaining, feeRate, liquidity, current, target, isInput, aToB).Ok?
            <==> MoveFits(liquidity, current, next, isInput, aToB)
  {
    hide GetAmountFixedDelta, GetAmountUnfixedDelta, AmountAfterFee, GetNextSqrtPrice, IsLeastFee,
        PM.GetAmountFixedDelta, PM.GetAmountUnfixedDelta, CheckedMulDivRoundUpIf, Fits;
    FixedDeltaAgrees(current, next, liquidity, isInput, aToB);
    if MoveFits(liquidity, current, next, isInput, aToB) {
      FeeIsLeast(remaining, feeRate,
                 if isInput then GetAmountFixedDelta(current, next, liquidity, isInput, aToB).value
                 else GetAmountUnfixedDelta(current, next, liquidity, isInput, aToB).value);
    }
  }

  /** A step succeeds exactly when its amounts and its next price fit; setting aside or adding the fee never fails. */
  lemma ComputeSwapSucceeds(remaining: u64, feeRate: u16, liquidity: u128, current: u128, target: u128,
                            isInput: bool, aToB: bool)
    requires current > 0 && target > 0 && Between(current, target, target, aToB)
    ensures ComputeSwap(remaining, feeRate, liquidity, current, target, isInput, aToB).Ok?
            <==> StepFits(Tried(remaining, feeRate, isInput), liquidity, current, target, isInput, aToB)
  {
    hide GetAmountFixedDelta, AmountAfterFee, Tried, MoveFits, PM.GetNextSqrtPrice, PM.HasNextPrice,
        GetNextSqrtPrice, Fits, PM.GetAmountFixedDelta;
    AmountAfterFeeIsTried(remaining, feeRate, isInput);
    var tried: u64 := Tried(remaining, feeRate, isInput);
    FixedDeltaAgrees(current, target, liquidity, isInput, aToB);
    var toTarget := GetAmountFixedDelta(current, target, liquidity, isInput, aToB);
    if toTarget.Ok? && tried >= toTarget.value {
      MoveSucceeds(remaining, feeRate, liquidity, current, target, target, isInput, aToB);
    } else if toTarget.Ok? {
      if liquidity == 0 {
        NoShortWithoutLiquidity(current, target, isInput, aToB);
        assert false;
      }
      NextSqrtPriceAgrees(current, liquidity, tried, isInput, aToB);
      var next := GetNextSqrtPrice(current, liquidity, tried, isInput, aToB);
      assert next.Ok? <==> NextPriceFits(tried, liquidity, current, isInput, aToB);
      if next.Ok? {
        StopsShort(remaining, tried, liquidity, current, target, next.value, isInput, aToB);
        MoveSucceeds(remaining, feeRate, liquidity, current, target, next.value, isInput, aToB);
      }
    }
  }

  lemma NoShortWithoutLiquidity(current: u128, target: u128, isInput: bool, aToB: bool)
    requires current > 0 && target > 0
    ensures PM.GetAmountFixedDelta(current, target, 0, Specified(isInput), Direction(aToB)) == 0
  {
    NoLiquidityNoAmount(current, target);
  }
}
