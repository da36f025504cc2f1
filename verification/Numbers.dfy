/** The machine integers, error codes and rounding operations shared by the whole model. */
module Numbers {

  const TWO_64: int := 0x1_0000_0000_0000_0000
  const TWO_128: int := 0x1_0000_0000_0000_0000_0000_0000_0000_0000
  const TWO_192: int := 0x1_0000_0000_0000_0000_0000_0000_0000_0000_0000_0000_0000_0000

  type u16 = x: int | 0 <= x < 0x1_0000
  type u64 = x: int | 0 <= x < 0x1_0000_0000_0000_0000
  type u128 = x: int | 0 <= x < 0x1_0000_0000_0000_0000_0000_0000_0000_0000
  type i128 = x: int | -0x8000_0000_0000_0000_0000_0000_0000_0000 <= x < 0x8000_0000_0000_0000_0000_0000_0000_0000

  const I128_MIN: int := -0x8000_0000_0000_0000_0000_0000_0000_0000
  const I128_MAX: int := 0x7FFF_FFFF_FFFF_FFFF_FFFF_FFFF_FFFF_FFFF

  datatype ErrorCode =
    | TickArrayIndexOutofBounds
    | DivideByZero
    | NumberCastError
    | NumberDownCastError
    | TickNotFound
    | InvalidTickIndex
    | InvalidStartTick
    | SqrtPriceOutOfBounds
    | LiquidityZero
    | LiquidityTooHigh
    | LiquidityOverflow
    | LiquidityUnderflow
    | LiquidityNetError
    | TokenMaxExceeded
    | TokenMinSubceeded
    | InvalidTimestamp
    | InvalidTickArraySequence
    | InvalidRewardIndex
    | RewardVaultAmountInsufficient
    | ClosePositionNotEmpty
    | FeeRateMaxExceeded
    | ProtocolFeeRateMaxExceeded
    | MultiplicationShiftRightOverflow
    | MulDivOverflow
    | MultiplicationOverflow
    | InvalidSqrtPriceLimitDirection
    | ZeroTradableAmount
    | AmountOutBelowMinimum
    | AmountInAboveMaximum
    | TickArraySequenceInvalidIndex
    | AmountCalcOverflow
    | AmountRemainingOverflow
    | ArithmeticPanic      // a Rust panic: the transaction aborts
    | MissingAccount       // an account the runtime cannot load
    | InsufficientFunds    // the token program refuses a transfer
    | TransferOverflow     // the token program refuses a balance of 2^64 or more

  datatype Result<+T> = Ok(value: T) | Err(error: ErrorCode) {
    predicate IsFailure() { Err? }
    function PropagateFailure<U>(): (r: Result<U>)
      requires Err?
    {
      Err(error)
    }
    function Extract(): T
      requires Ok?
    {
      value
    }
  }

  datatype Option<+T> = None | Some(value: T)

  /** 128-bit wrapping. */
  function Wrap128(x: int): u128 {
    x % 0x1_0000_0000_0000_0000_0000_0000_0000_0000
  }

  /** 64-bit wrapping. */
  function Wrap64(x: int): u64 {
    x % 0x1_0000_0000_0000_0000
  }

  lemma WrapSmall(x: int)
    requires 0 <= x < TWO_128
    ensures Wrap128(x) == x
  {
  }

  /** Numbers a whole multiple of 2^128 apart wrap to the same value. */
  lemma WrapShift(x: int, k: int)
    ensures Wrap128(x + k * TWO_128) == Wrap128(x)
  {
    var q, r := x / TWO_128, x % TWO_128;
    assert x + k * TWO_128 == (q + k) * TWO_128 + r;
  }

  /** Wrapping an operand of a sum or difference first does not change the wrapped result. */
  lemma WrapAdd(a: int, b: int)
    ensures Wrap128(Wrap128(a) + b) == Wrap128(a + b)
    ensures Wrap128(b - Wrap128(a)) == Wrap128(b - a)
  {
    var k := a / TWO_128;
    assert Wrap128(a) == a - k * TWO_128;
    WrapShift(a + b, -k);
    WrapShift(b - a, k);
  }

  function CeilDiv(n: nat, d: nat): nat
    requires d > 0
  {
    if n % d > 0 then n / d + 1 else n / d
  }

  function DivRoundIf(n: nat, d: nat, roundUp: bool): nat
    requires d > 0
  {
    if roundUp then CeilDiv(n, d) else n / d
  }

  lemma MulMono(a: int, b: int, d: int)
    requires a <= b && 0 <= d
    ensures a * d <= b * d
  {
  }

  /** Division rounded down is the greatest x with x * d <= n. */
  lemma FloorGalois(n: nat, d: nat, x: int)
    requires d > 0
    ensures x <= n / d <==> x * d <= n
  {
    var q := n / d;
    assert n == q * d + n % d;
    if x <= q {
      MulMono(x, q, d);
    } else {
      MulMono(q + 1, x, d);
      assert (q + 1) * d == q * d + d;
    }
  }

  /** Division rounded up is the least x with n <= x * d. */
  lemma CeilGalois(n: nat, d: nat, x: int)
    requires d > 0
    ensures CeilDiv(n, d) <= x <==> n <= x * d
  {
    var q := n / d;
    assert n == q * d + n % d;
    if x < q {
      MulMono(x + 1, q, d);
      assert (x + 1) * d == x * d + d;
    } else if q < x {
      MulMono(q + 1, x, d);
      assert (q + 1) * d == q * d + d;
    }
  }

  /** Dividing by d and then by e rounds down exactly as dividing by their product. */
  lemma FloorFloor(n: nat, d: nat, e: nat, x: int)
    requires d > 0 && e > 0
    ensures x <= (n / d) / e <==> x * e * d <= n
  {
    FloorGalois(n / d, e, x);
    FloorGalois(n, d, x * e);
  }

  lemma Distribute(x: int, y: int, d: int)
    ensures (x + y) * d == x * d + y * d
    ensures d * (x + y) == d * x + d * y
  {
  }

  /** How rounding down behaves when an exact quotient is split in two. */
  lemma SplitFloor(n1: nat, n2: nat, d: nat)
    requires d > 0
    ensures (n1 + n2) / d - 1 <= n1 / d + n2 / d <= (n1 + n2) / d
  {
    var f1, f2 := n1 / d, n2 / d;
    assert f1 * d <= n1 < f1 * d + d && f2 * d <= n2 < f2 * d + d;
    Distribute(f1, f2, d);
    Distribute(f1 + f2, 2, d);
    FloorGalois(n1 + n2, d, f1 + f2);
    FloorGalois(n1 + n2, d, f1 + f2 + 2);
  }

  lemma CeilBounds(n: nat, d: nat)
    requires d > 0
    ensures CeilDiv(n, d) * d - d < n <= CeilDiv(n, d) * d
  {
    var c: int := CeilDiv(n, d);
    CeilGalois(n, d, c);
    CeilGalois(n, d, c - 1);
    Distribute(c, -1, d);
  }

  /** How rounding up behaves when an exact quotient is split in two. */
  lemma SplitCeil(n1: nat, n2: nat, d: nat)
    requires d > 0
    ensures CeilDiv(n1 + n2, d) <= CeilDiv(n1, d) + CeilDiv(n2, d) <= CeilDiv(n1 + n2, d) + 1
  {
    var c1: int, c2: int := CeilDiv(n1, d), CeilDiv(n2, d);
    CeilBounds(n1, d);
    CeilBounds(n2, d);
    Distribute(c1, c2, d);
    Distribute(c1 + c2, -2, d);
    CeilGalois(n1 + n2, d, c1 + c2);
    CeilGalois(n1 + n2, d, c1 + c2 - 2);
  }

  // ---------------------------------------------------------------- arithmetic in small steps
  //
  // The machine's multiplication, division and remainder, defined by counting. They are proved equal to the operators,
  // and keep everything built on them out of the solver's non-linear arithmetic.

  function Mul(a: nat, b: nat): nat {
    if b == 0 then 0 else Mul(a, b - 1) + a
  }

  /** The quotient rounded down, also of a negative number. */
  function Quot(x: int, d: nat): (q: int)
    requires d > 0
    ensures x >= 0 ==> q >= 0
    decreases x < 0, if x < 0 then -x else x
  {
    if x < 0 then Quot(x + d, d) - 1 else if x >= d then Quot(x - d, d) + 1 else 0
  }

  /** A quotient rounded up or down. */
  function RoundedQuot(n: nat, d: nat, roundUp: bool): nat
    requires d > 0
  {
    if roundUp && Remainder(n, d) > 0 then Quot(n, d) + 1 else Quot(n, d)
  }

  lemma {:induction false} MulIsProduct(a: nat, b: nat)
    ensures Mul(a, b) == a * b
  {
    if b > 0 {
      MulIsProduct(a, b - 1);
      Distribute(b, -1, a);
    }
  }

  lemma {:induction false} QuotIsQuotient(x: int, d: nat)
    requires d > 0
    ensures Quot(x, d) == x / d
    decreases x < 0, if x < 0 then -x else x
  {
    if x < 0 {
      QuotIsQuotient(x + d, d);
      ShiftedMod(x, d);
    } else if x >= d {
      QuotIsQuotient(x - d, d);
      ShiftedMod(x - d, d);
    } else {
      QuotientUnique(x, d, 0, x);
    }
  }

  lemma RoundedQuotIsRounded(n: nat, d: nat, roundUp: bool)
    requires d > 0
    ensures RoundedQuot(n, d, roundUp) == DivRoundIf(n, d, roundUp)
  {
    QuotIsQuotient(n, d);
    RemainderIsMod(n, d);
  }

  /** The remainder of dividing x by d, by counting down or up; it is x % d without division. */
  function Remainder(x: int, d: nat): nat
    requires d > 0
    decreases x < 0, if x < 0 then -x else x
  {
    if x < 0 then Remainder(x + d, d) else if x >= d then Remainder(x - d, d) else x
  }

  lemma {:induction false} RemainderIsMod(x: int, d: nat)
    requires d > 0
    ensures Remainder(x, d) == x % d
    decreases x < 0, if x < 0 then -x else x
  {
    if x < 0 {
      RemainderIsMod(x + d, d);
      ShiftedMod(x, d);
    } else if x >= d {
      RemainderIsMod(x - d, d);
      ShiftedMod(x - d, d);
    } else {
      SmallMod(x, d);
    }
  }

  lemma ShiftedMod(x: int, d: nat)
    requires d > 0
    ensures (x + d) % d == x % d && (x + d) / d == x / d + 1
  {
    var q, r := x / d, x % d;
    assert x + d == (q + 1) * d + r by { Distribute(q, 1, d); }
    QuotientUnique(x + d, d, q + 1, r);
  }

  lemma SmallMod(x: nat, d: nat)
    requires x < d
    ensures x % d == x
  {
    QuotientUnique(x, d, 0, x);
  }

  lemma QuotientUnique(n: int, d: nat, q: int, r: nat)
    requires r < d && n == q * d + r
    ensures n / d == q && n % d == r
  {
    var k := n / d - q;
    assert k * d == r - n % d by { Distribute(n / d, -q, d); }
    if k >= 1 {
      MulMono(1, k, d);
    } else if k <= -1 {
      MulMono(k, -1, d);
    }
  }
}
