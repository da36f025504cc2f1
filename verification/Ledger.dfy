/**
 * What the pool's compressed bookkeeping stands for: sums over all positions, the history of every growth accrual, and
 * the claims that positions hold on each token vault.
 */
module Ledger {
  import opened Numbers
  import opened TickManager
  import opened PositionManager
  import PM = PriceMath

  // ---------------------------------------------------------------- sums over positions

  /** A quantity that every position contributes to. */
  datatype Measure = ActiveAt(tick: int) | GrossAt(tick: int) | NetAt(tick: int) | OwedIn(token: Token)

  /** In range means lower <= tick < upper. */
  predicate InRange(p: Position, tick: int) {
    PM.GetPositionStatus(tick, p.tickLowerIndex, p.tickUpperIndex).InRange?
  }

  function Weight(m: Measure, p: Position): int {
    match m
    case ActiveAt(t) => if InRange(p, t) then p.liquidity else 0
    case GrossAt(t) => (if p.tickLowerIndex == t then p.liquidity else 0)
        + (if p.tickUpperIndex == t then p.liquidity else 0)
    case NetAt(t) => (if p.tickLowerIndex == t then p.liquidity else 0)
        - (if p.tickUpperIndex == t then p.liquidity else 0)
    case OwedIn(token) => Owed(p, FeeChannel(token))
  }

  function SumUpTo(ps: seq<Position>, m: Measure, n: nat): int
    requires n <= |ps|
  {
    if n == 0 then 0 else SumUpTo(ps, m, n - 1) + Weight(m, ps[n - 1])
  }

  function Sum(ps: seq<Position>, m: Measure): int { SumUpTo(ps, m, |ps|) }

  lemma {:induction false} SumUpdate(ps: seq<Position>, m: Measure, i: nat, p: Position, n: nat)
    requires i < |ps| && n <= |ps|
    ensures SumUpTo(ps[i := p], m, n) == SumUpTo(ps, m, n) + if i < n then Weight(m, p) - Weight(m, ps[i]) else 0
  {
    if n > 0 {
      SumUpdate(ps, m, i, p, n - 1);
    }
  }

  lemma {:induction false} SumAppend(ps: seq<Position>, m: Measure, p: Position, n: nat)
    requires n <= |ps|
    ensures SumUpTo(ps + [p], m, n) == SumUpTo(ps, m, n)
    ensures n == |ps| ==> Sum(ps + [p], m) == Sum(ps, m) + Weight(m, p)
  {
    if n > 0 {
      SumAppend(ps, m, p, n - 1);
    }
  }

  function Removed<T>(s: seq<T>, i: nat): seq<T>
    requires i < |s|
  {
    s[..i] + s[i + 1..]
  }

  lemma {:induction false} SumRemove(ps: seq<Position>, m: Measure, i: nat, n: nat)
    requires i < |ps| && n < |ps|
    ensures SumUpTo(Removed(ps, i), m, n) == if n <= i then SumUpTo(ps, m, n)
        else SumUpTo(ps, m, n + 1) - Weight(m, ps[i])
  {
    if n > 0 {
      SumRemove(ps, m, i, n - 1);
    }
  }

  /** A position's own liquidity is part of every gross and active sum that it touches. */
  lemma {:induction false} SumContains(ps: seq<Position>, m: Measure, i: nat, n: nat)
    requires i < n <= |ps| && !m.NetAt?
    ensures 0 <= Weight(m, ps[i]) <= SumUpTo(ps, m, n)
  {
    if i < n - 1 {
      SumContains(ps, m, i, n - 1);
    } else {
      SumNonNegative(ps, m, n - 1);
    }
  }

  lemma {:induction false} SumNonNegative(ps: seq<Position>, m: Measure, n: nat)
    requires n <= |ps| && !m.NetAt?
    ensures 0 <= SumUpTo(ps, m, n)
  {
    if n > 0 {
      SumNonNegative(ps, m, n - 1);
    }
  }

  /** A tick with no gross liquidity has no net liquidity: resetting it discards nothing. */
  lemma {:induction false} NetWithinGross(ps: seq<Position>, t: int, n: nat)
    requires n <= |ps|
    ensures -SumUpTo(ps, GrossAt(t), n) <= SumUpTo(ps, NetAt(t), n) <= SumUpTo(ps, GrossAt(t), n)
  {
    if n > 0 {
      NetWithinGross(ps, t, n - 1);
    }
  }

  /** Moving the tick up by one adds exactly the net liquidity of the tick entered. */
  lemma {:induction false} ActiveStep(ps: seq<Position>, t: int, n: nat)
    requires n <= |ps|
    requires forall i :: 0 <= i < |ps| ==> ps[i].tickLowerIndex < ps[i].tickUpperIndex
    ensures SumUpTo(ps, ActiveAt(t), n) == SumUpTo(ps, ActiveAt(t - 1), n) + SumUpTo(ps, NetAt(t), n)
  {
    if n > 0 {
      ActiveStep(ps, t, n - 1);
    }
  }

  /** Between two ticks that no liquidity touches the active liquidity does not change. */
  lemma {:induction false} ActiveConstant(ps: seq<Position>, low: int, high: int)
    requires low <= high
    requires forall i :: 0 <= i < |ps| ==> ps[i].tickLowerIndex < ps[i].tickUpperIndex
    requires forall t :: low < t <= high ==> Sum(ps, GrossAt(t)) == 0
    ensures Sum(ps, ActiveAt(low)) == Sum(ps, ActiveAt(high))
    decreases high - low
  {
    if low < high {
      ActiveConstant(ps, low, high - 1);
      assert Sum(ps, GrossAt(high)) == 0;
      NetWithinGross(ps, high, |ps|);
      ActiveStep(ps, high, |ps|);
    }
  }

  // ---------------------------------------------------------------- the history of growth

  /** Global growth of a channel by `growth` per unit of liquidity while the pool stood at `tick`. */
  datatype Accrual = Accrual(channel: Channel, tick: int, growth: nat)

  function GrowthOf(e: Accrual, c: Channel, lower: int, upper: int): nat {
    if e.channel == c && lower <= e.tick < upper then e.growth else 0
  }

  /** The growth of a channel accrued exactly while lower <= current tick < upper. */
  function InsideHistory(h: seq<Accrual>, c: Channel, lower: int, upper: int): nat {
    if |h| == 0 then 0 else InsideHistory(h[..|h| - 1], c, lower, upper) + GrowthOf(h[|h| - 1], c, lower, upper)
  }

  lemma HistoryAppend(h: seq<Accrual>, from: nat, e: Accrual, c: Channel, lower: int, upper: int)
    requires from <= |h|
    ensures InsideHistory((h + [e])[from..], c, lower, upper)
         == InsideHistory(h[from..], c, lower, upper) + GrowthOf(e, c, lower, upper)
  {
    var s := (h + [e])[from..];
    assert s[..|s| - 1] == h[from..];
  }

  lemma {:induction false} HistoryConcat(h1: seq<Accrual>, h2: seq<Accrual>, c: Channel, lower: int, upper: int)
    ensures InsideHistory(h1 + h2, c, lower, upper)
        == InsideHistory(h1, c, lower, upper) + InsideHistory(h2, c, lower, upper)
  {
    if |h2| == 0 {
      assert h1 + h2 == h1;
    } else {
      HistoryConcat(h1, h2[..|h2| - 1], c, lower, upper);
      assert (h1 + h2)[..|h1 + h2| - 1] == h1 + h2[..|h2| - 1];
    }
  }

  /** Adjacent ranges add up in the history, as they do in the tick manager. */
  lemma {:induction false} HistoryAdjacent(h: seq<Accrual>, c: Channel, a: int, b: int, d: int)
    requires a <= b <= d
    ensures InsideHistory(h, c, a, d) == InsideHistory(h, c, a, b) + InsideHistory(h, c, b, d)
  {
    if |h| > 0 {
      HistoryAdjacent(h[..|h| - 1], c, a, b, d);
    }
  }

  // ---------------------------------------------------------------- claims on the vaults

  datatype Token = TokenA | TokenB

  function FeeChannel(token: Token): Channel {
    if token.TokenA? then FeeA else FeeB
  }

  const Q: real := TWO_64 as real

  /** n times d by repeated addition, which keeps sums of claims linear. */
  function Times(n: int, d: real): real
    decreases if n < 0 then -n else n
  {
    if n == 0 then 0.0 else if n > 0 then Times(n - 1, d) + d else Times(n + 1, d) - d
  }

  lemma {:induction false} TimesIsProduct(n: int, d: real)
    ensures Times(n, d) == (n as real) * d
    decreases if n < 0 then -n else n
  {
    if n > 0 {
      TimesIsProduct(n - 1, d);
      assert ((n - 1) as real) * d == (n as real) * d - d;
    } else if n < 0 {
      TimesIsProduct(n + 1, d);
      assert ((n + 1) as real) * d == (n as real) * d + d;
    }
  }

  lemma {:induction false} TimesAdd(a: int, b: int, d: real)
    ensures Times(a + b, d) == Times(a, d) + Times(b, d)
    decreases if b < 0 then -b else b
  {
    if b > 0 {
      TimesAdd(a, b - 1, d);
    } else if b < 0 {
      TimesAdd(a, b + 1, d);
    }
  }

  lemma {:induction false} TimesSum(n: int, d: real, e: real)
    ensures Times(n, d + e) == Times(n, d) + Times(n, e)
    decreases if n < 0 then -n else n
  {
    if n > 0 {
      TimesSum(n - 1, d, e);
    } else if n < 0 {
      TimesSum(n + 1, d, e);
    }
  }

  lemma {:induction false} TimesMonotone(n: nat, d: real, e: real)
    requires d <= e
    ensures Times(n, d) <= Times(n, e)
    ensures Times(n, 0.0) == 0.0
  {
    if n > 0 {
      TimesMonotone(n - 1, d, e);
    }
  }

  /** 2^128 over the price: what added up price times makes 2^128. */
  ghost function Inverse(price: nat): real
    requires price > 0
  {
    InverseExists(price);
    var r: real :| Times(price, r) == Q * Q;
    r
  }

  lemma InverseExists(price: nat)
    requires price > 0
    ensures exists r: real :: Times(price, r) == Q * Q
  {
    TimesIsProduct(price, Q * Q / price as real);
    assert Times(price, Q * Q / price as real) == Q * Q;
  }

  lemma InverseIsQuotient(price: nat)
    requires price > 0
    ensures Inverse(price) == Q * Q / price as real
  {
    TimesIsProduct(price, Inverse(price));
  }

  /**
   * A coordinate that grows with the price and in which the amount of a token that a price move takes, scaled by 2^64,
   * is linear: the square-root price itself for B, its negated inverse for A.
   */
  ghost function Coord(token: Token, price: nat): real {
    if token.TokenB? then price as real
    else if price == 0 then 0.0
    else -Inverse(price)
  }

  function Clamp(x: real, low: real, high: real): real {
    if x < low then low else if x > high then high else x
  }

  /** What a position's liquidity is worth in one token at price coordinate x, scaled by 2^64 and unrounded. */
  function Value(token: Token, liquidity: nat, low: real, high: real, x: real): real {
    if token.TokenA? then Times(liquidity, high - Clamp(x, low, high))
    else Times(liquidity, Clamp(x, low, high) - low)
  }

  ghost function LowCoord(price: int -> u128, token: Token, p: Position): real { Coord(token, price(p.tickLowerIndex)) }

  ghost function HighCoord(price: int -> u128, token: Token,
                           p: Position): real { Coord(token, price(p.tickUpperIndex)) }

  /** Growth since the checkpoint that a position has not been credited with yet. */
  function Pending(p: Position, since: nat, h: seq<Accrual>, c: Channel): nat
    requires since <= |h|
  {
    InsideHistory(h[since..], c, p.tickLowerIndex, p.tickUpperIndex)
  }

  /** Everything one position may still take out of a vault: principal, uncredited fees and credited fees. */
  ghost function Claim(price: int -> u128, token: Token, p: Position, pending: nat, x: real): real {
    Value(token, p.liquidity, LowCoord(price, token, p), HighCoord(price, token, p), x)
    + Times(p.liquidity, pending as real)
    + Q * (Owed(p, FeeChannel(token)) as real)
  }

  predicate Dated(ps: seq<Position>, since: seq<nat>, h: seq<Accrual>) {
    |since| == |ps| && forall i :: 0 <= i < |since| ==> since[i] <= |h|
  }

  /** The claim of every position, in order. */
  ghost function ClaimSeq(price: int -> u128, token: Token, ps: seq<Position>, since: seq<nat>, h: seq<Accrual>,
                          x: real): (r: seq<real>)
    requires Dated(ps, since, h)
    ensures |r| == |ps|
  {
    seq(|ps|, i requires 0 <= i < |ps| && Dated(ps, since, h) =>
      Claim(price, token, ps[i], Pending(ps[i], since[i], h, FeeChannel(token)), x))
  }

  function RealSum(c: seq<real>, n: nat): real
    requires n <= |c|
  {
    if n == 0 then 0.0 else RealSum(c, n - 1) + c[n - 1]
  }

  /** All claims on one vault together. */
  ghost function Claims(price: int -> u128, token: Token, ps: seq<Position>, since: seq<nat>, h: seq<Accrual>,
                        x: real): real
    requires Dated(ps, since, h)
  {
    RealSum(ClaimSeq(price, token, ps, since, h, x), |ps|)
  }

  lemma {:induction false} RealSumUpdate(c: seq<real>, i: nat, v: real, n: nat)
    requires i < |c| && n <= |c|
    ensures RealSum(c[i := v], n) == RealSum(c, n) + if i < n then v - c[i] else 0.0
  {
    if n > 0 {
      RealSumUpdate(c, i, v, n - 1);
    }
  }

  lemma {:induction false} RealSumPrefix(c: seq<real>, v: real, n: nat)
    requires n <= |c|
    ensures RealSum(c + [v], n) == RealSum(c, n)
  {
    if n > 0 {
      RealSumPrefix(c, v, n - 1);
    }
  }

  lemma {:induction false} RealSumContains(c: seq<real>, i: nat, n: nat)
    requires n <= |c| && forall k :: 0 <= k < |c| ==> c[k] >= 0.0
    ensures 0.0 <= RealSum(c, n)
    ensures i < n ==> c[i] <= RealSum(c, n)
  {
    if n > 0 {
      RealSumContains(c, i, n - 1);
    }
  }

  /** If every entry changes by its weight times d, the sum changes by the total weight times d. */
  lemma {:induction false} WeightedChange(c0: seq<real>, c1: seq<real>, ps: seq<Position>, m: Measure, d: real, n: nat)
    requires |c0| == |c1| == |ps| && n <= |ps|
    requires forall i :: 0 <= i < |ps| ==> c1[i] == c0[i] + Times(Weight(m, ps[i]), d)
    ensures RealSum(c1, n) == RealSum(c0, n) + Times(SumUpTo(ps, m, n), d)
  {
    if n > 0 {
      WeightedChange(c0, c1, ps, m, d, n - 1);
      TimesAdd(SumUpTo(ps, m, n - 1), Weight(m, ps[n - 1]), d);
    }
  }

  /** The price can move from x to y at `tick` without leaving or entering this position's range. */
  predicate Unbroken(tick: int, p: Position, low: real, high: real, x: real, y: real) {
    p.liquidity > 0 ==>
      if InRange(p, tick) then low <= x <= high && low <= y <= high
      else (x <= low && y <= low) || (high <= x && high <= y)
  }

  /** The gain of one unit of active liquidity when the price coordinate moves from x to y. */
  function Gain(token: Token, x: real, y: real): real {
    if token.TokenA? then x - y else y - x
  }

  lemma ValueMove(token: Token, p: Position, tick: int, low: real, high: real, x: real, y: real)
    requires low <= high && Unbroken(tick, p, low, high, x, y)
    ensures Value(token, p.liquidity, low, high, y)
         == Value(token, p.liquidity, low, high, x) + Times(Weight(ActiveAt(tick), p), Gain(token, x, y))
  {
    if p.liquidity > 0 && InRange(p, tick) {
      if token.TokenA? {
        TimesSum(p.liquidity, high - x, x - y);
        assert high - y == high - x + (x - y);
      } else {
        TimesSum(p.liquidity, x - low, y - x);
        assert y - low == x - low + (y - x);
      }
    }
  }

  lemma ClaimMove(price: int -> u128, token: Token, p: Position, pending: nat, tick: int, x: real, y: real)
    requires LowCoord(price, token, p) <= HighCoord(price, token, p)
    requires Unbroken(tick, p, LowCoord(price, token, p), HighCoord(price, token, p), x, y)
    ensures Claim(price, token, p, pending, y)
         == Claim(price, token, p, pending, x) + Times(Weight(ActiveAt(tick), p), Gain(token, x, y))
  {
    ValueMove(token, p, tick, LowCoord(price, token, p), HighCoord(price, token, p), x, y);
  }

  ghost predicate AllUnbroken(price: int -> u128, token: Token, ps: seq<Position>, tick: int, x: real, y: real) {
    forall i :: 0 <= i < |ps| ==>
      && LowCoord(price, token, ps[i]) <= HighCoord(price, token, ps[i])
      && Unbroken(tick, ps[i], LowCoord(price, token, ps[i]), HighCoord(price, token, ps[i]), x, y)
  }

  /** Under an unbroken move all positions together gain or lose what the active liquidity does. */
  lemma ClaimsMove(price: int -> u128, token: Token, ps: seq<Position>, since: seq<nat>, h: seq<Accrual>,
                   tick: int, x: real, y: real)
    requires Dated(ps, since, h) && AllUnbroken(price, token, ps, tick, x, y)
    ensures Claims(price, token, ps, since, h, y)
         == Claims(price, token, ps, since, h, x) + Times(Sum(ps, ActiveAt(tick)), Gain(token, x, y))
  {
    var c0, c1 := ClaimSeq(price, token, ps, since, h, x), ClaimSeq(price, token, ps, since, h, y);
    forall i | 0 <= i < |ps|
      ensures c1[i] == c0[i] + Times(Weight(ActiveAt(tick), ps[i]), Gain(token, x, y))
    {
      ClaimMove(price, token, ps[i], Pending(ps[i], since[i], h, FeeChannel(token)), tick, x, y);
    }
    WeightedChange(c0, c1, ps, ActiveAt(tick), Gain(token, x, y), |ps|);
  }

  lemma ClaimAccrue(price: int -> u128, token: Token, p: Position, since: nat, h: seq<Accrual>, x: real, e: Accrual)
    requires since <= |h| && e.channel == FeeChannel(token)
    ensures Claim(price, token, p, Pending(p, since, h + [e], FeeChannel(token)), x)
         == Claim(price, token, p, Pending(p, since, h, FeeChannel(token)), x)
            + Times(Weight(ActiveAt(e.tick), p), e.growth as real)
  {
    var c := FeeChannel(token);
    HistoryAppend(h, since, e, c, p.tickLowerIndex, p.tickUpperIndex);
    TimesSum(p.liquidity, Pending(p, since, h, c) as real, GrowthOf(e, c, p.tickLowerIndex, p.tickUpperIndex) as real);
    TimesMonotone(p.liquidity, 0.0, 0.0);
  }

  /** A fee accrual at `tick` adds to all claims together what it adds per unit times the active liquidity. */
  lemma ClaimsAccrue(price: int -> u128, token: Token, ps: seq<Position>, since: seq<nat>, h: seq<Accrual>,
                     x: real, e: Accrual)
    requires Dated(ps, since, h) && e.channel == FeeChannel(token)
    ensures Dated(ps, since, h + [e])
    ensures Claims(price, token, ps, since, h + [e], x)
         == Claims(price, token, ps, since, h, x) + Times(Sum(ps, ActiveAt(e.tick)), e.growth as real)
  {
    var c0, c1 := ClaimSeq(price, token, ps, since, h, x), ClaimSeq(price, token, ps, since, h + [e], x);
    forall i | 0 <= i < |ps|
      ensures c1[i] == c0[i] + Times(Weight(ActiveAt(e.tick), ps[i]), e.growth as real)
    {
      ClaimAccrue(price, token, ps[i], since[i], h, x, e);
    }
    WeightedChange(c0, c1, ps, ActiveAt(e.tick), e.growth as real, |ps|);
  }

  /** Growth of any other channel leaves the claims on a vault alone. */
  lemma ClaimsIgnore(price: int -> u128, token: Token, ps: seq<Position>, since: seq<nat>, h: seq<Accrual>,
                     x: real, e: Accrual)
    requires Dated(ps, since, h) && e.channel != FeeChannel(token)
    ensures Dated(ps, since, h + [e])
    ensures Claims(price, token, ps, since, h + [e], x) == Claims(price, token, ps, since, h, x)
  {
    forall i | 0 <= i < |ps|
      ensures Pending(ps[i], since[i], h + [e], FeeChannel(token)) == Pending(ps[i], since[i], h, FeeChannel(token))
    {
      HistoryAppend(h, since[i], e, FeeChannel(token), ps[i].tickLowerIndex, ps[i].tickUpperIndex);
    }
    assert ClaimSeq(price, token, ps, since, h + [e], x) == ClaimSeq(price, token, ps, since, h, x);
  }

  /** Changing one position changes the sum of claims by the change of its own claim. */
  lemma ClaimsUpdate(price: int -> u128, token: Token, ps: seq<Position>, since: seq<nat>, h: seq<Accrual>,
                     x: real, i: nat, p: Position, s: nat)
    requires Dated(ps, since, h) && i < |ps| && s <= |h|
    ensures Dated(ps[i := p], since[i := s], h)
    ensures Claims(price, token, ps[i := p], since[i := s], h, x)
         == Claims(price, token, ps, since, h, x)
            + Claim(price, token, p, Pending(p, s, h, FeeChannel(token)), x)
            - Claim(price, token, ps[i], Pending(ps[i], since[i], h, FeeChannel(token)), x)
  {
    var c := ClaimSeq(price, token, ps, since, h, x);
    var v := Claim(price, token, p, Pending(p, s, h, FeeChannel(token)), x);
    assert ClaimSeq(price, token, ps[i := p], since[i := s], h, x) == c[i := v];
    RealSumUpdate(c, i, v, |ps|);
  }

  lemma ClaimsAppend(price: int -> u128, token: Token, ps: seq<Position>, since: seq<nat>, h: seq<Accrual>,
                     x: real, p: Position, s: nat)
    requires Dated(ps, since, h) && s <= |h|
    ensures Dated(ps + [p], since + [s], h)
    ensures Claims(price, token, ps + [p], since + [s], h, x)
         == Claims(price, token, ps, since, h, x) + Claim(price, token, p, Pending(p, s, h, FeeChannel(token)), x)
  {
    var c := ClaimSeq(price, token, ps, since, h, x);
    var v := Claim(price, token, p, Pending(p, s, h, FeeChannel(token)), x);
    assert ClaimSeq(price, token, ps + [p], since + [s], h, x) == c + [v];
    RealSumPrefix(c, v, |ps|);
  }

  lemma {:induction false} RealSumRemove(c: seq<real>, i: nat, n: nat)
    requires i < |c| && n < |c|
    ensures RealSum(Removed(c, i), n) == if n <= i then RealSum(c, n) else RealSum(c, n + 1) - c[i]
  {
    if n > 0 {
      RealSumRemove(c, i, n - 1);
    }
  }

  lemma ClaimsRemove(price: int -> u128, token: Token, ps: seq<Position>, since: seq<nat>, h: seq<Accrual>, x: real,
                     i: nat)
    requires Dated(ps, since, h) && i < |ps|
    ensures Dated(Removed(ps, i), Removed(since, i), h)
    ensures Claims(price, token, Removed(ps, i), Removed(since, i), h, x)
         == Claims(price, token, ps, since, h, x)
             - Claim(price, token, ps[i], Pending(ps[i], since[i], h, FeeChannel(token)), x)
  {
    hide Claim, Pending;
    var c := ClaimSeq(price, token, ps, since, h, x);
    assert ClaimSeq(price, token, Removed(ps, i), Removed(since, i), h, x) == Removed(c, i);
    RealSumRemove(c, i, |ps| - 1);
  }

  /** No claim is negative, so each is at most the sum of all. */
  lemma ClaimsContain(price: int -> u128, token: Token, ps: seq<Position>, since: seq<nat>, h: seq<Accrual>, x: real,
                      i: nat)
    requires Dated(ps, since, h)
    requires forall k :: 0 <= k < |ps| ==> LowCoord(price, token, ps[k]) <= HighCoord(price, token, ps[k])
    ensures 0.0 <= Claims(price, token, ps, since, h, x)
    ensures i < |ps| ==> Claim(price, token, ps[i], Pending(ps[i], since[i], h, FeeChannel(token)), x)
                         <= Claims(price, token, ps, since, h, x)
  {
    var c := ClaimSeq(price, token, ps, since, h, x);
    forall k | 0 <= k < |ps|
      ensures c[k] >= 0.0
    {
      ClaimNonNegative(price, token, ps[k], Pending(ps[k], since[k], h, FeeChannel(token)), x);
    }
    RealSumContains(c, i, |ps|);
  }

  lemma ClaimNonNegative(price: int -> u128, token: Token, p: Position, pending: nat, x: real)
    requires LowCoord(price, token, p) <= HighCoord(price, token, p)
    ensures 0.0 <= Value(token, p.liquidity, LowCoord(price, token, p), HighCoord(price, token, p), x)
    ensures 0.0 <= Times(p.liquidity, pending as real)
    ensures 0.0 <= Claim(price, token, p, pending, x)
  {
    var low, high := LowCoord(price, token, p), HighCoord(price, token, p);
    TimesMonotone(p.liquidity, 0.0, high - Clamp(x, low, high));
    TimesMonotone(p.liquidity, 0.0, Clamp(x, low, high) - low);
    TimesMonotone(p.liquidity, 0.0, pending as real);
  }

  // ---------------------------------------------------------------- amounts against exact values

  lemma CoordMonotone(token: Token, a: nat, b: nat)
    requires 0 < a <= b
    ensures Coord(token, a) <= Coord(token, b)
  {
    if token.TokenA? {
      InverseIsQuotient(a);
      InverseIsQuotient(b);
      InverseMonotone(Q * Q, a as real, b as real);
    }
  }

  lemma InverseMonotone(k: real, a: real, b: real)
    requires 0.0 < a <= b && 0.0 <= k
    ensures k / b <= k / a
  {
    var x, y := k / a, k / b;
    assert x * a == k && y * b == k && x >= 0.0;
    assert x * b >= x * a;
    ScaledCompare(y, x, b);
  }

  /** The unrounded amount of a token, scaled by 2^64, that a liquidity moves between two prices. */
  ghost function Exact(token: Token, liquidity: nat, low: nat, high: nat): real {
    Times(liquidity, Coord(token, high) - Coord(token, low))
  }

  function TokenAmount(token: Token, liquidity: nat, low: nat, high: nat, roundUp: bool): nat
    requires low > 0 && high > 0
  {
    if token.TokenA? then PM.GetTokenAFromLiquidity(liquidity, low, high, roundUp)
    else PM.GetTokenBFromLiquidity(liquidity, low, high, roundUp)
  }

  /** Amounts rounded up cover the exact amount; amounts rounded down stay within it. */
  lemma AmountCoversExact(token: Token, liquidity: nat, low: nat, high: nat)
    requires 0 < low <= high
    ensures Exact(token, liquidity, low, high) <= Q * (TokenAmount(token, liquidity, low, high, true) as real)
    ensures Q * (TokenAmount(token, liquidity, low, high, false) as real) <= Exact(token, liquidity, low, high)
  {
    if token.TokenA? {
      ExactA(liquidity, low, high);
    } else {
      ExactB(liquidity, low, high);
    }
  }

  lemma ExactB(liquidity: nat, low: nat, high: nat)
    requires 0 < low <= high
    ensures Exact(TokenB, liquidity, low, high) <= Q * (PM.GetTokenBFromLiquidity(liquidity, low, high, true) as real)
    ensures Q * (PM.GetTokenBFromLiquidity(liquidity, low, high, false) as real) <= Exact(TokenB, liquidity, low, high)
  {
    var n := liquidity * (high - low);
    PM.MulNonNegative(liquidity, high - low);
    CeilGalois(n, TWO_64, CeilDiv(n, TWO_64));
    FloorGalois(n, TWO_64, n / TWO_64);
    CastProduct(liquidity, high - low);
    TimesIsProduct(liquidity, (high - low) as real);
  }

  lemma CastProduct(x: int, y: int)
    ensures (x * y) as real == (x as real) * (y as real)
  {
  }

  /** (k/l - k/h) * (h * l) == k * (h - l). */
  lemma DifferenceOfInverses(k: real, l: real, h: real)
    requires l > 0.0 && h > 0.0
    ensures (k / l - k / h) * (h * l) == k * (h - l)
  {
    var x, y := k / l, k / h;
    assert x * l == k && y * h == k;
    assert (x - y) * (h * l) == (x * l) * h - (y * h) * l;
  }

  lemma ExactATimesDenominator(liquidity: nat, low: nat, high: nat)
    requires 0 < low <= high
    ensures Exact(TokenA, liquidity, low, high) * ((high * low) as real)
         == Q * ((liquidity * (high - low) * TWO_64) as real)
  {
    var l, h, w := low as real, high as real, liquidity as real;
    TimesIsProduct(liquidity, Coord(TokenA, high) - Coord(TokenA, low));
    InverseIsQuotient(low);
    InverseIsQuotient(high);
    DifferenceOfInverses(Q * Q, l, h);
    CastProduct(high, low);
    CastProduct(liquidity, high - low);
    CastProduct(liquidity * (high - low), TWO_64);
    var g := Q * Q / l - Q * Q / h;
    assert w * g * (h * l) == w * (g * (h * l));
    assert w * (Q * Q * (h - l)) == Q * (w * (h - l) * Q);
  }

  lemma ScaledCompare(a: real, b: real, d: real)
    requires d > 0.0 && a * d <= b * d
    ensures a <= b
  {
  }

  /** An integer bound on a quotient as a bound on the real it rounds. */
  lemma QuotientBound(e: real, n: nat, d: nat, x: nat)
    requires d > 0 && e * (d as real) == Q * (n as real)
    ensures n <= x * d ==> e <= Q * (x as real)
    ensures x * d <= n ==> Q * (x as real) <= e
  {
    CastProduct(x, d);
    var y, r := Q * (x as real), d as real;
    assert y * r == Q * ((x * d) as real);
    if n <= x * d {
      ScaledCompare(e, y, r);
    }
    if x * d <= n {
      ScaledCompare(y, e, r);
    }
  }

  lemma ExactA(liquidity: nat, low: nat, high: nat)
    requires 0 < low <= high
    ensures Exact(TokenA, liquidity, low, high) <= Q * (PM.GetTokenAFromLiquidity(liquidity, low, high, true) as real)
    ensures Q * (PM.GetTokenAFromLiquidity(liquidity, low, high, false) as real) <= Exact(TokenA, liquidity, low, high)
  {
    PM.MulPositive(high, low);
    PM.MulNonNegative(liquidity, high - low);
    ExactATimesDenominator(liquidity, low, high);
    ExactQuotient(Exact(TokenA, liquidity, low, high), liquidity * (high - low) * TWO_64, high * low);
  }

  lemma ExactQuotient(e: real, n: nat, d: nat)
    requires d > 0 && e * (d as real) == Q * (n as real)
    ensures e <= Q * (CeilDiv(n, d) as real) && Q * ((n / d) as real) <= e
  {
    CeilGalois(n, d, CeilDiv(n, d));
    FloorGalois(n, d, n / d);
    QuotientBound(e, n, d, CeilDiv(n, d));
    QuotientBound(e, n, d, n / d);
  }

  lemma StrictQuotientBound(e: real, n: nat, d: nat, x: int)
    requires d > 0 && e * (d as real) == Q * (n as real)
    ensures n < x * d ==> e < Q * (x as real)
    ensures x * d < n ==> Q * (x as real) < e
  {
    CastProduct(x, d);
    var y, r := Q * (x as real), d as real;
    assert y * r == Q * ((x * d) as real);
    if n < x * d && y <= e {
      ScaledOrder(y, e, r);
    }
    if x * d < n && e <= y {
      ScaledOrder(e, y, r);
    }
  }

  lemma ScaledOrder(a: real, b: real, d: real)
    requires d > 0.0 && a <= b
    ensures a * d <= b * d
  {
  }

  /** Exact, as a fraction. */
  lemma ExactIsFraction(token: Token, liquidity: nat, low: nat, high: nat) returns (n: nat, d: nat)
    requires 0 < low <= high
    ensures d > 0 && Exact(token, liquidity, low, high) * (d as real) == Q * (n as real)
    ensures TokenAmount(token, liquidity, low, high, true) == CeilDiv(n, d)
    ensures TokenAmount(token, liquidity, low, high, false) == n / d
  {
    PM.MulPositive(high, low);
    PM.MulNonNegative(liquidity, high - low);
    if token.TokenA? {
      ExactATimesDenominator(liquidity, low, high);
      n, d := liquidity * (high - low) * TWO_64, high * low;
    } else {
      CastProduct(liquidity, high - low);
      TimesIsProduct(liquidity, (high - low) as real);
      n, d := liquidity * (high - low), TWO_64;
    }
  }

  /** Amounts are the exact amount rounded up or down to whole tokens: off by less than one. */
  lemma AmountIsRounded(token: Token, liquidity: nat, low: nat, high: nat)
    requires 0 < low <= high
    ensures var up: int := TokenAmount(token, liquidity, low, high, true);
            Q * ((up - 1) as real) < Exact(token, liquidity, low, high) <= Q * (up as real)
    ensures var down := TokenAmount(token, liquidity, low, high, false);
            Q * (down as real) <= Exact(token, liquidity, low, high) < Q * ((down + 1) as real)
  {
    AmountCoversExact(token, liquidity, low, high);
    var n, d := ExactIsFraction(token, liquidity, low, high);
    hide *;
    OffByLessThanOne(Exact(token, liquidity, low, high), n, d);
  }

  lemma OffByLessThanOne(e: real, n: nat, d: nat)
    requires d > 0 && e * (d as real) == Q * (n as real)
    ensures var up: int := CeilDiv(n, d); Q * ((up - 1) as real) < e
    ensures var down := n / d; e < Q * ((down + 1) as real)
  {
    var up: int, down: int := CeilDiv(n, d), n / d;
    CeilBounds(n, d);
    FloorGalois(n, d, down + 1);
    assert (up - 1) * d < n by { Distribute(up, -1, d); }
    hide *;
    StrictQuotientBound(e, n, d, up - 1);
    StrictQuotientBound(e, n, d, down + 1);
  }
}
