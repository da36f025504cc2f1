/** getSplitPercentageAmts of sdk/src/router/quote-map.ts, and what flooring each part costs a whole route. */
module SplitAmounts {
  import opened Numbers
  import opened Router

  /** The part of a trade that `percent` of it comes to. */
  function SplitAmount(trade: nat, percent: nat): nat { trade * percent / 100 }

  /** The loop's condition on its counter. */
  predicate Taken(i: nat, minPercent: real)
    requires minPercent != 0.0
  {
    i as real <= 100.0 / minPercent
  }

  /** How many multiples of a step, which may be fractional or negative, the loop takes. */
  function Steps(minPercent: real): (n: nat)
    requires minPercent != 0.0
    ensures forall i: nat :: 1 <= i ==> (Taken(i, minPercent) <==> i <= n)
  {
    if minPercent > 0.0 then
      PositiveQuotient(minPercent);
      (100.0 / minPercent).Floor
    else
      NegativeQuotient(minPercent);
      0
  }

  lemma PositiveQuotient(d: real)
    requires d > 0.0
    ensures 100.0 / d >= 0.0
  {
    var x := 100.0 / d;
    assert x * d == 100.0;
  }

  lemma NegativeQuotient(d: real)
    requires d < 0.0
    ensures 100.0 / d < 0.0
  {
    var x := 100.0 / d;
    assert x * d == 100.0;
  }

  function Multiple(i: nat, minPercent: real): real { i as real * minPercent }

  /**
   * All multiples of minPercent up to 100, with the parts of the trade that they stand for; a fractional percentage is
   * truncated before it is applied. The source would loop for ever on a step of zero.
   */
  method GetSplitPercentageAmts(trade: nat, minPercent: real) returns (percents: seq<real>, amounts: seq<nat>)
    requires minPercent != 0.0
    ensures |percents| == |amounts| == Steps(minPercent)
    ensures forall k :: 0 <= k < |percents| ==> percents[k] == Multiple(k + 1, minPercent) && percents[k].Floor >= 0
    ensures forall k :: 0 <= k < |amounts| ==> amounts[k] == SplitAmount(trade, percents[k].Floor)
  {
    hide Multiple, SplitAmount, Steps, Taken;
    percents, amounts := [], [];
    var i: nat := 1;
    while Taken(i, minPercent)
      invariant 1 <= i <= Steps(minPercent) + 1 && |percents| == |amounts| == i - 1
      invariant forall k :: 0 <= k < |percents| ==> percents[k] == Multiple(k + 1, minPercent) && percents[k].Floor >= 0
      invariant forall k :: 0 <= k < |amounts| ==> amounts[k] == SplitAmount(trade, percents[k].Floor)
      decreases Steps(minPercent) - i
    {
      NonNegativeMultiple(i, minPercent);
      var percent := Multiple(i, minPercent);
      percents := percents + [percent];
      amounts := amounts + [SplitAmount(trade, percent.Floor)];
      i := i + 1;
    }
  }

  lemma NonNegativeMultiple(i: nat, minPercent: real)
    requires minPercent != 0.0 && 1 <= i && Taken(i, minPercent)
    ensures Multiple(i, minPercent) >= 0.0
  {
    if minPercent < 0.0 {
      NegativeQuotient(minPercent);
    }
  }

  function Percents(step: nat, n: nat): (r: seq<nat>)
    ensures |r| == n && forall i :: 0 <= i < n ==> r[i] == (i + 1) * step
  {
    seq(n, i requires 0 <= i => (i + 1) * step)
  }

  /** For a whole step the percentages are whole: the keys under which the quote map files its quotes. */
  lemma WholeSteps(step: nat)
    requires step > 0
    ensures Steps(step as real) == 100 / step
    ensures forall k: nat :: k < 100 / step ==> Multiple(k + 1, step as real) == Percents(step, 100 / step)[k] as real
  {
    CountWhole(step, step as real, Steps(step as real), 100 / step);
    forall k: nat | k < 100 / step
      ensures Multiple(k + 1, step as real) == Percents(step, 100 / step)[k] as real
    {
      IntegerProduct(k + 1, step);
    }
  }

  /** Two counts that admit the same multiples are the same. */
  lemma CountWhole(step: nat, d: real, n: nat, m: nat)
    requires step > 0 && d == step as real && m == 100 / step
    requires forall i: nat :: 1 <= i ==> (Taken(i, d) <==> i <= n)
    ensures n == m
  {
    TakenUpTo(n + 1, step);
    TakenUpTo(n, step);
    hide Taken;
    assert !Taken(n + 1, d) && (n >= 1 ==> Taken(n, d));
  }

  lemma TakenUpTo(i: nat, step: nat)
    requires step > 0
    ensures Taken(i, step as real) <==> i <= 100 / step
  {
    var d := step as real;
    Inverted(step);
    IntegerProduct(i, step);
    CancelScale(i as real, 100.0 / d, d, (i * step) as real, 100.0);
    FloorGalois(100, step, i);
  }

  lemma Inverted(step: nat)
    requires step > 0
    ensures 100.0 / (step as real) * (step as real) == 100.0
  {
  }

  lemma CancelScale(x: real, y: real, d: real, xd: real, yd: real)
    requires d > 0.0 && xd == x * d && yd == y * d
    ensures x <= y <==> xd <= yd
  {
    if x <= y {
      ScaleOrder(x, y, d);
    } else {
      ScaleOrder(y, x, d);
    }
  }

  lemma IntegerProduct(a: nat, b: nat)
    ensures a as real * b as real == (a * b) as real
  {
  }

  lemma ScaleOrder(x: real, y: real, d: real)
    requires d > 0.0 && x <= y
    ensures x * d <= y * d && (x < y ==> x * d < y * d)
  {
  }

  /** The side of a quote that the trade specifies. */
  function Specified(q: PathQuote, isInput: bool): nat { if isInput then q.amountIn else q.amountOut }

  function SpecifiedTotal(quotes: seq<PathQuote>, isInput: bool): nat { if isInput then SumIn(quotes)
      else SumOut(quotes) }

  lemma OneMorePart(trade: nat, percent: nat, more: nat, total: nat, n: nat)
    requires trade * percent - 99 * n <= 100 * total <= trade * percent
    ensures trade * (percent + more) - 99 * (n + 1) <= 100 * (total + SplitAmount(trade, more))
        <= trade * (percent + more)
  {
    Distribute(percent, more, trade);
    assert trade * more - 99 <= 100 * SplitAmount(trade, more) <= trade * more;
  }

  /** Flooring each part loses less than one unit a part. */
  lemma {:induction false} FlooringLoss(trade: nat, isInput: bool, quotes: seq<PathQuote>)
    requires forall q :: q in quotes ==> Specified(q, isInput) == SplitAmount(trade, q.splitPercent)
    ensures trade * SumPercent(quotes) - 99 * |quotes| <= 100 * SpecifiedTotal(quotes, isInput)
        <= trade * SumPercent(quotes)
  {
    hide SplitAmount;
    if |quotes| > 0 {
      var q, rest := quotes[|quotes| - 1], quotes[..|quotes| - 1];
      FlooringLoss(trade, isInput, rest);
      assert q in quotes;
      OneMorePart(trade, SumPercent(rest), q.splitPercent, SpecifiedTotal(rest, isInput), |rest|);
    }
  }

  /** A route of k parts that total 100 percent moves the whole trade but at most k - 1 units of its specified side. */
  lemma RouteAmountsAddUp(buckets: seq<Bucket>, maxSplits: int, sel: seq<nat>, trade: nat, isInput: bool)
    requires WellKeyed(buckets)
    requires sel in Enumerate(Flatten(buckets, |buckets|), maxSplits, [], 0)
    requires forall q :: q in Flatten(buckets, |buckets|) ==>
        Specified(q, isInput) == SplitAmount(trade, q.splitPercent)
    ensures var r := RouteOf(Flatten(buckets, |buckets|), sel);
            var total := if isInput then r.totalIn else r.totalOut;
            trade - (|r.quotes| - 1) <= total <= trade
  {
    var flat := Flatten(buckets, |buckets|);
    RoutesAreSplits(buckets, maxSplits, sel);
    RouteQuotes(flat, sel);
    FlooringLoss(trade, isInput, RouteOf(flat, sel).quotes);
  }
}
