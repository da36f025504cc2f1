/** sdk/src/router/convert-quote-map.ts: every way of splitting a trade over the quoted paths, found by backtracking. */
module Router {
  import opened Numbers

  /** A quote for sending `splitPercent` of a trade along one path, through the pools with these addresses. */
  datatype PathQuote = PathQuote(pools: seq<string>, splitPercent: nat, amountIn: nat, amountOut: nat, hops: nat)

  /** The quotes for one percentage, the key of the quote map. */
  datatype Bucket = Bucket(percent: nat, quotes: seq<PathQuote>)

  datatype InternalRoute = InternalRoute(quotes: seq<PathQuote>, splitPercent: nat, totalIn: nat, totalOut: nat)

  const NO_ROUTE := InternalRoute([], 0, 0, 0)

  // ---------------------------------------------------------------- the code's tests

  /** indexOf(part) !== -1 on strings. */
  predicate Occurs(part: string, whole: string) {
    exists k :: 0 <= k <= |whole| - |part| && OccursAt(part, whole, k)
  }

  predicate OccursAt(part: string, whole: string, k: int)
    requires 0 <= k <= |whole| - |part|
  {
    whole[k..k + |part|] == part
  }

  /**
   * The next quote shares a pool with an earlier one: some address of the next occurs in some address of the earlier.
   */
  predicate Reuses(next: PathQuote, earlier: PathQuote) {
    exists r1, r3 :: r1 in next.pools && r3 in earlier.pools && Occurs(r1, r3)
  }

  predicate ReusesAny(next: PathQuote, quotes: seq<PathQuote>) {
    exists r2 :: r2 in quotes && Reuses(next, r2)
  }

  // ---------------------------------------------------------------- selections

  /** The quotes of all buckets in the order the search tries them: the largest percentage first. */
  function Flatten(buckets: seq<Bucket>, n: nat): seq<PathQuote>
    requires n <= |buckets|
  {
    if n == 0 then [] else buckets[n - 1].quotes + Flatten(buckets, n - 1)
  }

  /**
   * A JavaScript object with integer keys lists them in ascending order; every quote is filed under its own percentage.
   */
  ghost predicate WellKeyed(buckets: seq<Bucket>) {
    && (forall i :: 0 <= i < |buckets| ==> buckets[i].percent > 0)
    && (forall i, j :: 0 <= i < j < |buckets| ==> buckets[i].percent < buckets[j].percent)
    && (forall i, k :: 0 <= i < |buckets| && 0 <= k < |buckets[i].quotes| ==>
        buckets[i].quotes[k].splitPercent == buckets[i].percent)
  }

  predicate InBounds(sel: seq<nat>, n: nat) {
    forall i :: 0 <= i < |sel| ==> sel[i] < n
  }

  /** The route that takes the candidates at the given positions, in that order. */
  function RouteOf(flat: seq<PathQuote>, sel: seq<nat>): InternalRoute
    requires InBounds(sel, |flat|)
  {
    if |sel| == 0 then NO_ROUTE else Add(RouteOf(flat, sel[..|sel| - 1]), flat[sel[|sel| - 1]])
  }

  function Add(r: InternalRoute, q: PathQuote): InternalRoute {
    InternalRoute(r.quotes + [q], r.splitPercent + q.splitPercent, r.totalIn + q.amountIn, r.totalOut + q.amountOut)
  }

  /** A way to split the whole trade: each candidate at most once, no pool reused, 100 percent, not too many parts. */
  ghost predicate IsSplit(flat: seq<PathQuote>, maxSplits: int, sel: seq<nat>) {
    && IsPartial(flat, sel)
    && RouteOf(flat, sel).splitPercent == 100
    && (maxSplits <= 0 || |sel| <= maxSplits)
  }

  ghost predicate IsPartial(flat: seq<PathQuote>, sel: seq<nat>) {
    && InBounds(sel, |flat|)
    && (forall i, j :: 0 <= i < j < |sel| ==> sel[i] < sel[j])
    && (forall i, j :: 0 <= i < j < |sel| ==> !Reuses(flat[sel[j]], flat[sel[i]]))
  }

  /** All splits that extend `prefix` with candidates from position `from` on, in the order of the search. */
  function Enumerate(flat: seq<PathQuote>, maxSplits: int, prefix: seq<nat>, from: nat): (r: seq<seq<nat>>)
    requires InBounds(prefix, |flat|)
    ensures forall s :: s in r ==> InBounds(s, |flat|)
    decreases |flat| - from, 1
  {
    if from >= |flat| then [] else Extend(flat, maxSplits, prefix, from) + Enumerate(flat, maxSplits, prefix, from + 1)
  }

  function Extend(flat: seq<PathQuote>, maxSplits: int, prefix: seq<nat>, at: nat): (r: seq<seq<nat>>)
    requires InBounds(prefix, |flat|) && at < |flat|
    ensures forall s :: s in r ==> InBounds(s, |flat|)
    decreases |flat| - at, 0
  {
    var route, q := RouteOf(flat, prefix), flat[at];
    if route.splitPercent + q.splitPercent > 100 || ReusesAny(q, route.quotes) then []
    else if route.splitPercent + q.splitPercent == 100 then [prefix + [at]]
    else if |prefix| + 1 != maxSplits then Enumerate(flat, maxSplits, prefix + [at], at + 1)
    else []
  }

  // ---------------------------------------------------------------- sound, complete and without repetition

  lemma {:induction false} RouteQuotes(flat: seq<PathQuote>, sel: seq<nat>)
    requires InBounds(sel, |flat|)
    ensures var r := RouteOf(flat, sel);
            |r.quotes| == |sel| && forall i :: 0 <= i < |sel| ==> r.quotes[i] == flat[sel[i]]
  {
    if |sel| > 0 {
      RouteQuotes(flat, sel[..|sel| - 1]);
    }
  }

  lemma RouteAppend(flat: seq<PathQuote>, sel: seq<nat>, at: nat)
    requires InBounds(sel, |flat|) && at < |flat|
    ensures RouteOf(flat, sel + [at]) == Add(RouteOf(flat, sel), flat[at])
  {
    assert (sel + [at])[..|sel|] == sel;
  }

  /** A longer route carries a larger percentage. */
  lemma {:induction false} PercentGrows(flat: seq<PathQuote>, sel: seq<nat>, n: nat)
    requires InBounds(sel, |flat|) && n <= |sel| && forall q :: q in flat ==> q.splitPercent > 0
    ensures RouteOf(flat, sel[..n]).splitPercent + (|sel| - n) <= RouteOf(flat, sel).splitPercent
    decreases |sel|
  {
    if n == |sel| {
      assert sel[..n] == sel;
    } else {
      var shorter := sel[..|sel| - 1];
      assert shorter[..n] == sel[..n];
      PercentGrows(flat, shorter, n);
    }
  }

  /** Adding one candidate keeps a partial split partial exactly when the code's test for reused pools passes. */
  lemma PartialAppend(flat: seq<PathQuote>, prefix: seq<nat>, at: nat)
    requires IsPartial(flat, prefix) && at < |flat| && forall i :: 0 <= i < |prefix| ==> prefix[i] < at
    ensures IsPartial(flat, prefix + [at]) <==> !ReusesAny(flat[at], RouteOf(flat, prefix).quotes)
  {
    RouteQuotes(flat, prefix);
    var sel := prefix + [at];
    if IsPartial(flat, sel) {
      forall r2 | r2 in RouteOf(flat, prefix).quotes
        ensures !Reuses(flat[at], r2)
      {
        var i :| 0 <= i < |prefix| && RouteOf(flat, prefix).quotes[i] == r2;
        assert sel[i] == prefix[i] && sel[|prefix|] == at;
      }
    }
    if !ReusesAny(flat[at], RouteOf(flat, prefix).quotes) {
      forall i, j | 0 <= i < j < |sel|
        ensures !Reuses(flat[sel[j]], flat[sel[i]])
      {
        if j == |prefix| {
          assert RouteOf(flat, prefix).quotes[i] in RouteOf(flat, prefix).quotes;
        }
      }
    }
  }

  ghost predicate Extends(sel: seq<nat>, prefix: seq<nat>, from: nat) {
    |prefix| < |sel| && sel[..|prefix|] == prefix && from <= sel[|prefix|]
  }

  /** A state of the search: a partial split that may still grow. */
  ghost predicate Searching(flat: seq<PathQuote>, maxSplits: int, prefix: seq<nat>, from: nat) {
    && IsPartial(flat, prefix)
    && (forall i :: 0 <= i < |prefix| ==> prefix[i] < from)
    && RouteOf(flat, prefix).splitPercent < 100
    && (maxSplits <= 0 || |prefix| < maxSplits)
    && forall q :: q in flat ==> q.splitPercent > 0
  }

  /** Sound and complete: the search emits a selection exactly when it is a split that extends the prefix. */
  lemma {:induction false} EnumerateExact(flat: seq<PathQuote>, maxSplits: int, prefix: seq<nat>, from: nat,
                                          sel: seq<nat>)
    requires Searching(flat, maxSplits, prefix, from)
    ensures sel in Enumerate(flat, maxSplits, prefix, from)
            <==> IsSplit(flat, maxSplits, sel) && Extends(sel, prefix, from)
    decreases |flat| - from, 1
  {
    if from < |flat| {
      ExtendExact(flat, maxSplits, prefix, from, sel);
      EnumerateExact(flat, maxSplits, prefix, from + 1, sel);
    }
  }

  /** Continuing with `at` means stopping there or continuing further on. */
  lemma LongerPrefix(flat: seq<PathQuote>, sel: seq<nat>, prefix: seq<nat>, at: nat)
    requires IsPartial(flat, sel)
    ensures var longer := prefix + [at];
            && (Extends(sel, prefix, at) && sel[|prefix|] == at <==> sel == longer || Extends(sel, longer, at + 1))
            && (sel == longer || Extends(sel, longer, at + 1) ==> |longer| <= |sel| && sel[..|longer|] == longer)
  {
    hide Reuses;
    var longer := prefix + [at];
    if Extends(sel, prefix, at) && sel[|prefix|] == at {
      assert sel[..|longer|] == longer;
      if |sel| == |longer| { assert sel == longer; }
    }
    if sel == longer { assert sel[..|prefix|] == prefix; }
    if Extends(sel, longer, at + 1) {
      assert sel[..|prefix|] == sel[..|longer|][..|prefix|];
      assert sel[|prefix|] == sel[..|longer|][|prefix|];
    }
  }

  /** A split that starts with `longer` passes every test the search makes of `longer`. */
  lemma SplitPasses(flat: seq<PathQuote>, maxSplits: int, sel: seq<nat>, longer: seq<nat>)
    requires IsSplit(flat, maxSplits, sel) && 0 < |longer| <= |sel| && sel[..|longer|] == longer
    requires forall q :: q in flat ==> q.splitPercent > 0
    ensures IsPartial(flat, longer) && RouteOf(flat, longer).splitPercent <= 100
    ensures sel != longer ==> RouteOf(flat, longer).splitPercent < 100 && |longer| != maxSplits
  {
    hide Reuses;
    PercentGrows(flat, sel, |longer|);
    assert forall i :: 0 <= i < |longer| ==> longer[i] == sel[i];
    if |sel| == |longer| { assert sel == longer; }
  }

  lemma {:induction false} ExtendExact(flat: seq<PathQuote>, maxSplits: int, prefix: seq<nat>, at: nat, sel: seq<nat>)
    requires Searching(flat, maxSplits, prefix, at) && at < |flat|
    ensures sel in Extend(flat, maxSplits, prefix, at)
            <==> IsSplit(flat, maxSplits, sel) && Extends(sel, prefix, at) && sel[|prefix|] == at
    decreases |flat| - at, 0
  {
    hide IsPartial, Extends, ReusesAny, Enumerate, RouteOf;
    var longer := prefix + [at];
    LongerStillSearches(flat, maxSplits, prefix, at);
    if Searching(flat, maxSplits, longer, at + 1) {
      EnumerateExact(flat, maxSplits, longer, at + 1, sel);
    }
    if IsSplit(flat, maxSplits, sel) {
      LongerPrefix(flat, sel, prefix, at);
      if sel == longer || Extends(sel, longer, at + 1) {
        SplitPasses(flat, maxSplits, sel, longer);
      }
    }
  }

  /** What the tests of Extend decide. */
  lemma LongerStillSearches(flat: seq<PathQuote>, maxSplits: int, prefix: seq<nat>, at: nat)
    requires Searching(flat, maxSplits, prefix, at) && at < |flat|
    ensures var longer, r, q := prefix + [at], RouteOf(flat, prefix), flat[at];
            && RouteOf(flat, longer).splitPercent == r.splitPercent + q.splitPercent
            && (IsPartial(flat, longer) <==> !ReusesAny(q, r.quotes))
            && (!ReusesAny(q, r.quotes) && r.splitPercent + q.splitPercent == 100 ==> IsSplit(flat, maxSplits, longer))
            && (!ReusesAny(q, r.quotes) && r.splitPercent + q.splitPercent < 100 && |prefix| + 1 != maxSplits
                ==> Searching(flat, maxSplits, longer, at + 1))
  {
    hide Reuses, ReusesAny;
    RouteAppend(flat, prefix, at);
    PartialAppend(flat, prefix, at);
    assert forall i :: 0 <= i < |prefix + [at]| ==> (prefix + [at])[i] < at + 1;
  }

  ghost predicate Distinct(list: seq<seq<nat>>) {
    forall i, j :: 0 <= i < j < |list| ==> list[i] != list[j]
  }

  lemma DistinctConcat(a: seq<seq<nat>>, b: seq<seq<nat>>)
    requires Distinct(a) && Distinct(b) && forall s :: s in a ==> s !in b
    ensures Distinct(a + b)
  {
    var c := a + b;
    forall i, j | 0 <= i < j < |c|
      ensures c[i] != c[j]
    {
      if i < |a| <= j { assert a[i] in a && b[j - |a|] in b; }
    }
  }

  /** No split is emitted twice. */
  lemma {:induction false} EnumerateDistinct(flat: seq<PathQuote>, maxSplits: int, prefix: seq<nat>, from: nat)
    requires Searching(flat, maxSplits, prefix, from)
    ensures Distinct(Enumerate(flat, maxSplits, prefix, from))
    decreases |flat| - from
  {
    hide IsPartial, ReusesAny;
    if from < |flat| {
      var longer := prefix + [from];
      LongerStillSearches(flat, maxSplits, prefix, from);
      if Searching(flat, maxSplits, longer, from + 1) {
        EnumerateDistinct(flat, maxSplits, longer, from + 1);
      }
      assert Searching(flat, maxSplits, prefix, from + 1);
      EnumerateDistinct(flat, maxSplits, prefix, from + 1);
      forall s | s in Extend(flat, maxSplits, prefix, from)
        ensures s !in Enumerate(flat, maxSplits, prefix, from + 1)
      {
        ExtendExact(flat, maxSplits, prefix, from, s);
        EnumerateExact(flat, maxSplits, prefix, from + 1, s);
      }
      DistinctConcat(Extend(flat, maxSplits, prefix, from), Enumerate(flat, maxSplits, prefix, from + 1));
    }
  }

  /** The whole search emits every split of the trade exactly once and nothing else. */
  lemma SplitsExactlyOnce(flat: seq<PathQuote>, maxSplits: int)
    requires forall q :: q in flat ==> q.splitPercent > 0
    ensures forall sel :: sel in Enumerate(flat, maxSplits, [], 0) <==> IsSplit(flat, maxSplits, sel)
    ensures Distinct(Enumerate(flat, maxSplits, [], 0))
  {
    forall sel
      ensures sel in Enumerate(flat, maxSplits, [], 0) <==> IsSplit(flat, maxSplits, sel)
    {
      EnumerateExact(flat, maxSplits, [], 0, sel);
    }
    EnumerateDistinct(flat, maxSplits, [], 0);
  }

  // ---------------------------------------------------------------- the backtracking search

  /** The array that the search pushes its routes into. */
  class RouteList {
    var routes: seq<InternalRoute>

    constructor ()
      ensures routes == []
    {
      routes := [];
    }

    method Push(r: InternalRoute)
      modifies this
      ensures routes == old(routes) + [r]
    {
      routes := routes + [r];
    }
  }

  function RoutesOf(flat: seq<PathQuote>, sels: seq<seq<nat>>): seq<InternalRoute>
    requires forall s :: s in sels ==> InBounds(s, |flat|)
  {
    if |sels| == 0 then [] else [RouteOf(flat, sels[0])] + RoutesOf(flat, sels[1..])
  }

  lemma {:induction false} RoutesConcat(flat: seq<PathQuote>, a: seq<seq<nat>>, b: seq<seq<nat>>)
    requires forall s :: s in a || s in b ==> InBounds(s, |flat|)
    ensures forall s :: s in a + b ==> InBounds(s, |flat|)
    ensures RoutesOf(flat, a + b) == RoutesOf(flat, a) + RoutesOf(flat, b)
  {
    if |a| == 0 {
      assert a + b == b;
    } else {
      assert (a + b)[1..] == a[1..] + b;
      RoutesConcat(flat, a[1..], b);
    }
  }

  /** A whole bucket that would exceed 100 percent contributes nothing. */
  lemma {:induction false} SkipHeavy(flat: seq<PathQuote>, maxSplits: int, prefix: seq<nat>, from: nat, to: nat)
    requires InBounds(prefix, |flat|) && from <= to <= |flat|
    requires forall k :: from <= k < to ==> RouteOf(flat, prefix).splitPercent + flat[k].splitPercent > 100
    ensures Enumerate(flat, maxSplits, prefix, from) == Enumerate(flat, maxSplits, prefix, to)
    decreases |flat| - from
  {
    if from < to {
      SkipHeavy(flat, maxSplits, prefix, from + 1, to);
    }
  }

  /** Where the search stands: its candidate lists are what is left of the flat list from `from` on. */
  ghost predicate Aligned(flat: seq<PathQuote>, from: nat, buckets: seq<Bucket>, n: nat, current: InternalRoute) {
    && WellKeyed(buckets) && n <= |buckets| && from <= |flat|
    && flat[from..] == Flatten(buckets, n)
    && forall i :: 0 <= i < |buckets| ==>
         (n <= i <==> |current.quotes| > 0 && buckets[i].percent > current.quotes[|current.quotes| - 1].splitPercent)
  }

  /** What one candidate adds to the routes, in the terms of the loop that tries it. */
  lemma CandidateRoutes(flat: seq<PathQuote>, maxSplits: int, prefix: seq<nat>, at: nat)
    requires InBounds(prefix, |flat|) && at < |flat|
    ensures var current, q := RouteOf(flat, prefix), flat[at];
            var next, longer := Add(current, q), prefix + [at];
            && |current.quotes| == |prefix| && RouteOf(flat, longer) == next
            && RoutesOf(flat, Enumerate(flat, maxSplits, prefix, at))
               == (if next.splitPercent > 100 || ReusesAny(q, current.quotes) then []
                   else if next.splitPercent == 100 then [next]
                   else if |prefix| + 1 != maxSplits then RoutesOf(flat, Enumerate(flat, maxSplits, longer, at + 1))
                   else [])
                  + RoutesOf(flat, Enumerate(flat, maxSplits, prefix, at + 1))
  {
    hide ReusesAny;
    RouteQuotes(flat, prefix);
    RouteAppend(flat, prefix, at);
    RoutesConcat(flat, Extend(flat, maxSplits, prefix, at), Enumerate(flat, maxSplits, prefix, at + 1));
    assert RoutesOf(flat, [prefix + [at]]) == [RouteOf(flat, prefix + [at])];
  }

  lemma AdvanceOne(flat: seq<PathQuote>, at: nat, quotes: seq<PathQuote>, j: nat, rest: seq<PathQuote>)
    requires at <= |flat| && j < |quotes| && flat[at..] == quotes[j..] + rest
    ensures at < |flat| && flat[at] == quotes[j] && flat[at + 1..] == quotes[j + 1..] + rest
  {
    assert flat[at..][0] == quotes[j];
    assert flat[at + 1..] == flat[at..][1..];
  }

  method BuildRoutes(buckets: seq<Bucket>, maxSplits: int, current: InternalRoute, out: RouteList,
                     ghost flat: seq<PathQuote>, ghost prefix: seq<nat>, ghost from: nat, ghost n: nat)
    requires InBounds(prefix, |flat|) && current == RouteOf(flat, prefix) && current.splitPercent < 100
    requires Aligned(flat, from, buckets, n, current)
    modifies out
    ensures out.routes == old(out.routes) + RoutesOf(flat, Enumerate(flat, maxSplits, prefix, from))
    decreases 100 - current.splitPercent
  {
    hide ReusesAny, Enumerate, Extend, RoutesOf, RouteOf, WellKeyed, Flatten;
    ghost var at: nat := from;
    ghost var target := out.routes + RoutesOf(flat, Enumerate(flat, maxSplits, prefix, from));
    for i := |buckets| downto 0
      invariant at <= |flat| && flat[at..] == Flatten(buckets, if i < n then i else n)
      invariant out.routes + RoutesOf(flat, Enumerate(flat, maxSplits, prefix, at)) == target
    {
      var nextPercent, nextPercentQuotes := buckets[i].percent, buckets[i].quotes;
      var newPercentTotal := current.splitPercent + nextPercent;
      FlattenStep(buckets, i);
      var nextPercentIsLarger := |current.quotes| > 0
          && nextPercent > current.quotes[|current.quotes| - 1].splitPercent;
      if newPercentTotal > 100 || nextPercentIsLarger {
        if i < n {
          SkipBucket(flat, maxSplits, prefix, at, buckets, i);
          at := at + |nextPercentQuotes|;
        }
        continue;
      }
      for j := 0 to |nextPercentQuotes|
        invariant at <= |flat| && flat[at..] == nextPercentQuotes[j..] + Flatten(buckets, i)
        invariant out.routes + RoutesOf(flat, Enumerate(flat, maxSplits, prefix, at)) == target
      {
        var nextQuote := nextPercentQuotes[j];
        AdvanceOne(flat, at, nextPercentQuotes, j, Flatten(buckets, i));
        FiledUnder(buckets, i, j);
        CandidateRoutes(flat, maxSplits, prefix, at);
        if !ReusesAny(nextQuote, current.quotes) {
          var nextRoute := InternalRoute(current.quotes + [nextQuote], newPercentTotal,
                                         current.totalIn + nextQuote.amountIn, current.totalOut + nextQuote.amountOut);
          if newPercentTotal == 100 {
            out.Push(nextRoute);
          } else if |current.quotes| + 1 != maxSplits {
            StaysAligned(flat, at, buckets, i, j, current, nextRoute);
            BuildRoutes(Without(buckets, i, j), maxSplits, nextRoute, out,
                        flat, prefix + [at], at + 1, i + 1);
          }
        }
        at := at + 1;
      }
      assert nextPercentQuotes[|nextPercentQuotes|..] == [];
    }
    assert flat[at..] == [] by { FlattenNone(buckets); }
    NothingLeft(flat, maxSplits, prefix, at);
  }

  lemma FlattenNone(buckets: seq<Bucket>)
    ensures Flatten(buckets, 0) == []
  {
  }

  lemma NothingLeft(flat: seq<PathQuote>, maxSplits: int, prefix: seq<nat>, at: nat)
    requires InBounds(prefix, |flat|) && |flat| <= at
    ensures RoutesOf(flat, Enumerate(flat, maxSplits, prefix, at)) == []
  {
  }

  lemma SkipBucket(flat: seq<PathQuote>, maxSplits: int, prefix: seq<nat>, at: nat, buckets: seq<Bucket>, i: nat)
    requires InBounds(prefix, |flat|) && at <= |flat| && i < |buckets| && WellKeyed(buckets)
    requires flat[at..] == buckets[i].quotes + Flatten(buckets, i)
    requires RouteOf(flat, prefix).splitPercent + buckets[i].percent > 100
    ensures at + |buckets[i].quotes| <= |flat| && flat[at + |buckets[i].quotes|..] == Flatten(buckets, i)
    ensures Enumerate(flat, maxSplits, prefix, at) == Enumerate(flat, maxSplits, prefix, at + |buckets[i].quotes|)
  {
    var to := at + |buckets[i].quotes|;
    forall k | at <= k < to
      ensures RouteOf(flat, prefix).splitPercent + flat[k].splitPercent > 100
    {
      assert flat[k] == flat[at..][k - at] == buckets[i].quotes[k - at];
    }
    SkipHeavy(flat, maxSplits, prefix, at, to);
    assert flat[to..] == flat[at..][|buckets[i].quotes|..];
  }

  lemma {:induction false} FlattenFrame(a: seq<Bucket>, b: seq<Bucket>, n: nat)
    requires n <= |a| && n <= |b| && a[..n] == b[..n]
    ensures Flatten(a, n) == Flatten(b, n)
  {
    if n > 0 {
      assert a[..n][n - 1] == b[..n][n - 1];
      assert a[..n - 1] == a[..n][..n - 1] && b[..n - 1] == b[..n][..n - 1];
      FlattenFrame(a, b, n - 1);
    }
  }

  /** The buckets with the quotes of one of them cut down to those after the chosen one. */
  function Without(buckets: seq<Bucket>, i: nat, j: nat): seq<Bucket>
    requires i < |buckets| && j < |buckets[i].quotes|
  {
    buckets[i := Bucket(buckets[i].percent, buckets[i].quotes[j + 1..])]
  }

  lemma StaysKeyed(buckets: seq<Bucket>, i: nat, j: nat)
    requires WellKeyed(buckets) && i < |buckets| && j < |buckets[i].quotes|
    ensures WellKeyed(Without(buckets, i, j))
  {
    var rest := Without(buckets, i, j);
    forall a, k | 0 <= a < |rest| && 0 <= k < |rest[a].quotes|
      ensures rest[a].quotes[k].splitPercent == rest[a].percent
    {
      assert rest[a].quotes[k] == buckets[a].quotes[if a == i then k + j + 1 else k];
    }
  }

  /** Dropping the quotes up to the chosen one and all larger percentages leaves the rest of the flat list. */
  lemma StaysAligned(flat: seq<PathQuote>, at: nat, buckets: seq<Bucket>, i: nat, j: nat, current: InternalRoute,
                     next: InternalRoute)
    requires WellKeyed(buckets) && i < |buckets| && j < |buckets[i].quotes| && at < |flat|
    requires flat[at..] == buckets[i].quotes[j..] + Flatten(buckets, i)
    requires next.quotes == current.quotes + [buckets[i].quotes[j]]
    ensures Aligned(flat, at + 1, Without(buckets, i, j), i + 1, next)
  {
    hide WellKeyed, Flatten;
    var rest := Without(buckets, i, j);
    StaysKeyed(buckets, i, j);
    FlattenFrame(buckets, rest, i);
    AdvanceOne(flat, at, buckets[i].quotes, j, Flatten(buckets, i));
    assert flat[at + 1..] == Flatten(rest, i + 1) by { FlattenStep(rest, i); }
    FiledUnder(buckets, i, j);
    forall k | 0 <= k < |rest|
      ensures i + 1 <= k <==> rest[k].percent > buckets[i].percent
    {
      LargerAreLater(buckets, i, k);
    }
  }

  lemma FlattenStep(buckets: seq<Bucket>, n: nat)
    requires n < |buckets|
    ensures Flatten(buckets, n + 1) == buckets[n].quotes + Flatten(buckets, n)
  {
  }

  lemma FiledUnder(buckets: seq<Bucket>, i: nat, j: nat)
    requires WellKeyed(buckets) && i < |buckets| && j < |buckets[i].quotes|
    ensures buckets[i].quotes[j].splitPercent == buckets[i].percent > 0
  {
  }

  lemma LargerAreLater(buckets: seq<Bucket>, i: nat, k: nat)
    requires WellKeyed(buckets) && i < |buckets| && k < |buckets|
    ensures i + 1 <= k <==> buckets[k].percent > buckets[i].percent
  {
  }

  /** generateRoutes: the search from an empty route. */
  method GenerateRoutes(buckets: seq<Bucket>, maxSplits: int) returns (routes: seq<InternalRoute>)
    requires WellKeyed(buckets)
    ensures var flat := Flatten(buckets, |buckets|);
            routes == RoutesOf(flat, Enumerate(flat, maxSplits, [], 0))
  {
    var out := new RouteList();
    BuildRoutes(buckets, maxSplits, NO_ROUTE, out, Flatten(buckets, |buckets|), [], 0, |buckets|);
    routes := out.routes;
  }

  // ---------------------------------------------------------------- what a generated route is

  function SumIn(quotes: seq<PathQuote>): nat {
    if |quotes| == 0 then 0 else SumIn(quotes[..|quotes| - 1]) + quotes[|quotes| - 1].amountIn
  }

  function SumOut(quotes: seq<PathQuote>): nat {
    if |quotes| == 0 then 0 else SumOut(quotes[..|quotes| - 1]) + quotes[|quotes| - 1].amountOut
  }

  function SumPercent(quotes: seq<PathQuote>): nat {
    if |quotes| == 0 then 0 else SumPercent(quotes[..|quotes| - 1]) + quotes[|quotes| - 1].splitPercent
  }

  lemma {:induction false} RouteTotals(flat: seq<PathQuote>, sel: seq<nat>)
    requires InBounds(sel, |flat|)
    ensures var r := RouteOf(flat, sel);
            r.splitPercent == SumPercent(r.quotes) && r.totalIn == SumIn(r.quotes) && r.totalOut == SumOut(r.quotes)
  {
    if |sel| > 0 {
      RouteTotals(flat, sel[..|sel| - 1]);
      var r := RouteOf(flat, sel);
      assert r.quotes[..|r.quotes| - 1] == RouteOf(flat, sel[..|sel| - 1]).quotes;
    }
  }

  /** Later candidates never carry a larger percentage. */
  lemma {:induction false} FlattenDescends(buckets: seq<Bucket>, n: nat, a: nat, b: nat)
    requires WellKeyed(buckets) && n <= |buckets| && a <= b < |Flatten(buckets, n)|
    ensures Flatten(buckets, n)[b].splitPercent <= Flatten(buckets, n)[a].splitPercent
    ensures 0 < Flatten(buckets, n)[b].splitPercent && Flatten(buckets, n)[a].splitPercent <= buckets[n - 1].percent
  {
    var head := buckets[n - 1].quotes;
    if |head| <= a {
      FlattenDescends(buckets, n - 1, a - |head|, b - |head|);
    } else if |head| <= b {
      FlattenDescends(buckets, n - 1, b - |head|, b - |head|);
    }
  }

  /** What the search promises of each route it emits, and that nothing with these properties is missing or repeated. */
  lemma RoutesAreSplits(buckets: seq<Bucket>, maxSplits: int, sel: seq<nat>)
    requires WellKeyed(buckets)
    ensures var flat := Flatten(buckets, |buckets|);
            && (sel in Enumerate(flat, maxSplits, [], 0) <==> IsSplit(flat, maxSplits, sel))
            && Distinct(Enumerate(flat, maxSplits, [], 0))
            && (IsSplit(flat, maxSplits, sel) ==>
                  var r := RouteOf(flat, sel);
                  && SumPercent(r.quotes) == 100 && r.totalIn == SumIn(r.quotes) && r.totalOut == SumOut(r.quotes)
                  && forall i, j :: 0 <= i < j < |r.quotes| ==> r.quotes[j].splitPercent <= r.quotes[i].splitPercent)
  {
    var flat := Flatten(buckets, |buckets|);
    forall q | q in flat
      ensures q.splitPercent > 0
    {
      var k :| 0 <= k < |flat| && flat[k] == q;
      FlattenDescends(buckets, |buckets|, k, k);
    }
    SplitsExactlyOnce(flat, maxSplits);
    if IsSplit(flat, maxSplits, sel) {
      var r := RouteOf(flat, sel);
      RouteQuotes(flat, sel);
      RouteTotals(flat, sel);
      forall i, j | 0 <= i < j < |r.quotes|
        ensures r.quotes[j].splitPercent <= r.quotes[i].splitPercent
      {
        FlattenDescends(buckets, |buckets|, sel[i], sel[j]);
      }
    }
  }
}
