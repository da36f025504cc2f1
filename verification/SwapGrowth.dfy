/** Through a swap, the growth recorded at the ticks tracks the history of accruals exactly, modulo 2^128. */
module SwapGrowth {
  import opened Numbers
  import opened TickManager
  import opened TickSearch
  import opened Ledger
  import opened TM = TokenMath
  import opened SwapManager
  import opened SwapProgress
  import opened SwapBooks

  /** The lowest tick index a pool can stand at, so that a history from here on is the whole history. */
  const LOWEST: int := MIN_TICK_INDEX - 1

  /** The growth of a channel below tick t, as the tick manager computes it. */
  function BelowAt(ticks: Ticks, current: int, t: int, c: Channel, g: Growths): u128 {
    GrowthBelow(current, t, TickAt(ticks, t).initialized, Outside(TickAt(ticks, t), c), g.At(c))
  }

  function InsideAt(ticks: Ticks, current: int, l: int, u: int, c: Channel, g: Growths): u128 {
    GrowthInside(current, TickAt(ticks, l), l, TickAt(ticks, u), u, c, g.At(c))
  }

  ghost predicate AllQuiet(ticks: Ticks, g: Growths) {
    forall t: int, c: Channel :: Quiet(TickAt(ticks, t), c, g)
  }

  function StateGrowths(e: SwapEnv, st: SwapState): Growths { GrowthsOf(e, st.feeGrowthInput) }

  lemma BookedGrowth(e: SwapEnv, st: SwapState, c: SwapStepComputation)
    requires Book(e, st, c).Ok?
    ensures var b := Book(e, st, c).value;
            && b.ticks == st.ticks && b.tickIndex == st.tickIndex
            && b.history == st.history
               + [Accrual(InputChannel(e.aToB), st.tickIndex,
                          GrowthDelta(c.feeAmount, e.protocolFeeRate, st.liquidity))]
            && b.feeGrowthInput == Wrap128(st.feeGrowthInput
                                           + GrowthDelta(c.feeAmount, e.protocolFeeRate, st.liquidity))
  {
    WrapSmall(st.feeGrowthInput);
  }

  /** Booking a step adds its growth below exactly the initialised ticks above the current one. */
  lemma BookBelow(e: SwapEnv, st: SwapState, comp: SwapStepComputation, t: int, c: Channel)
    requires Book(e, st, comp).Ok? && LOWEST <= st.tickIndex && TickAt(st.ticks, t).initialized
    ensures var b := Book(e, st, comp).value;
            BelowAt(b.ticks, b.tickIndex, t, c, StateGrowths(e, b))
            == Wrap128(BelowAt(st.ticks, st.tickIndex, t, c, StateGrowths(e, st))
                       + GrowthOf(b.history[|st.history|], c, LOWEST, t))
  {
    hide Wrap128, GrowthDelta, GrowthBelow, Book;
    BookedGrowth(e, st, comp);
    var growth := GrowthDelta(comp.feeAmount, e.protocolFeeRate, st.liquidity);
    if c == InputChannel(e.aToB) {
      AccrualMovesBelow(TickAt(st.ticks, t), t, st.tickIndex, c, st.feeGrowthInput, growth);
    } else {
      WrapSmall(BelowAt(st.ticks, st.tickIndex, t, c, StateGrowths(e, st)));
    }
  }

  /** No initialised tick other than the one arrived at changes sides. */
  lemma SidesKept(e: SwapEnv, st: SwapState, t: int)
    requires Ready(e, st) && Running(e, st) && SwapStep(e, st).Ok? && TickAt(st.ticks, t).initialized
    ensures var o, st' := Open(e, st), SwapStep(e, st).value;
            if Crosses(e, st, o) && t == o.next then st'.tickIndex < t <= st.tickIndex
                || st.tickIndex < t <= st'.tickIndex
            else st.tickIndex < t <==> st'.tickIndex < t
  {
    StepSettles(e, st);
    StepTick(e, st);
  }

  lemma MoveKeepsGrowth(e: SwapEnv, st: SwapState, t: int)
    requires Ready(e, st) && Running(e, st) && SwapStep(e, st).Ok?
    ensures var o, st' := Open(e, st), SwapStep(e, st).value;
            && StateGrowths(e, st') == StateGrowths(e, o.booked)
            && st'.history == o.booked.history
            && TickAt(st'.ticks, t)
               == if Crosses(e, st, o) && t == o.next then CrossUpdate(TickAt(st.ticks, t), StateGrowths(e, o.booked))
                  else TickAt(st.ticks, t)
  {
    StepSettles(e, st);
    var o := Open(e, st);
    BookedGrowth(e, st, o.c);
    MovePriceKeepsBooks(e, o.booked, o.c.nextPrice, o.at, o.next);
  }

  lemma QuietBooked(e: SwapEnv, st: SwapState, c: SwapStepComputation)
    requires Book(e, st, c).Ok? && AllQuiet(st.ticks, StateGrowths(e, st))
    ensures AllQuiet(st.ticks, StateGrowths(e, Book(e, st, c).value))
  {
    var g, h := StateGrowths(e, st), StateGrowths(e, Book(e, st, c).value);
    forall t: int, k: Channel
      ensures Quiet(TickAt(st.ticks, t), k, h)
    {
      assert Quiet(TickAt(st.ticks, t), k, g);
      assert h.rewardInfos == g.rewardInfos;
    }
  }

  /** Moving the price leaves the growth below every initialised tick alone, the crossed one included. */
  lemma MoveBelow(e: SwapEnv, st: SwapState, t: int, c: Channel)
    requires Ready(e, st) && Running(e, st) && SwapStep(e, st).Ok? && TickAt(st.ticks, t).initialized
    requires Quiet(TickAt(st.ticks, t), c, StateGrowths(e, Open(e, st).booked))
    ensures var booked, st' := Open(e, st).booked, SwapStep(e, st).value;
            && st'.history == booked.history
            && BelowAt(st'.ticks, st'.tickIndex, t, c, StateGrowths(e, st'))
               == BelowAt(st.ticks, st.tickIndex, t, c, StateGrowths(e, booked))
  {
    var o, st' := Open(e, st), SwapStep(e, st).value;
    MoveKeepsGrowth(e, st, t);
    SidesKept(e, st, t);
    if Crosses(e, st, o) && t == o.next {
      CrossingKeepsBelow(TickAt(st.ticks, t), t, c, StateGrowths(e, o.booked), st.tickIndex, st'.tickIndex);
    }
  }

  /** One iteration: the growth below every initialised tick gains exactly the step's accrual, if that lies below. */
  lemma StepBelow(e: SwapEnv, st: SwapState, t: int, c: Channel)
    requires Ready(e, st) && Running(e, st) && SwapStep(e, st).Ok? && TickAt(st.ticks, t).initialized
    requires AllQuiet(st.ticks, StateGrowths(e, st))
    ensures var st' := SwapStep(e, st).value;
            && |st'.history| == |st.history| + 1 && st'.history[..|st.history|] == st.history
            && BelowAt(st'.ticks, st'.tickIndex, t, c, StateGrowths(e, st'))
               == Wrap128(BelowAt(st.ticks, st.tickIndex, t, c, StateGrowths(e, st))
                          + GrowthOf(st'.history[|st.history|], c, LOWEST, t))
  {
    hide Wrap128, BelowAt, SwapStep, Book;
    var o := Open(e, st);
    BookedGrowth(e, st, o.c);
    BookBelow(e, st, o.c, t, c);
    QuietBooked(e, st, o.c);
    MoveBelow(e, st, t, c);
  }

  lemma StepQuiet(e: SwapEnv, st: SwapState)
    requires Ready(e, st) && Running(e, st) && SwapStep(e, st).Ok?
    requires AllQuiet(st.ticks, StateGrowths(e, st))
    ensures var st' := SwapStep(e, st).value;
            AllQuiet(st'.ticks, StateGrowths(e, st'))
  {
    var o, st' := Open(e, st), SwapStep(e, st).value;
    QuietBooked(e, st, o.c);
    forall t: int, c: Channel
      ensures Quiet(TickAt(st'.ticks, t), c, StateGrowths(e, st'))
    {
      MoveKeepsGrowth(e, st, t);
      assert Quiet(TickAt(st.ticks, t), c, StateGrowths(e, o.booked));
      CrossedOutside(TickAt(st.ticks, t), c, StateGrowths(e, o.booked));
    }
  }

  /**
   * Two states of one swap, the later extending the earlier's history: the growth below every initialised tick has
   * changed, modulo 2^128, by exactly the growth accrued in between while the pool stood below that tick.
   */
  ghost predicate Linked(e: SwapEnv, a: SwapState, b: SwapState) {
    && |a.history| <= |b.history| && b.history[..|a.history|] == a.history
    && AllQuiet(b.ticks, StateGrowths(e, b))
    && SameLiquidity(a.ticks, b.ticks)
    && forall t: int, c: Channel :: TickAt(a.ticks, t).initialized ==> BelowLinked(e, a, b, t, c)
  }

  ghost predicate BelowLinked(e: SwapEnv, a: SwapState, b: SwapState, t: int, c: Channel)
    requires |a.history| <= |b.history|
  {
    BelowAt(b.ticks, b.tickIndex, t, c, StateGrowths(e, b))
    == Wrap128(BelowAt(a.ticks, a.tickIndex, t, c, StateGrowths(e, a))
               + InsideHistory(b.history[|a.history|..], c, LOWEST, t))
  }

  lemma LinkedToItself(e: SwapEnv, a: SwapState)
    requires AllQuiet(a.ticks, StateGrowths(e, a))
    ensures Linked(e, a, a)
  {
    assert a.history[|a.history|..] == [];
    forall t: int, c: Channel
      ensures BelowLinked(e, a, a, t, c)
    {
      WrapSmall(BelowAt(a.ticks, a.tickIndex, t, c, StateGrowths(e, a)));
    }
  }

  lemma StepLinked(e: SwapEnv, st: SwapState)
    requires Ready(e, st) && Running(e, st) && SwapStep(e, st).Ok? && AllQuiet(st.ticks, StateGrowths(e, st))
    ensures Linked(e, st, SwapStep(e, st).value)
  {
    assert e.tickSpacing > 0;
    hide SwapStep, Open, Ready, Running, BelowAt, Wrap128, InsideHistory, Quiet, Book;
    var o, st' := Open(e, st), SwapStep(e, st).value;
    StepKeepsTicks(e, st);
    StepQuiet(e, st);
    BookedGrowth(e, st, o.c);
    MovePriceKeepsBooks(e, o.booked, o.c.nextPrice, o.at, o.next);
    assert st'.history[|st.history|..] == [st'.history[|st.history|]];
    forall t: int, c: Channel | TickAt(st.ticks, t).initialized
      ensures BelowLinked(e, st, st', t, c)
    {
      StepBelow(e, st, t, c);
      SingleEntry(st'.history[|st.history|], c, LOWEST, t);
    }
  }

  lemma SingleEntry(entry: Accrual, c: Channel, lower: int, upper: int)
    ensures InsideHistory([entry], c, lower, upper) == GrowthOf(entry, c, lower, upper)
  {
    assert [entry][..0] == [];
    assert InsideHistory([], c, lower, upper) == 0;
  }

  lemma WrapChain(b: int, x: int, y: int, z: int, m: int, r: int)
    requires m == Wrap128(b + x) && r == Wrap128(m + y) && z == x + y
    ensures r == Wrap128(b + z)
  {
    WrapAdd(b + x, y);
  }

  lemma BelowCompose(e: SwapEnv, a: SwapState, b: SwapState, d: SwapState, t: int, c: Channel)
    requires |a.history| <= |b.history| <= |d.history|
    requires b.history[..|a.history|] == a.history && d.history[..|b.history|] == b.history
    requires BelowLinked(e, a, b, t, c) && BelowLinked(e, b, d, t, c)
    ensures BelowLinked(e, a, d, t, c)
  {
    hide Wrap128, BelowAt, InsideHistory;
    var x, y := b.history[|a.history|..], d.history[|b.history|..];
    assert d.history == b.history + y;
    assert d.history[|a.history|..] == x + y;
    HistoryConcat(x, y, c, LOWEST, t);
    WrapChain(BelowAt(a.ticks, a.tickIndex, t, c, StateGrowths(e, a)), InsideHistory(x, c, LOWEST, t),
              InsideHistory(y, c, LOWEST, t), InsideHistory(x + y, c, LOWEST, t),
              BelowAt(b.ticks, b.tickIndex, t, c, StateGrowths(e, b)),
                  BelowAt(d.ticks, d.tickIndex, t, c, StateGrowths(e, d)));
  }

  lemma LinkedCompose(e: SwapEnv, a: SwapState, b: SwapState, d: SwapState)
    requires Linked(e, a, b) && Linked(e, b, d)
    ensures Linked(e, a, d)
  {
    assert d.history[..|a.history|] == d.history[..|b.history|][..|a.history|];
    forall t: int, c: Channel | TickAt(a.ticks, t).initialized
      ensures BelowLinked(e, a, d, t, c)
    {
      assert BelowLinked(e, a, b, t, c) && BelowLinked(e, b, d, t, c);
      BelowCompose(e, a, b, d, t, c);
    }
  }

  lemma {:induction false} SwapLoopLinked(e: SwapEnv, st: SwapState)
    requires Ready(e, st) && SwapLoop(e, st).Ok? && AllQuiet(st.ticks, StateGrowths(e, st))
    ensures Linked(e, st, SwapLoop(e, st).value)
    decreases Remaining(e, st)
  {
    if Running(e, st) {
      var st' := SwapStep(e, st).value;
      StepProgresses(e, st);
      StepLinked(e, st);
      SwapLoopLinked(e, st');
      LinkedCompose(e, st, st', SwapLoop(e, st').value);
    } else {
      LinkedToItself(e, st);
    }
  }

  lemma InsideFromBelow(a: int, b: int, a': int, b': int, x: int, y: int, d: int, inside: int, inside': int)
    requires a' == Wrap128(a + x) && b' == Wrap128(b + y) && d == y - x
    requires inside == Wrap128(b - a) && inside' == Wrap128(b' - a')
    ensures inside' == Wrap128(inside + d)
  {
    WrapAdd(b + y, -a');
    WrapAdd(a + x, b + y);
    WrapAdd(b - a, y - x);
  }

  /** Inside growth of a range, from the growth below its two ends before and after. */
  lemma InsideTracks(ticks: Ticks, t: int, g: Growths, ticks': Ticks, t': int, g': Growths, h: seq<Accrual>,
                     l: int, u: int, c: Channel)
    requires LOWEST <= l <= u
    requires BelowAt(ticks', t', l, c, g') == Wrap128(BelowAt(ticks, t, l, c, g) + InsideHistory(h, c, LOWEST, l))
    requires BelowAt(ticks', t', u, c, g') == Wrap128(BelowAt(ticks, t, u, c, g) + InsideHistory(h, c, LOWEST, u))
    ensures InsideAt(ticks', t', l, u, c, g') == Wrap128(InsideAt(ticks, t, l, u, c, g) + InsideHistory(h, c, l, u))
  {
    hide Wrap128, GrowthInside, GrowthBelow, InsideHistory;
    InsideIsDifference(t, TickAt(ticks, l), l, TickAt(ticks, u), u, c, g.At(c));
    InsideIsDifference(t', TickAt(ticks', l), l, TickAt(ticks', u), u, c, g'.At(c));
    HistoryAdjacent(h, c, LOWEST, l, u);
    InsideFromBelow(BelowAt(ticks, t, l, c, g), BelowAt(ticks, t, u, c, g),
                    BelowAt(ticks', t', l, c, g'), BelowAt(ticks', t', u, c, g'),
                    InsideHistory(h, c, LOWEST, l), InsideHistory(h, c, LOWEST, u), InsideHistory(h, c, l, u),
                    InsideAt(ticks, t, l, u, c, g), InsideAt(ticks', t', l, u, c, g'));
  }

  /** Linked states agree about every range between two initialised ticks. */
  lemma LinkedInside(e: SwapEnv, a: SwapState, b: SwapState, l: int, u: int, c: Channel)
    requires Linked(e, a, b) && LOWEST <= l <= u
    requires TickAt(a.ticks, l).initialized && TickAt(a.ticks, u).initialized
    ensures InsideAt(b.ticks, b.tickIndex, l, u, c, StateGrowths(e, b))
            == Wrap128(InsideAt(a.ticks, a.tickIndex, l, u, c, StateGrowths(e, a))
                       + InsideHistory(b.history[|a.history|..], c, l, u))
  {
    hide Wrap128, BelowAt, InsideHistory, InsideAt, Quiet;
    assert BelowLinked(e, a, b, l, c) && BelowLinked(e, a, b, u, c);
    InsideTracks(a.ticks, a.tickIndex, StateGrowths(e, a), b.ticks, b.tickIndex, StateGrowths(e, b),
                 b.history[|a.history|..], l, u, c);
  }

  lemma AboveLowest(e: SwapEnv, st: SwapState, t: int)
    requires Ready(e, st) && TickAt(st.ticks, t).initialized
    ensures LOWEST <= t
  {
  }

  /**
   * Growth inside refines history: over a whole swap, what the tick manager reports inside any two initialised ticks
   * changes, modulo 2^128, by exactly the growth accrued while lower <= current tick < upper.
   */
  lemma SwapRefinesHistory(e: SwapEnv, st: SwapState, l: int, u: int, c: Channel)
    requires Ready(e, st) && SwapLoop(e, st).Ok?
    requires TickAt(st.ticks, l).initialized && TickAt(st.ticks, u).initialized && l <= u
    requires AllQuiet(st.ticks, StateGrowths(e, st))
    ensures var r := SwapLoop(e, st).value;
            && |st.history| <= |r.history|
            && InsideAt(r.ticks, r.tickIndex, l, u, c, StateGrowths(e, r))
               == Wrap128(InsideAt(st.ticks, st.tickIndex, l, u, c, StateGrowths(e, st))
                          + InsideHistory(r.history[|st.history|..], c, l, u))
  {
    hide SwapLoop, Remainder, TickAt, Quiet, Linked, InsideAt, InsideHistory;
    SwapLoopLinked(e, st);
    AboveLowest(e, st, l);
    LinkedInside(e, st, SwapLoop(e, st).value, l, u, c);
  }
}
