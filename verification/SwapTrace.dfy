/** Every iteration of a swap on its own: what it settles, exactly, and exactly when it succeeds. */
module SwapTrace {
  import opened Numbers
  import opened TickManager
  import opened TickSearch
  import opened Ledger
  import opened TM = TokenMath
  import opened SwapManager
  import opened SwapProgress
  import opened SwapBooks
  import opened SwapClaims

  // ---------------------------------------------------------------- what every recorded step settles

  /** One iteration settles exactly what its amount, liquidity and prices determine. */
  lemma StepIsExact(e: SwapEnv, st: SwapState)
    requires Ready(e, st) && Running(e, st) && SwapStep(e, st).Ok?
    ensures var o := Open(e, st);
            ExactStep(st.amountRemaining, e.feeRate, st.liquidity, st.sqrtPrice, o.target, e.isInput, e.aToB, o.c)
  {
    hide Ready, SwapStep, Settles, ComputeSwap, Book, MovePrice, Region, HoldsInitialized, ExactStep, Search;
    PricesPositive(e, st);
    StepSettles(e, st);
    var o := Open(e, st);
    ComputeSwapIsExact(st.amountRemaining, e.feeRate, st.liquidity, st.sqrtPrice, o.target, e.isInput, e.aToB);
  }

  lemma PricesPositive(e: SwapEnv, st: SwapState)
    requires Ready(e, st)
    ensures e.tickSpacing > 0 && MIN_SQRT_PRICE_X64 <= st.sqrtPrice && MIN_SQRT_PRICE_X64 <= e.limit
  {
  }

  /** The loop heads from which an iteration is made, in order. */
  ghost function Heads(e: SwapEnv, st: SwapState): seq<SwapState>
    requires Ready(e, st)
    decreases Remaining(e, st)
  {
    if !Running(e, st) || SwapStep(e, st).Err? then []
    else
      StepProgresses(e, st);
      [st] + Heads(e, SwapStep(e, st).value)
  }

  /** A fee's growth: the providers' part per unit of liquidity, rounded down, in units of 2^-64. */
  predicate SharesFee(fee: u64, rate: ProtocolFeeRate, liquidity: u128, growth: nat) {
    var kept := fee - CalculateProtocolFee(fee, rate);
    if liquidity == 0 then growth == 0
    else growth * liquidity <= kept * 0x1_0000_0000_0000_0000 < (growth + 1) * liquidity
  }

  /** The computation c and the growth entry that an iteration from the head s records. */
  ghost predicate Records(e: SwapEnv, s: SwapState, c: SwapStepComputation, entry: Accrual) {
    && Ready(e, s) && Running(e, s) && SwapStep(e, s).Ok?
    && ExactStep(s.amountRemaining, e.feeRate, s.liquidity, s.sqrtPrice, Open(e, s).target, e.isInput, e.aToB, c)
    && entry.channel == InputChannel(e.aToB) && entry.tick == s.tickIndex
    && SharesFee(c.feeAmount, e.protocolFeeRate, s.liquidity, entry.growth)
  }

  lemma StepRecords(e: SwapEnv, st: SwapState)
    requires Ready(e, st) && Running(e, st) && SwapStep(e, st).Ok?
    ensures var c, entry := Open(e, st).c, StepAccrual(e, st, Open(e, st).c);
            && Records(e, st, c, entry)
            && SwapStep(e, st).value.steps == st.steps + [c]
            && SwapStep(e, st).value.history == st.history + [entry]
  {
    hide Ready, SwapStep, Open, ExactStep, GrowthDelta, CalculateProtocolFee;
    StepIsExact(e, st);
    StepHistory(e, st);
    GrowthIsFloor(Open(e, st).c.feeAmount, e.protocolFeeRate, st.liquidity);
  }

  /** The heads follow one another, from the first to the state in which the loop ended. */
  ghost predicate Chain(e: SwapEnv, heads: seq<SwapState>, first: SwapState, last: SwapState)
    requires e.tickSpacing > 0
  {
    if |heads| == 0 then last == first
    else heads[0] == first && SwapStep(e, first).Ok? && Chain(e, heads[1..], SwapStep(e, first).value, last)
  }

  /** Each head with the computation and the growth entry recorded for it. */
  ghost predicate AllRecorded(e: SwapEnv, heads: seq<SwapState>, steps: seq<SwapStepComputation>,
                              entries: seq<Accrual>) {
    && |heads| == |steps| == |entries|
    && forall k :: 0 <= k < |heads| ==> Records(e, heads[k], steps[k], entries[k])
  }

  lemma RecordedOneMore(e: SwapEnv, heads: seq<SwapState>, steps: seq<SwapStepComputation>, entries: seq<Accrual>,
                        s: SwapState, c: SwapStepComputation, entry: Accrual)
    requires Records(e, s, c, entry) && AllRecorded(e, heads, steps, entries)
    ensures AllRecorded(e, [s] + heads, [c] + steps, [entry] + entries)
  {
    hide Records;
  }

  lemma TailWithOne<T>(all: seq<T>, head: seq<T>, x: T)
    requires |head| < |all| && all[..|head| + 1] == head + [x]
    ensures all[..|head|] == head && all[|head|..] == [x] + all[|head| + 1..]
  {
    assert all[..|head|] == all[..|head| + 1][..|head|];
    assert all[|head|] == all[..|head| + 1][|head|];
  }

  /**
   * A swap records one computation and one growth entry for each of its iterations, in order, and each of them is
   * exact: the fee of every step is the least that pays or the rest of the input, and all of it but the protocol's
   * share goes to the liquidity active at that step, to the rounding.
   */
  lemma {:induction false} EveryStepIsExact(e: SwapEnv, st: SwapState)
    requires Ready(e, st) && SwapLoop(e, st).Ok?
    ensures var r, n, m := SwapLoop(e, st).value, |st.steps|, |st.history|;
            && n <= |r.steps| && r.steps[..n] == st.steps
            && m <= |r.history| && r.history[..m] == st.history
            && AllRecorded(e, Heads(e, st), r.steps[n..], r.history[m..])
    decreases Remaining(e, st)
  {
    hide Records, SwapStep, AllRecorded, Ready, Open, StepAccrual;
    PricesPositive(e, st);
    var r := SwapLoop(e, st).value;
    if Running(e, st) {
      StepProgresses(e, st);
      StepRecords(e, st);
      var c, next := Open(e, st).c, SwapStep(e, st).value;
      EveryStepIsExact(e, next);
      TailWithOne(r.steps, st.steps, c);
      TailWithOne(r.history, st.history, StepAccrual(e, st, c));
      RecordedOneMore(e, Heads(e, next), r.steps[|next.steps|..], r.history[|next.history|..], st, c,
                      StepAccrual(e, st, c));
    } else {
      NothingRecorded(e, r);
    }
  }

  lemma NothingRecorded(e: SwapEnv, r: SwapState)
    ensures AllRecorded(e, [], r.steps[|r.steps|..], r.history[|r.history|..])
  {
  }

  /** The heads are the states that the loop goes through, from the first to the one it ends in. */
  lemma {:induction false} HeadsAreTheRun(e: SwapEnv, st: SwapState)
    requires Ready(e, st) && SwapLoop(e, st).Ok?
    ensures e.tickSpacing > 0 && Chain(e, Heads(e, st), st, SwapLoop(e, st).value)
    decreases Remaining(e, st)
  {
    hide SwapStep, Ready;
    PricesPositive(e, st);
    if Running(e, st) {
      StepProgresses(e, st);
      HeadsAreTheRun(e, SwapStep(e, st).value);
      assert Heads(e, st)[1..] == Heads(e, SwapStep(e, st).value);
    }
  }

  // ---------------------------------------------------------------- the arrays

  /** The array that the next search begins in, if one is left, covers the current tick. */
  ghost predicate Positioned(e: SwapEnv, st: SwapState) {
    && st.arrayIndex <= |e.starts|
    && (st.arrayIndex < |e.starts| ==>
          InSearchRange(e.starts[st.arrayIndex], st.tickIndex, e.tickSpacing, !e.aToB))
  }

  /** Going left over the first slot of an array, or going right onto its last, leads to the next array. */
  lemma ArrayAfter(e: SwapEnv, at: nat, t: int)
    requires e.tickSpacing > 0 && Contiguous(e.starts, e.tickSpacing, e.aToB) && at < |e.starts|
    requires InArray(e.starts[at], t, e.tickSpacing)
    requires e.aToB && TickOffset(e.starts[at], t, e.tickSpacing) == 0 ==> t == e.starts[at]
    ensures var next := NextArrayIndex(e, at, t);
            && next <= |e.starts|
            && (next < |e.starts| ==>
                  InSearchRange(e.starts[next], if e.aToB then t - 1 else t, e.tickSpacing, !e.aToB))
  {
    var start, spacing := e.starts[at], e.tickSpacing;
    FloorOfOffset(start, t, spacing);
    var offset := TickOffset(start, t, spacing);
    OffsetInArray(start, t, spacing);
    if offset < 0 {
      MulMono(offset, -1, spacing);
    }
    if offset >= 1 {
      MulMono(1, offset, spacing);
    }
    MulMono(offset, TICK_ARRAY_SIZE - 1, spacing);
    if offset < TICK_ARRAY_SIZE - 1 {
      MulMono(offset, TICK_ARRAY_SIZE - 2, spacing);
    }
    hide TickOffset;
    assert at + 1 < |e.starts| ==>
        e.starts[at + 1] == if e.aToB then start - TicksInArray(spacing) else start + TicksInArray(spacing);
  }

  lemma StepArray(e: SwapEnv, st: SwapState)
    requires e.tickSpacing > 0 && SwapStep(e, st).Ok?
    ensures var o, st' := Open(e, st), SwapStep(e, st).value;
            if o.c.nextPrice == e.price(o.next)
            then o.at < |e.starts| && st'.arrayIndex == NextArrayIndex(e, o.at, o.next)
            else st'.arrayIndex == st.arrayIndex
  {
    hide CalculateFees, NextAmounts, Search, Compute, TickIndexFromSqrtPrice, CrossUpdate, CrossLiquidity,
        NextArrayIndex, HoldsInitialized;
  }

  /** An iteration that does not arrive at the tick it searched for is the last one. */
  lemma ArrivesOrEnds(e: SwapEnv, st: SwapState)
    requires Ready(e, st) && Running(e, st) && SwapStep(e, st).Ok?
    ensures Open(e, st).c.nextPrice == e.price(Open(e, st).next) || !Running(e, SwapStep(e, st).value)
  {
    hide Ready, SwapStep, Open, ComputeSwap, MovePrice, Region, HoldsInitialized, Search, Charge, Payout,
        CalculateFees;
    PricesPositive(e, st);
    StepSettles(e, st);
    var o := Open(e, st);
    MovePriceKeepsBooks(e, o.booked, o.c.nextPrice, o.at, o.next);
    StepMoves(e, st);
  }

  /** While the loop runs on, its next search begins in the right array, or there is none left. */
  lemma StepPositioned(e: SwapEnv, st: SwapState)
    requires Ready(e, st) && Running(e, st) && SwapStep(e, st).Ok? && Contiguous(e.starts, e.tickSpacing, e.aToB)
    ensures Running(e, SwapStep(e, st).value) ==> Positioned(e, SwapStep(e, st).value)
  {
    hide Ready, SwapStep, Open, Settles, ComputeSwap, Book, MovePrice, Region, HoldsInitialized, NextArrayIndex,
        Contiguous, Coherent, InSearchRange;
    PricesPositive(e, st);
    var o, st' := Open(e, st), SwapStep(e, st).value;
    if Running(e, st') {
      ArrivesOrEnds(e, st);
      StepArray(e, st);
      StepMoves(e, st);
      StopIsFirstSlot(e, st);
      ArrayAfter(e, o.at, o.next);
    }
  }

  /** A leftward stop in the first slot of an array from which the loop runs on is the array's first tick. */
  lemma StopIsFirstSlot(e: SwapEnv, st: SwapState)
    requires Ready(e, st) && Running(e, st) && SwapStep(e, st).Ok?
    requires Open(e, st).c.nextPrice == e.price(Open(e, st).next) && Running(e, SwapStep(e, st).value)
    ensures var o := Open(e, st);
            && o.at < |e.starts| && InArray(e.starts[o.at], o.next, e.tickSpacing)
            && (e.aToB && TickOffset(e.starts[o.at], o.next, e.tickSpacing) == 0 ==> o.next == e.starts[o.at])
  {
    hide SwapStep, Open, ComputeSwap, Book, MovePrice, HoldsInitialized, NextInitialized, TickOffset, Charge, Payout;
    var o := Open(e, st);
    StepMoves(e, st);
    StepSettles(e, st);
    SearchStops(st.ticks, e.starts, st.tickIndex, e.tickSpacing, e.aToB, st.arrayIndex);
    if e.aToB {
      PriceOrder(e.price, o.next, MIN_TICK_INDEX);
      if TickAt(st.ticks, o.next).initialized && TickOffset(e.starts[o.at], o.next, e.tickSpacing) == 0 {
        RemainderIsMod(e.starts[o.at], TicksInArray(e.tickSpacing));
        AlignedToSpacing(e.starts[o.at], e.tickSpacing);
        SlotOfUsable(e.starts[o.at], o.next, e.tickSpacing);
      }
    }
  }

  // ---------------------------------------------------------------- exactly when a swap goes on

  /** The liquidity on the far side of a tick is a liquidity, and the net there can be negated going left. */
  predicate CrossingFits(liquidity: u128, net: i128, aToB: bool) {
    if aToB then net != I128_MIN && 0 <= liquidity - net < TWO_128 else 0 <= liquidity + net < TWO_128
  }

  lemma CrossingSucceeds(e: SwapEnv, st: SwapState, index: int)
    ensures Cross(e, st, index).Ok? <==> CrossingFits(st.liquidity, TickAt(st.ticks, index).liquidityNet, e.aToB)
  {
    hide CrossUpdate;
  }

  /** What the unspecified side of the swap comes to with this step. */
  function CalculatedAfter(e: SwapEnv, st: SwapState, c: SwapStepComputation): nat {
    st.amountCalculated + if e.isInput then c.amountOut else c.amountIn + c.feeAmount
  }

  /**
   * An iteration towards the tick `next` fits: the step does, the sum of the unspecified side stays below 2^64, and so
   * does, below 2^128, the liquidity on the far side of a tick that it crosses.
   */
  ghost predicate IterationFits(e: SwapEnv, st: SwapState, next: int)
    requires 0 < st.sqrtPrice && 0 < Target(e, e.price(next))
  {
    && StepFits(Tried(st.amountRemaining, e.feeRate, e.isInput), st.liquidity, st.sqrtPrice, Target(e, e.price(next)),
                e.isInput, e.aToB)
    && (Compute(e, st, next).Ok? ==>
          var c := Compute(e, st, next).value;
          && CalculatedAfter(e, st, c) < TWO_64
          && (c.nextPrice == e.price(next) && TickAt(st.ticks, next).initialized ==>
                CrossingFits(st.liquidity, TickAt(st.ticks, next).liquidityNet, e.aToB)))
  }

  /** The step's target lies ahead, and is a price. */
  lemma TargetAhead(e: SwapEnv, st: SwapState)
    requires Ready(e, st) && Running(e, st) && Search(e, st).Ok?
    ensures var target := Target(e, e.price(Search(e, st).value.1));
            target > 0 && Between(st.sqrtPrice, target, target, e.aToB)
  {
    hide NextInitialized, HoldsInitialized, NoneBetween, AlignedStarts, InitializedAreUsable;
    SearchRegion(e, st);
    var next := Search(e, st).value.1;
    PriceOrder(e.price, MIN_TICK_INDEX, next);
    if e.aToB {
      PriceOrder(e.price, next, st.tickIndex);
    } else {
      PriceOrder(e.price, st.tickIndex + 1, next);
    }
  }

  /** Booking a computed step and moving the price can fail only for these sums. */
  lemma BookingSucceeds(e: SwapEnv, st: SwapState, at: nat, next: int, c: SwapStepComputation)
    requires e.tickSpacing > 0 && at < |e.starts|
    requires Book(e, st, c) != Err(AmountRemainingOverflow)
    requires TickAt(st.ticks, next).initialized ==> HoldsInitialized(st.ticks, e.starts, at, next, e.tickSpacing)
    ensures (Book(e, st, c).Ok? && MovePrice(e, Book(e, st, c).value, c.nextPrice, at, next).Ok?)
            <==> CalculatedAfter(e, st, c) < TWO_64
                 && (c.nextPrice == e.price(next) && TickAt(st.ticks, next).initialized ==>
                       CrossingFits(st.liquidity, TickAt(st.ticks, next).liquidityNet, e.aToB))
  {
    hide CalculateFees, GrowthDelta, CrossLiquidity, CrossingFits, TickIndexFromSqrtPrice, NextArrayIndex, CrossUpdate;
    if Book(e, st, c).Ok? {
      CrossingSucceeds(e, Book(e, st, c).value, next);
    }
  }

  /** An iteration succeeds exactly when its search does and what it computes fits. */
  lemma IterationSucceeds(e: SwapEnv, st: SwapState)
    requires Ready(e, st) && Running(e, st)
    ensures 0 < st.sqrtPrice && (Search(e, st).Ok? ==> 0 < Target(e, e.price(Search(e, st).value.1)))
    ensures SwapStep(e, st).Ok? <==> Search(e, st).Ok? && IterationFits(e, st, Search(e, st).value.1)
  {
    hide Ready, Search, Book, MovePrice, ComputeSwap, StepFits, Tried, CrossingFits, CalculatedAfter, Target,
        HoldsInitialized, Region;
    PricesPositive(e, st);
    if Search(e, st).Ok? {
      var (at, next) := Search(e, st).value;
      SearchRegion(e, st);
      TargetAhead(e, st);
      ComputeSwapSucceeds(st.amountRemaining, e.feeRate, st.liquidity, st.sqrtPrice, Target(e, e.price(next)),
                          e.isInput, e.aToB);
      if Compute(e, st, next).Ok? {
        RemainingNeverOverflows(e, st);
        BookingSucceeds(e, st, at, next, Compute(e, st, next).value);
      }
    }
  }

  /** From a loop head the next iteration would not fail: an array is left, and what it computes fits. */
  ghost predicate GoesOn(e: SwapEnv, s: SwapState)
    requires Ready(e, s)
  {
    && 0 < s.sqrtPrice && s.arrayIndex < |e.starts| && Search(e, s).Ok?
    && 0 < Target(e, e.price(Search(e, s).value.1)) && IterationFits(e, s, Search(e, s).value.1)
  }

  lemma GoesOnExactly(e: SwapEnv, st: SwapState)
    requires Ready(e, st) && Running(e, st) && Contiguous(e.starts, e.tickSpacing, e.aToB) && Positioned(e, st)
    ensures SwapStep(e, st).Ok? <==> GoesOn(e, st)
    ensures st.arrayIndex == |e.starts| ==> SwapStep(e, st) == Err(TickArraySequenceInvalidIndex)
  {
    hide Ready, IterationFits, Compute, Book, MovePrice, Target, NextInitialized, Contiguous;
    PricesPositive(e, st);
    SearchSucceeds(st.ticks, e.starts, st.tickIndex, e.tickSpacing, e.aToB, st.arrayIndex);
    IterationSucceeds(e, st);
  }

  /**
   * With contiguous arrays, the first covering the current tick, a swap succeeds exactly when at every loop head an
   * array is left and the next iteration fits; nothing else can stop it.
   */
  lemma {:induction false} SwapLoopSucceeds(e: SwapEnv, st: SwapState)
    requires Ready(e, st) && Contiguous(e.starts, e.tickSpacing, e.aToB) && (Running(e, st) ==> Positioned(e, st))
    ensures SwapLoop(e, st).Ok? <==> forall s :: Ready(e, s) && Visits(e, st, s) && Running(e, s) ==> GoesOn(e, s)
    decreases Remaining(e, st)
  {
    hide SwapStep, Ready, GoesOn, Positioned, Contiguous;
    if Running(e, st) {
      PricesPositive(e, st);
      GoesOnExactly(e, st);
      if SwapStep(e, st).Ok? {
        StepProgresses(e, st);
        StepPositioned(e, st);
        SwapLoopSucceeds(e, SwapStep(e, st).value);
        VisitsOneMore(e, st);
      }
    }
  }

  /** The loop from st comes through st itself and all that it comes through from the next head. */
  lemma VisitsOneMore(e: SwapEnv, st: SwapState)
    requires Ready(e, st) && Running(e, st) && SwapStep(e, st).Ok? && Ready(e, SwapStep(e, st).value)
    ensures forall s :: Visits(e, st, s) <==> s == st || Visits(e, SwapStep(e, st).value, s)
  {
  }
}
