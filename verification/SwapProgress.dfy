/**
 * Every iteration of the swap loop moves the price towards the limit, keeps price and tick in agreement, and
 * progresses.
 */
module SwapProgress {
  import opened Numbers
  import opened TickManager
  import opened TickSearch
  import opened Ledger
  import opened TM = TokenMath
  import opened SwapManager

  /** One successful iteration, opened up: the tick searched for, the computation, and the booked state. */
  datatype Opened = Opened(at: nat, next: int, target: u128, c: SwapStepComputation, booked: SwapState)

  function Open(e: SwapEnv, st: SwapState): (o: Opened)
    requires e.tickSpacing > 0 && SwapStep(e, st).Ok?
    ensures Search(e, st) == Ok((o.at, o.next))
    ensures o.target == Target(e, e.price(o.next))
    ensures Compute(e, st, o.next) == Ok(o.c)
    ensures Book(e, st, o.c) == Ok(o.booked)
    ensures MovePrice(e, o.booked, o.c.nextPrice, o.at, o.next) == SwapStep(e, st)
  {
    var found := Search(e, st).value;
    var c := Compute(e, st, found.1).value;
    Opened(found.0, found.1, Target(e, e.price(found.1)), c, Book(e, st, c).value)
  }

  /** The step stays inside its region, charges rounded up, pays rounded down, and stops short only when spent. */
  lemma StepSettles(e: SwapEnv, st: SwapState)
    requires Ready(e, st) && Running(e, st) && SwapStep(e, st).Ok?
    ensures var o := Open(e, st);
            && Region(e, st.ticks, st.tickIndex, o.next)
            && o.at < |e.starts|
            && (TickAt(st.ticks, o.next).initialized ==>
                HoldsInitialized(st.ticks, e.starts, o.at, o.next, e.tickSpacing))
            && Between(st.sqrtPrice, e.price(o.next), e.price(o.next), e.aToB)
            && Between(st.sqrtPrice, o.target, e.price(o.next), e.aToB)
            && Between(st.sqrtPrice, o.target, e.limit, e.aToB)
            && Settles(st.amountRemaining, st.liquidity, st.sqrtPrice, o.target, e.isInput, e.aToB, o.c)
            && (st.liquidity == 0 ==> o.c == SwapStepComputation(0, 0, o.target, 0))
  {
    hide NextInitialized, ComputeSwap, Book, MovePrice, Settles, AlignedStarts, InitializedAreUsable, NoneBetween,
        HoldsInitialized;
    var o := Open(e, st);
    SearchRegion(e, st);
    if e.aToB {
      PriceOrder(e.price, o.next, st.tickIndex);
    } else {
      PriceOrder(e.price, st.tickIndex + 1, o.next);
    }
    ComputeSwapSettles(st.amountRemaining, e.feeRate, st.liquidity, st.sqrtPrice, o.target, e.isInput, e.aToB);
  }

  /** The price and tick index that one iteration leaves, as the code computes them. */
  lemma StepMoves(e: SwapEnv, st: SwapState)
    requires e.tickSpacing > 0 && SwapStep(e, st).Ok?
    ensures var o, st' := Open(e, st), SwapStep(e, st).value;
            && st'.sqrtPrice == o.c.nextPrice
            && st'.tickIndex == if o.c.nextPrice == e.price(o.next) then (if e.aToB then o.next - 1 else o.next)
                                else if o.c.nextPrice != st.sqrtPrice
                                    then TickIndexFromSqrtPrice(e.price, o.c.nextPrice)
                                else st.tickIndex
  {
    hide CalculateFees, NextAmounts, Search, Compute, TickIndexFromSqrtPrice, CrossUpdate, CrossLiquidity,
        NextArrayIndex, HoldsInitialized;
  }

  /** Where the tick index goes: to the crossed tick's far side on arrival, otherwise nowhere past it. */
  lemma StepTick(e: SwapEnv, st: SwapState)
    requires Ready(e, st) && Running(e, st) && SwapStep(e, st).Ok?
    ensures var o := Open(e, st);
            var st' := SwapStep(e, st).value;
            && st'.sqrtPrice == o.c.nextPrice
            && Between(st.sqrtPrice, st'.sqrtPrice, e.limit, e.aToB)
            && (if o.c.nextPrice == e.price(o.next) then
                  st'.tickIndex == if e.aToB then o.next - 1 else o.next
                else if e.aToB then o.next <= st'.tickIndex <= st.tickIndex
                else st.tickIndex <= st'.tickIndex < o.next)
            && Coherent(e.price, st'.sqrtPrice, st'.tickIndex)
  {
    hide SwapStep, Open, TickIndexFromSqrtPrice, InitializedAreUsable, AlignedStarts, Charge, Payout, NoneBetween,
        HoldsInitialized, IsPriceTable;
    StepMoves(e, st);
    StepSettles(e, st);
    var o := Open(e, st);
    var next := o.c.nextPrice;
    if next == e.price(o.next) {
      ArrivedTick(e.price, o.next, e.aToB);
    } else if next != st.sqrtPrice {
      ShortTick(e.price, st.sqrtPrice, st.tickIndex, next, o.next, e.aToB);
    }
  }

  lemma ArrivedTick(price: int -> u128, next: int, aToB: bool)
    requires IsPriceTable(price) && MIN_TICK_INDEX <= next <= MAX_TICK_INDEX
    ensures Coherent(price, price(next), if aToB then next - 1 else next)
  {
    PriceOrder(price, next - 1, next);
    PriceOrder(price, next, next + 1);
    PriceOrder(price, MIN_TICK_INDEX, next);
    PriceOrder(price, next, MAX_TICK_INDEX);
  }

  /** A price strictly between the current one and the next tick's lies at a tick strictly before the next one. */
  lemma ShortTick(price: int -> u128, s: u128, t: int, moved: u128, next: int, aToB: bool)
    requires IsPriceTable(price) && Coherent(price, s, t) && MIN_TICK_INDEX <= next <= MAX_TICK_INDEX
    requires Between(s, moved, price(next), aToB) && moved != price(next) && moved != s
    requires if aToB then next <= t else t < next
    ensures var t' := TickIndexFromSqrtPrice(price, moved);
            && (if aToB then next <= t' <= t else t <= t' < next)
            && Coherent(price, moved, t') && moved < price(t' + 1)
  {
    PriceOrder(price, MIN_TICK_INDEX, next);
    PriceOrder(price, next, MAX_TICK_INDEX);
    TickOfPriceIsFloorInverse(price, moved);
    var t' := TickIndexFromSqrtPrice(price, moved);
    PriceOrder(price, next, t' + 1);
    PriceOrder(price, t', t + 1);
    PriceOrder(price, t', next);
    PriceOrder(price, t, t' + 1);
  }

  /** Crossing rewrites only the growth a tick remembers, so the same ticks stay initialised with the same liquidity. */
  ghost predicate SameLiquidity(a: Ticks, b: Ticks) {
    forall t: int ::
      && TickAt(a, t).initialized == TickAt(b, t).initialized
      && TickAt(a, t).liquidityGross == TickAt(b, t).liquidityGross
      && TickAt(a, t).liquidityNet == TickAt(b, t).liquidityNet
  }

  lemma StepKeepsTicks(e: SwapEnv, st: SwapState)
    requires Ready(e, st) && Running(e, st) && SwapStep(e, st).Ok?
    ensures SameLiquidity(st.ticks, SwapStep(e, st).value.ticks)
  {
    var o := Open(e, st);
    assert o.booked.ticks == st.ticks;
    forall t: int
      ensures var a, b := TickAt(st.ticks, t), TickAt(SwapStep(e, st).value.ticks, t);
              a.initialized == b.initialized && a.liquidityGross == b.liquidityGross && a.liquidityNet == b.liquidityNet
    {
    }
  }

  function Remaining(e: SwapEnv, st: SwapState): int {
    if !Running(e, st) then 0
    else if e.aToB then st.tickIndex - MIN_TICK_INDEX + 2
    else MAX_TICK_INDEX - st.tickIndex + 1
  }

  /** The loop invariant is kept and its measure falls: an iteration either crosses a tick position or ends the swap. */
  lemma StepProgresses(e: SwapEnv, st: SwapState)
    requires Ready(e, st) && Running(e, st) && SwapStep(e, st).Ok?
    ensures Ready(e, SwapStep(e, st).value)
    ensures 0 <= Remaining(e, SwapStep(e, st).value) < Remaining(e, st)
  {
    StepSettles(e, st);
    StepTick(e, st);
    StepKeepsTicks(e, st);
  }

  /** The swap loop: iterate until the amount is spent or the limit is reached. */
  ghost function SwapLoop(e: SwapEnv, st: SwapState): Result<SwapState>
    requires Ready(e, st)
    decreases Remaining(e, st)
  {
    if !Running(e, st) then Ok(st)
    else
      match SwapStep(e, st)
      case Err(error) => Err(error)
      case Ok(next) =>
        StepProgresses(e, st);
        SwapLoop(e, next)
  }

  /** The input side of a step always fits into the remaining amount: that overflow check never fires. */
  lemma RemainingNeverOverflows(e: SwapEnv, st: SwapState)
    requires Ready(e, st) && Running(e, st) && Search(e, st).Ok?
    requires Compute(e, st, Search(e, st).value.1).Ok?
    ensures Book(e, st, Compute(e, st, Search(e, st).value.1).value) != Err(AmountRemainingOverflow)
  {
    SearchRegion(e, st);
    var next := Search(e, st).value.1;
    if e.aToB {
      PriceOrder(e.price, next, st.tickIndex);
    } else {
      PriceOrder(e.price, st.tickIndex + 1, next);
    }
    ComputeSwapSettles(st.amountRemaining, e.feeRate, st.liquidity, st.sqrtPrice, Target(e, e.price(next)), e.isInput,
                       e.aToB);
  }

  /**
   * A whole swap: it ends with the amount spent or the limit reached, the price has moved only in the trade's direction
   * and never past the limit, and price and tick still agree.
   */
  lemma {:induction false} SwapLoopEnds(e: SwapEnv, st: SwapState)
    requires Ready(e, st) && SwapLoop(e, st).Ok?
    ensures var r := SwapLoop(e, st).value;
            && Ready(e, r)
            && (r.amountRemaining == 0 || r.sqrtPrice == e.limit)
            && Between(st.sqrtPrice, r.sqrtPrice, e.limit, e.aToB)
            && SameLiquidity(st.ticks, r.ticks)
    decreases Remaining(e, st)
  {
    if Running(e, st) {
      StepProgresses(e, st);
      StepTick(e, st);
      StepKeepsTicks(e, st);
      SwapLoopEnds(e, SwapStep(e, st).value);
    }
  }

  // ---------------------------------------------------------------- the boundary state

  /** The price stands exactly on the tick above the current one. */
  predicate AtUpperEdge(price: int -> u128, s: u128, t: int) { s == price(t + 1) }

  /** The iteration moves left and reaches the tick it searched for. */
  predicate ArrivesLeft(e: SwapEnv, st: SwapState)
    requires e.tickSpacing > 0 && SwapStep(e, st).Ok?
  {
    e.aToB && Open(e, st).c.nextPrice == e.price(Open(e, st).next)
  }

  predicate Unmoved(a: SwapState, b: SwapState) { a.sqrtPrice == b.sqrtPrice && a.tickIndex == b.tickIndex }

  /**
   * An iteration ends with the price on the upper edge exactly when it arrives at that tick going left, or when it
   * began there and moved nothing, which is what leaving the tick index alone under an unmoved price is for.
   */
  lemma StepEdge(e: SwapEnv, st: SwapState)
    requires Ready(e, st) && Running(e, st) && SwapStep(e, st).Ok?
    ensures var st' := SwapStep(e, st).value;
            && (AtUpperEdge(e.price, st'.sqrtPrice, st'.tickIndex)
                <==> ArrivesLeft(e, st) || (Unmoved(st, st') && AtUpperEdge(e.price, st.sqrtPrice, st.tickIndex)))
            && (ArrivesLeft(e, st) ==> st'.tickIndex + 1 == Open(e, st).next)
  {
    hide SwapStep, Open, TickIndexFromSqrtPrice, InitializedAreUsable, AlignedStarts, Charge, Payout, NoneBetween,
         HoldsInitialized, IsPriceTable;
    StepMoves(e, st);
    StepSettles(e, st);
    var o := Open(e, st);
    var next := o.c.nextPrice;
    if next == e.price(o.next) {
      PriceOrder(e.price, o.next, o.next + 1);
      OnlyAtEdge(e.price, st.sqrtPrice, st.tickIndex, o.next);
    } else if next != st.sqrtPrice {
      ShortTick(e.price, st.sqrtPrice, st.tickIndex, next, o.next, e.aToB);
    }
  }

  /** A price on a tick, seen from the current tick at or below it, is that tick's own or the upper edge. */
  lemma OnlyAtEdge(price: int -> u128, s: u128, t: int, next: int)
    requires IsPriceTable(price) && Coherent(price, s, t) && MIN_TICK_INDEX <= next <= MAX_TICK_INDEX
    ensures s == price(next) && t < next ==> t + 1 == next
  {
    PriceOrder(price, t + 1, next);
  }

  /** The loop from st comes through the state s. */
  ghost predicate Visits(e: SwapEnv, st: SwapState, s: SwapState)
    requires Ready(e, st)
    decreases Remaining(e, st)
  {
    s == st
    || (Running(e, st) && SwapStep(e, st).Ok? && (StepProgresses(e, st); Visits(e, SwapStep(e, st).value, s)))
  }

  /** From s on, one iteration arrives going left and leaves this price and tick index. */
  ghost predicate ArrivesAt(e: SwapEnv, st: SwapState, s: SwapState, sqrtPrice: u128, tickIndex: int)
    requires Ready(e, st)
  {
    && Visits(e, st, s)
    && Ready(e, s) && Running(e, s) && SwapStep(e, s).Ok? && ArrivesLeft(e, s)
    && SwapStep(e, s).value.sqrtPrice == sqrtPrice && SwapStep(e, s).value.tickIndex == tickIndex
  }

  /**
   * A swap ends with the price on the upper edge only if nothing moved at all, or a leftward arrival put it there and
   * nothing moved it afterwards. A rightward swap therefore never creates that state.
   */
  lemma {:induction false} LoopEdge(e: SwapEnv, st: SwapState) returns (s: SwapState)
    requires Ready(e, st) && SwapLoop(e, st).Ok?
    requires var r := SwapLoop(e, st).value; AtUpperEdge(e.price, r.sqrtPrice, r.tickIndex)
    ensures var r := SwapLoop(e, st).value;
            Unmoved(st, r) || ArrivesAt(e, st, s, r.sqrtPrice, r.tickIndex)
    decreases Remaining(e, st)
  {
    s := st;
    if Running(e, st) {
      hide SwapStep, ArrivesLeft;
      StepProgresses(e, st);
      var st' := SwapStep(e, st).value;
      s := LoopEdge(e, st');
      var r := SwapLoop(e, st').value;
      if Unmoved(st', r) {
        StepEdge(e, st);
        s := st;
      }
    }
  }
}
