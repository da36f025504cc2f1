/** The swap loop keeps the liquidity books: active liquidity, the order of crossings, and every amount. */
module SwapBooks {
  import opened Numbers
  import opened TickManager
  import opened PositionManager
  import opened TickSearch
  import opened Ledger
  import opened TM = TokenMath
  import opened SwapManager
  import opened SwapProgress

  // ---------------------------------------------------------------- liquidity

  /** Every position spans two usable ticks, the lower one first. */
  ghost predicate Ranges(ps: seq<Position>, spacing: nat)
    requires spacing > 0
  {
    forall i :: 0 <= i < |ps| ==>
      && ps[i].tickLowerIndex < ps[i].tickUpperIndex
      && IsUsableTick(ps[i].tickLowerIndex, spacing) && IsUsableTick(ps[i].tickUpperIndex, spacing)
  }

  /** Each tick's gross and net liquidity are those of the positions, and it is initialised while any remains. */
  ghost predicate TicksMatch(ticks: Ticks, ps: seq<Position>) {
    forall t: int ::
      && TickAt(ticks, t).liquidityGross == Sum(ps, GrossAt(t))
      && TickAt(ticks, t).liquidityNet == Sum(ps, NetAt(t))
      && (TickAt(ticks, t).initialized <==> TickAt(ticks, t).liquidityGross > 0)
  }

  ghost predicate LiquidityBooked(ps: seq<Position>, ticks: Ticks, t: int, liquidity: int) {
    TicksMatch(ticks, ps) && liquidity == Sum(ps, ActiveAt(t))
  }

  lemma MatchSurvives(a: Ticks, b: Ticks, ps: seq<Position>)
    requires TicksMatch(a, ps) && SameLiquidity(a, b)
    ensures TicksMatch(b, ps)
  {
  }

  lemma QuietStretch(ps: seq<Position>, ticks: Ticks, low: int, high: int, spacing: nat)
    requires spacing > 0 && Ranges(ps, spacing) && TicksMatch(ticks, ps) && low <= high && NoneBetween(ticks, low, high)
    ensures Sum(ps, ActiveAt(low)) == Sum(ps, ActiveAt(high))
  {
    forall t | low < t <= high
      ensures Sum(ps, GrossAt(t)) == 0
    {
      assert !TickAt(ticks, t).initialized;
    }
    ActiveConstant(ps, low, high);
  }

  /** The active liquidity on the two sides of a tick differs by the net liquidity recorded there. */
  lemma AcrossTick(ps: seq<Position>, ticks: Ticks, t: int, spacing: nat)
    requires spacing > 0 && Ranges(ps, spacing) && TicksMatch(ticks, ps)
    ensures Sum(ps, ActiveAt(t)) == Sum(ps, ActiveAt(t - 1)) + TickAt(ticks, t).liquidityNet
    ensures !TickAt(ticks, t).initialized ==> TickAt(ticks, t).liquidityNet == 0
  {
    ActiveStep(ps, t, |ps|);
    NetWithinGross(ps, t, |ps|);
  }

  /** Whether an iteration arrives at an initialised tick, and so crosses it. */
  predicate Crosses(e: SwapEnv, st: SwapState, o: Opened) {
    o.c.nextPrice == e.price(o.next) && TickAt(st.ticks, o.next).initialized
  }

  lemma StepLiquidity(e: SwapEnv, st: SwapState)
    requires Ready(e, st) && Running(e, st) && SwapStep(e, st).Ok?
    ensures var o := Open(e, st);
            var st' := SwapStep(e, st).value;
            && st'.crossed == st.crossed + (if Crosses(e, st, o) then [o.next] else [])
            && st'.liquidity == st.liquidity + (if !Crosses(e, st, o) then 0
                                                else if e.aToB then -(TickAt(st.ticks, o.next).liquidityNet as int)
                                                else TickAt(st.ticks, o.next).liquidityNet)
  {
    hide NextInitialized, ComputeSwap, CalculateFees, NextAmounts, TickIndexFromSqrtPrice, NextArrayIndex, Settles,
        CrossUpdate;
    StepSettles(e, st);
  }

  /** Pool liquidity stays the total of the positions in range of the current tick. */
  lemma StepBooked(e: SwapEnv, ps: seq<Position>, st: SwapState)
    requires Ready(e, st) && Running(e, st) && SwapStep(e, st).Ok?
    requires Ranges(ps, e.tickSpacing) && LiquidityBooked(ps, st.ticks, st.tickIndex, st.liquidity)
    ensures var st' := SwapStep(e, st).value;
            LiquidityBooked(ps, st'.ticks, st'.tickIndex, st'.liquidity)
  {
    hide SwapStep, Open, Settles, Coherent, IsPriceTable, AlignedStarts, TicksMatch, Ranges, InitializedAreUsable, Sum;
    var o := Open(e, st);
    var st' := SwapStep(e, st).value;
    StepSettles(e, st);
    StepTick(e, st);
    StepKeepsTicks(e, st);
    MatchSurvives(st.ticks, st'.ticks, ps);
    StepLiquidity(e, st);
    AcrossTick(ps, st.ticks, o.next, e.tickSpacing);
    if e.aToB {
      QuietStretch(ps, st.ticks, o.next, st.tickIndex, e.tickSpacing);
      if o.c.nextPrice != e.price(o.next) {
        QuietStretch(ps, st.ticks, st'.tickIndex, st.tickIndex, e.tickSpacing);
      }
    } else {
      QuietStretch(ps, st.ticks, st.tickIndex, o.next - 1, e.tickSpacing);
      if o.c.nextPrice != e.price(o.next) {
        QuietStretch(ps, st.ticks, st.tickIndex, st'.tickIndex, e.tickSpacing);
      }
    }
  }

  lemma {:induction false} SwapLoopBooked(e: SwapEnv, ps: seq<Position>, st: SwapState)
    requires Ready(e, st) && SwapLoop(e, st).Ok?
    requires Ranges(ps, e.tickSpacing) && LiquidityBooked(ps, st.ticks, st.tickIndex, st.liquidity)
    ensures var r := SwapLoop(e, st).value;
            LiquidityBooked(ps, r.ticks, r.tickIndex, r.liquidity)
    decreases Remaining(e, st)
  {
    if Running(e, st) {
      StepProgresses(e, st);
      StepBooked(e, ps, st);
      SwapLoopBooked(e, ps, SwapStep(e, st).value);
    }
  }

  /** The sum of the net liquidity of all ticks from the minimum tick up to t. */
  function NetUpTo(ticks: Ticks, t: int): int
    decreases t - MIN_TICK_INDEX
  {
    if t < MIN_TICK_INDEX then 0 else NetUpTo(ticks, t - 1) + TickAt(ticks, t).liquidityNet
  }

  /** The active liquidity at a tick is the sum of the net liquidity at or below it. */
  lemma {:induction false} ActiveIsNetUpTo(ps: seq<Position>, ticks: Ticks, t: int, spacing: nat)
    requires spacing > 0 && Ranges(ps, spacing) && TicksMatch(ticks, ps) && MIN_TICK_INDEX - 1 <= t
    ensures Sum(ps, ActiveAt(t)) == NetUpTo(ticks, t)
    decreases t - MIN_TICK_INDEX
  {
    if t < MIN_TICK_INDEX {
      NothingActiveBelow(ps, t, |ps|, spacing);
    } else {
      AcrossTick(ps, ticks, t, spacing);
      ActiveIsNetUpTo(ps, ticks, t - 1, spacing);
    }
  }

  lemma {:induction false} NothingActiveBelow(ps: seq<Position>, t: int, n: nat, spacing: nat)
    requires spacing > 0 && Ranges(ps, spacing) && t < MIN_TICK_INDEX && n <= |ps|
    ensures SumUpTo(ps, ActiveAt(t), n) == 0
  {
    if n > 0 {
      NothingActiveBelow(ps, t, n - 1, spacing);
    }
  }

  // ---------------------------------------------------------------- crossings

  /** `list` holds exactly the initialised ticks from `from` to `to`, each once, in the order the price meets them. */
  ghost predicate CrossedExactly(ticks: Ticks, from: int, to: int, aToB: bool, list: seq<int>) {
    && (forall i, j :: 0 <= i < j < |list| ==> if aToB then list[j] < list[i] else list[i] < list[j])
    && (forall t: int :: t in list <==>
          TickAt(ticks, t).initialized && if aToB then to < t <= from else from < t <= to)
  }

  /** One crossing, or none, followed by the crossings of the rest of the swap. */
  lemma CrossingsCompose(ticks: Ticks, later: Ticks, from: int, mid: int, to: int, aToB: bool,
                         first: seq<int>, rest: seq<int>)
    requires SameLiquidity(ticks, later)
    requires CrossedExactly(ticks, from, mid, aToB, first) && CrossedExactly(later, mid, to, aToB, rest)
    requires if aToB then to <= mid <= from else from <= mid <= to
    ensures CrossedExactly(ticks, from, to, aToB, first + rest)
  {
    var all := first + rest;
    forall t: int
      ensures t in all <==> TickAt(ticks, t).initialized && if aToB then to < t <= from else from < t <= to
    {
      assert t in all <==> t in first || t in rest;
      assert TickAt(ticks, t).initialized == TickAt(later, t).initialized;
    }
    forall i, j | 0 <= i < j < |all|
      ensures if aToB then all[j] < all[i] else all[i] < all[j]
    {
      if i < |first| { assert all[i] in first; } else { assert all[i] == rest[i - |first|]; }
      if j < |first| { assert all[j] == first[j]; } else { assert all[j] in rest; }
    }
  }

  lemma StepCrosses(e: SwapEnv, st: SwapState)
    requires Ready(e, st) && Running(e, st) && SwapStep(e, st).Ok?
    ensures var o := Open(e, st);
            var st' := SwapStep(e, st).value;
            && (if e.aToB then st'.tickIndex <= st.tickIndex else st.tickIndex <= st'.tickIndex)
            && CrossedExactly(st.ticks, st.tickIndex, st'.tickIndex, e.aToB, if Crosses(e, st, o) then [o.next] else [])
  {
    hide SwapStep, Open, Settles, Coherent, AlignedStarts, InitializedAreUsable, IsPriceTable;
    var o, st' := Open(e, st), SwapStep(e, st).value;
    StepSettles(e, st);
    StepTick(e, st);
    if e.aToB {
      CrossesLeft(st.ticks, st.tickIndex, st'.tickIndex, o.next, o.c.nextPrice == e.price(o.next));
    } else {
      CrossesRight(st.ticks, st.tickIndex, st'.tickIndex, o.next, o.c.nextPrice == e.price(o.next));
    }
  }

  /** Going left over a stretch without initialised ticks, to its far end or short of it. */
  lemma CrossesLeft(ticks: Ticks, from: int, to: int, next: int, arrived: bool)
    requires next <= from && NoneBetween(ticks, next, from)
    requires if arrived then to == next - 1 else next <= to <= from
    ensures to <= from
    ensures CrossedExactly(ticks, from, to, true, if arrived && TickAt(ticks, next).initialized then [next] else [])
  {
  }

  /** Going right, the same. */
  lemma CrossesRight(ticks: Ticks, from: int, to: int, next: int, arrived: bool)
    requires from < next && NoneBetween(ticks, from, next - 1)
    requires if arrived then to == next else from <= to < next
    ensures from <= to
    ensures CrossedExactly(ticks, from, to, false, if arrived && TickAt(ticks, next).initialized then [next] else [])
  {
  }

  lemma TailAfter(all: seq<int>, head: seq<int>, first: seq<int>)
    requires |head| + |first| <= |all| && all[..|head + first|] == head + first
    ensures all[..|head|] == head
    ensures all[|head|..] == first + all[|head + first|..]
  {
    assert all[..|head|] == (head + first)[..|head|];
    assert all == all[..|head + first|] + all[|head + first|..];
  }

  /**
   * A swap crosses exactly the initialised ticks between its first and its last tick index, each once and in order,
   * through as many tick arrays as it takes. A rightward swap from the state a leftward one left crosses the tick the
   * price stands on again, as it must.
   */
  lemma {:induction false} SwapLoopCrosses(e: SwapEnv, st: SwapState)
    requires Ready(e, st) && SwapLoop(e, st).Ok?
    ensures var r := SwapLoop(e, st).value;
            && |st.crossed| <= |r.crossed| && r.crossed[..|st.crossed|] == st.crossed
            && (if e.aToB then r.tickIndex <= st.tickIndex else st.tickIndex <= r.tickIndex)
            && CrossedExactly(st.ticks, st.tickIndex, r.tickIndex, e.aToB, r.crossed[|st.crossed|..])
    decreases Remaining(e, st)
  {
    if Running(e, st) {
      var o, st' := Open(e, st), SwapStep(e, st).value;
      var first := if Crosses(e, st, o) then [o.next] else [];
      StepProgresses(e, st);
      StepKeepsTicks(e, st);
      StepCrosses(e, st);
      StepLiquidity(e, st);
      SwapLoopCrosses(e, st');
      var r := SwapLoop(e, st').value;
      CrossingsCompose(st.ticks, st'.ticks, st.tickIndex, st'.tickIndex, r.tickIndex, e.aToB,
                       first, r.crossed[|st'.crossed|..]);
      TailAfter(r.crossed, st.crossed, first);
    }
  }

  // ---------------------------------------------------------------- amounts

  function TotalIn(steps: seq<SwapStepComputation>): nat {
    if |steps| == 0 then 0
    else TotalIn(steps[..|steps| - 1]) + steps[|steps| - 1].amountIn + steps[|steps| - 1].feeAmount
  }

  function TotalOut(steps: seq<SwapStepComputation>): nat {
    if |steps| == 0 then 0 else TotalOut(steps[..|steps| - 1]) + steps[|steps| - 1].amountOut
  }

  function TotalProtocolFee(steps: seq<SwapStepComputation>, rate: ProtocolFeeRate): nat {
    if |steps| == 0 then 0
    else TotalProtocolFee(steps[..|steps| - 1], rate) + CalculateProtocolFee(steps[|steps| - 1].feeAmount, rate)
  }

  /** The protocol's share is at most the fee, so all shares together stay within the tokens that came in. */
  lemma {:induction false} ProtocolFeeWithinInput(steps: seq<SwapStepComputation>, rate: ProtocolFeeRate)
    ensures TotalProtocolFee(steps, rate) <= TotalIn(steps)
  {
    if |steps| > 0 {
      ProtocolFeeWithinInput(steps[..|steps| - 1], rate);
      ProtocolShareWithinFee(steps[|steps| - 1].feeAmount, rate);
    }
  }

  lemma ProtocolShareWithinFee(fee: u64, rate: ProtocolFeeRate)
    ensures CalculateProtocolFee(fee, rate) <= fee
  {
    MulIsProduct(fee, rate);
    MulMono(rate, PROTOCOL_FEE_RATE_MUL_VALUE, fee);
  }

  /** The running amounts are the totals of the steps so far, and the protocol fee is their true sum. */
  ghost predicate Accounted(e: SwapEnv, amount: u64, st: SwapState) {
    && st.amountRemaining <= amount
    && (if e.isInput then TotalIn(st.steps) == amount - st.amountRemaining && TotalOut(st.steps) == st.amountCalculated
        else TotalOut(st.steps) == amount - st.amountRemaining && TotalIn(st.steps) == st.amountCalculated)
    && st.protocolFee == TotalProtocolFee(st.steps, e.protocolFeeRate)
  }

  lemma TotalsAppend(steps: seq<SwapStepComputation>, c: SwapStepComputation, rate: ProtocolFeeRate)
    ensures TotalIn(steps + [c]) == TotalIn(steps) + c.amountIn + c.feeAmount
    ensures TotalOut(steps + [c]) == TotalOut(steps) + c.amountOut
    ensures TotalProtocolFee(steps + [c], rate)
        == TotalProtocolFee(steps, rate) + CalculateProtocolFee(c.feeAmount, rate)
  {
    assert (steps + [c])[..|steps|] == steps;
  }

  lemma NoProtocolFeeAtZeroRate(fee: u64)
    ensures CalculateProtocolFee(fee, 0) == 0
  {
  }

  lemma ProtocolFeeAdds(fee: u64, rate: ProtocolFeeRate, liquidity: u128, protocolFee: u64, growth: u128)
    requires protocolFee + CalculateProtocolFee(fee, rate) < TWO_64
    ensures CalculateFees(fee, rate, liquidity, protocolFee, growth).0 == protocolFee + CalculateProtocolFee(fee, rate)
  {
    NoProtocolFeeAtZeroRate(fee);
  }

  lemma BookAmounts(e: SwapEnv, amount: u64, st: SwapState, c: SwapStepComputation)
    requires NextAmounts(e.isInput, st.amountRemaining, st.amountCalculated, c).Ok? && Accounted(e, amount, st)
    ensures var next := NextAmounts(e.isInput, st.amountRemaining, st.amountCalculated, c).value;
            && next.0 <= amount
            && (if e.isInput then TotalIn(st.steps + [c]) == amount - next.0 && TotalOut(st.steps + [c]) == next.1
                else TotalOut(st.steps + [c]) == amount - next.0 && TotalIn(st.steps + [c]) == next.1)
    ensures TotalIn(st.steps + [c]) < TWO_64
  {
    TotalsAppend(st.steps, c, e.protocolFeeRate);
  }

  lemma BookAccounted(e: SwapEnv, amount: u64, st: SwapState, c: SwapStepComputation)
    requires Book(e, st, c).Ok? && Accounted(e, amount, st)
    ensures Accounted(e, amount, Book(e, st, c).value)
  {
    BookAmounts(e, amount, st, c);
    TotalsAppend(st.steps, c, e.protocolFeeRate);
    ProtocolFeeWithinInput(st.steps + [c], e.protocolFeeRate);
    ProtocolFeeAdds(c.feeAmount, e.protocolFeeRate, st.liquidity, st.protocolFee, st.feeGrowthInput);
  }

  /** Moving the price changes none of the running amounts. */
  lemma MovePriceKeepsBooks(e: SwapEnv, st: SwapState, next: u128, at: nat, index: int)
    requires e.tickSpacing > 0 && MovePrice(e, st, next, at, index).Ok?
    ensures var r := MovePrice(e, st, next, at, index).value;
            && r.amountRemaining == st.amountRemaining && r.amountCalculated == st.amountCalculated
            && r.protocolFee == st.protocolFee && r.feeGrowthInput == st.feeGrowthInput
            && r.steps == st.steps && r.history == st.history
  {
  }

  lemma StepAccounted(e: SwapEnv, amount: u64, st: SwapState)
    requires e.tickSpacing > 0 && SwapStep(e, st).Ok? && Accounted(e, amount, st)
    ensures Accounted(e, amount, SwapStep(e, st).value)
  {
    var o := Open(e, st);
    BookAccounted(e, amount, st, o.c);
    MovePriceKeepsBooks(e, o.booked, o.c.nextPrice, o.at, o.next);
  }

  /** The reported amounts are the sums of the steps, and the wrapping sum of protocol fees never wraps. */
  lemma {:induction false} SwapLoopAccounted(e: SwapEnv, amount: u64, st: SwapState)
    requires Ready(e, st) && SwapLoop(e, st).Ok? && Accounted(e, amount, st)
    ensures Accounted(e, amount, SwapLoop(e, st).value)
    decreases Remaining(e, st)
  {
    if Running(e, st) {
      StepProgresses(e, st);
      StepAccounted(e, amount, st);
      SwapLoopAccounted(e, amount, SwapStep(e, st).value);
    }
  }
}
