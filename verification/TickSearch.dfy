/**
 * programs/whirlpool/src/state/tick.rs and util/swap_tick_sequence.rs: finding the next initialised tick across the
 * tick arrays handed to a swap. A pool's ticks are a map from tick index; a tick array is the window of 88 usable
 * ticks that begins at its start index.
 */
module TickSearch {
  import opened Numbers
  import opened TickManager

  const MAX_TICK_INDEX: int := 443636
  const MIN_TICK_INDEX: int := -443636
  const TICK_ARRAY_SIZE: int := 88

  type Ticks = map<int, Tick>

  function TickAt(ticks: Ticks, index: int): Tick {
    if index in ticks then ticks[index] else DEFAULT_TICK
  }

  predicate IsUsableTick(index: int, spacing: nat)
    requires spacing > 0
  {
    MIN_TICK_INDEX <= index <= MAX_TICK_INDEX && Remainder(index, spacing) == 0
  }

  function TicksInArray(spacing: nat): nat { TICK_ARRAY_SIZE * spacing }

  /** Start indices are multiples of the array width; only the left-edge array may begin below the minimum tick. */
  predicate IsValidStartTick(index: int, spacing: nat)
    requires spacing > 0
  {
    var width := TicksInArray(spacing);
    if MIN_TICK_INDEX <= index <= MAX_TICK_INDEX then Remainder(index, width) == 0
    else
      // truncated remainder of the negative minimum tick
      var remainder: int := -(Remainder(-MIN_TICK_INDEX, width) as int);
      index <= MIN_TICK_INDEX && index == MIN_TICK_INDEX - (remainder + width)
  }

  predicate InSearchRange(start: int, index: int, spacing: nat, shifted: bool) {
    var shift := if shifted then spacing else 0;
    start - shift <= index < start + TicksInArray(spacing) - shift
  }

  function TickOffset(start: int, index: int, spacing: nat): int
    requires spacing > 0
  {
    Quot(index - start, spacing)
  }

  predicate IsMinTickArray(start: int) { start <= MIN_TICK_INDEX }

  predicate IsMaxTickArray(start: int, spacing: nat) { start + TicksInArray(spacing) > MAX_TICK_INDEX }

  /** The first initialised tick at or after slot `offset`, walking left or right inside one array. */
  function Scan(ticks: Ticks, start: int, spacing: nat, offset: int, aToB: bool): Option<int>
    requires spacing > 0
    decreases if aToB then offset + 1 else TICK_ARRAY_SIZE - offset
  {
    if !(0 <= offset < TICK_ARRAY_SIZE) then None
    else if TickAt(ticks, offset * spacing + start).initialized then Some(offset * spacing + start)
    else Scan(ticks, start, spacing, if aToB then offset - 1 else offset + 1, aToB)
  }

  function FirstOffset(start: int, index: int, spacing: nat, aToB: bool): int
    requires spacing > 0
  {
    TickOffset(start, index, spacing) + if aToB then 0 else 1
  }

  function NextInitTickIndex(ticks: Ticks, start: int, index: int, spacing: nat, aToB: bool): Result<Option<int>>
    requires spacing > 0
  {
    if !InSearchRange(start, index, spacing, !aToB) then Err(InvalidTickArraySequence)
    else Ok(Scan(ticks, start, spacing, FirstOffset(start, index, spacing, aToB), aToB))
  }

  method GetNextInitTickIndex(ticks: Ticks, start: int, index: int, spacing: nat, aToB: bool)
    returns (r: Result<Option<int>>)
    requires spacing > 0
    ensures r == NextInitTickIndex(ticks, start, index, spacing, aToB)
  {
    if !InSearchRange(start, index, spacing, !aToB) {
      return Err(InvalidTickArraySequence);
    }
    var offset := TickOffset(start, index, spacing);
    if !aToB {
      offset := offset + 1;
    }
    while 0 <= offset < TICK_ARRAY_SIZE
      invariant Scan(ticks, start, spacing, offset, aToB)
             == Scan(ticks, start, spacing, FirstOffset(start, index, spacing, aToB), aToB)
      decreases if aToB then offset + 1 else TICK_ARRAY_SIZE - offset
    {
      if TickAt(ticks, offset * spacing + start).initialized {
        return Ok(Some(offset * spacing + start));
      }
      offset := if aToB then offset - 1 else offset + 1;
    }
    return Ok(None);
  }

  /** The array and tick at which a search through `starts`, begun in array `at`, ends. */
  function NextInitialized(ticks: Ticks, starts: seq<int>, index: int, spacing: nat, aToB: bool, at: nat): Result<(nat,
      int)>
    requires spacing > 0
    decreases |starts| - at
  {
    if at >= |starts| then Err(TickArraySequenceInvalidIndex)
    else
      var start := starts[at];
      var found :- NextInitTickIndex(ticks, start, index, spacing, aToB);
      if found.Some? then Ok((at, found.value))
      else if aToB && IsMinTickArray(start) then Ok((at, MIN_TICK_INDEX))
      else if !aToB && IsMaxTickArray(start, spacing) then Ok((at, MAX_TICK_INDEX))
      else if at + 1 == |starts| then Ok((at, if aToB then start else start + TicksInArray(spacing) - 1))
      else NextInitialized(ticks, starts, NextSearchIndex(start, spacing, aToB), spacing, aToB, at + 1)
  }

  function NextSearchIndex(start: int, spacing: nat, aToB: bool): int {
    if aToB then start - 1 else start + TicksInArray(spacing) - 1
  }

  method GetNextInitializedTickIndex(ticks: Ticks, starts: seq<int>, index: int, spacing: nat, aToB: bool, at: nat)
    returns (r: Result<(nat, int)>)
    requires spacing > 0
    ensures r == NextInitialized(ticks, starts, index, spacing, aToB, at)
  {
    var searchIndex, arrayIndex := index, at;
    while true
      invariant NextInitialized(ticks, starts, index, spacing, aToB, at)
             == NextInitialized(ticks, starts, searchIndex, spacing, aToB, arrayIndex)
      decreases |starts| - arrayIndex
    {
      if arrayIndex >= |starts| {
        return Err(TickArraySequenceInvalidIndex);
      }
      var start := starts[arrayIndex];
      var next := GetNextInitTickIndex(ticks, start, searchIndex, spacing, aToB);
      if next.Err? {
        return Err(next.error);
      }
      if next.value.Some? {
        return Ok((arrayIndex, next.value.value));
      }
      if aToB && IsMinTickArray(start) {
        return Ok((arrayIndex, MIN_TICK_INDEX));
      } else if !aToB && IsMaxTickArray(start, spacing) {
        return Ok((arrayIndex, MAX_TICK_INDEX));
      }
      if arrayIndex + 1 == |starts| {
        return Ok((arrayIndex, if aToB then start else start + TicksInArray(spacing) - 1));
      }
      searchIndex := NextSearchIndex(start, spacing, aToB);
      arrayIndex := arrayIndex + 1;
    }
  }

  // ---------------------------------------------------------------- no initialised tick is skipped

  /** Only usable ticks are ever initialised. */
  ghost predicate InitializedAreUsable(ticks: Ticks, spacing: nat)
    requires spacing > 0
  {
    forall t: int :: TickAt(ticks, t).initialized ==> IsUsableTick(t, spacing)
  }

  /** No initialised tick t with low < t <= high. */
  ghost predicate NoneBetween(ticks: Ticks, low: int, high: int) {
    forall t: int :: low < t <= high ==> !TickAt(ticks, t).initialized
  }

  ghost predicate AlignedStarts(starts: seq<int>, spacing: nat)
    requires spacing > 0
  {
    forall i :: 0 <= i < |starts| ==> Remainder(starts[i], TicksInArray(spacing)) == 0 && starts[i] <= MAX_TICK_INDEX
  }

  /** A valid start tick is a multiple of the array width, the left edge included. */
  lemma ValidStartIsAligned(index: int, spacing: nat)
    requires spacing > 0 && IsValidStartTick(index, spacing)
    ensures Remainder(index, TicksInArray(spacing)) == 0 && index <= MAX_TICK_INDEX
  {
    var width := TicksInArray(spacing);
    if !(MIN_TICK_INDEX <= index <= MAX_TICK_INDEX) {
      var q := (-MIN_TICK_INDEX) / width;
      RemainderIsMod(-MIN_TICK_INDEX, width);
      assert -MIN_TICK_INDEX == q * width + (-MIN_TICK_INDEX) % width;
      QuotientUnique(index, width, -q - 1, 0);
      RemainderIsMod(index, width);
    }
  }

  /** 443636 is no multiple of 88, so the minimum tick never begins an array. */
  lemma EdgeIsInside(spacing: nat, width: nat)
    requires spacing > 0 && width == TicksInArray(spacing)
    ensures 443636 / width * width < 443636 < 443636 / width * width + width
    ensures Remainder(443636, width) == 443636 - 443636 / width * width
  {
    var q := 443636 / width;
    NoMultipleOf88(q, spacing, width);
    RemainderIsMod(443636, width);
    hide TicksInArray, Remainder;
    assert 443636 == q * width + 443636 % width;
  }

  lemma NoMultipleOf88(q: int, spacing: nat, width: nat)
    requires width == TicksInArray(spacing)
    ensures q * width != 443636
  {
    assert q * width == 88 * (q * spacing);
  }

  /** The only multiple of the width less than a width below -n. */
  lemma MultipleBelow(index: int, width: nat, q: nat, n: int)
    requires q * width < n < q * width + width && index < -n
    ensures index % width == 0 && -n - width < index <==> index == -(q * width) - width
  {
    var m, k := -(q as int), index / width;
    var up: int, down: int := m - 1, m - 2;
    assert m * width == -(q * width);
    assert up * width == m * width - width;
    assert down * width == m * width - width - width;
    if index == up * width {
      QuotientUnique(index, width, up, 0);
    }
    if index % width == 0 {
      assert index == k * width;
      if k <= down {
        MulMono(k, down, width);
      }
      if k >= m {
        MulMono(m, k, width);
      }
    }
  }

  /** The start index below the minimum tick is the last multiple of the width there. */
  lemma EdgeStart(index: int, spacing: nat)
    requires spacing > 0 && index < MIN_TICK_INDEX
    ensures IsValidStartTick(index, spacing)
            <==> index % TicksInArray(spacing) == 0 && MIN_TICK_INDEX - TicksInArray(spacing) < index
  {
    var width := TicksInArray(spacing);
    EdgeIsInside(spacing, width);
    hide Remainder;
    MultipleBelow(index, width, 443636 / width, 443636);
  }

  /** Valid start indices are exactly the multiples of the array width whose window meets the tick range. */
  lemma ValidStartExactly(index: int, spacing: nat)
    requires spacing > 0
    ensures IsValidStartTick(index, spacing)
            <==> && index % TicksInArray(spacing) == 0
                 && MIN_TICK_INDEX < index + TicksInArray(spacing) && index <= MAX_TICK_INDEX
  {
    RemainderIsMod(index, TicksInArray(spacing));
    if index < MIN_TICK_INDEX {
      EdgeStart(index, spacing);
    }
  }

  /** Being a multiple of the array width makes a start index a multiple of the spacing. */
  lemma AlignedToSpacing(start: int, spacing: nat)
    requires spacing > 0 && start % TicksInArray(spacing) == 0
    ensures start % spacing == 0
  {
    var q := start / TicksInArray(spacing);
    assert start == q * (TICK_ARRAY_SIZE * spacing);
    assert start == (q * TICK_ARRAY_SIZE) * spacing;
    QuotientUnique(start, spacing, q * TICK_ARRAY_SIZE, 0);
  }

  /** A usable tick sits exactly on its slot. */
  lemma SlotOfUsable(start: int, t: int, spacing: nat)
    requires spacing > 0 && start % spacing == 0 && Remainder(t, spacing) == 0
    ensures TickOffset(start, t, spacing) * spacing + start == t
  {
    RemainderIsMod(t, spacing);
    QuotIsQuotient(t - start, spacing);
    var a, b := t / spacing, start / spacing;
    assert t - start == (a - b) * spacing;
    QuotientUnique(t - start, spacing, a - b, 0);
  }

  /** Walking left, every usable tick between the result (or the array's left end) and the first slot was inspected. */
  lemma {:induction false} ScanLeft(ticks: Ticks, start: int, spacing: nat, offset: int)
    requires spacing > 0 && start % spacing == 0 && InitializedAreUsable(ticks, spacing) && offset < TICK_ARRAY_SIZE
    ensures var r := Scan(ticks, start, spacing, offset, true);
            match r
            case Some(t) => TickAt(ticks, t).initialized && start <= t <= offset * spacing + start
                            && NoneBetween(ticks, t, offset * spacing + start + spacing - 1)
            case None => NoneBetween(ticks, start - 1, offset * spacing + start + spacing - 1)
    decreases offset + 1
  {
    if offset >= 0 {
      var here := offset * spacing + start;
      forall t | here < t <= here + spacing - 1
        ensures !TickAt(ticks, t).initialized
      {
        if TickAt(ticks, t).initialized {
          NoUsableInside(start, offset, t, spacing);
        }
      }
      assert (offset - 1) * spacing + start + spacing == here;
      if !TickAt(ticks, here).initialized {
        ScanLeft(ticks, start, spacing, offset - 1);
      } else {
        MulMono(0, offset, spacing);
      }
    } else {
      MulMono(offset, -1, spacing);
    }
  }

  /** A usable tick never falls between two neighbouring slots. */
  lemma NoUsableInside(start: int, offset: int, t: int, spacing: nat)
    requires spacing > 0 && start % spacing == 0 && Remainder(t, spacing) == 0
    ensures t <= offset * spacing + start || t >= offset * spacing + start + spacing
  {
    SlotOfUsable(start, t, spacing);
    var o := TickOffset(start, t, spacing);
    if o <= offset {
      MulMono(o, offset, spacing);
    } else {
      MulMono(offset + 1, o, spacing);
      Distribute(offset, 1, spacing);
    }
  }

  /** Walking right, the same. */
  lemma {:induction false} ScanRight(ticks: Ticks, start: int, spacing: nat, offset: int)
    requires spacing > 0 && start % spacing == 0 && InitializedAreUsable(ticks, spacing) && 0 <= offset
    ensures var r := Scan(ticks, start, spacing, offset, false);
            match r
            case Some(t) => TickAt(ticks, t).initialized
                && offset * spacing + start <= t < start + TicksInArray(spacing)
                            && NoneBetween(ticks, offset * spacing + start - spacing, t - 1)
            case None => NoneBetween(ticks, offset * spacing + start - spacing, start + TicksInArray(spacing) - 1)
    decreases TICK_ARRAY_SIZE - offset
  {
    var here := offset * spacing + start;
    if offset < TICK_ARRAY_SIZE {
      forall t | here - spacing < t < here
        ensures !TickAt(ticks, t).initialized
      {
        if TickAt(ticks, t).initialized {
          assert (offset - 1) * spacing + start == here - spacing;
          NoUsableInside(start, offset - 1, t, spacing);
        }
      }
      assert (offset + 1) * spacing + start == here + spacing;
      if !TickAt(ticks, here).initialized {
        ScanRight(ticks, start, spacing, offset + 1);
      } else {
        MulMono(offset + 1, TICK_ARRAY_SIZE, spacing);
      }
    } else {
      MulMono(TICK_ARRAY_SIZE, offset, spacing);
      if offset * spacing + start - spacing < start + TicksInArray(spacing) - 1 {
        LastSlot(ticks, start, spacing, offset);
      }
    }
  }

  lemma LastSlot(ticks: Ticks, start: int, spacing: nat, offset: int)
    requires spacing > 0 && start % spacing == 0 && InitializedAreUsable(ticks, spacing) && TICK_ARRAY_SIZE <= offset
    ensures NoneBetween(ticks, offset * spacing + start - spacing, start + TicksInArray(spacing) - 1)
  {
    forall t | offset * spacing + start - spacing < t <= start + TicksInArray(spacing) - 1
      ensures !TickAt(ticks, t).initialized
    {
      MulMono(TICK_ARRAY_SIZE, offset, spacing);
      if TickAt(ticks, t).initialized {
        assert (TICK_ARRAY_SIZE - 1) * spacing == TicksInArray(spacing) - spacing;
        NoUsableInside(start, TICK_ARRAY_SIZE - 1, t, spacing);
      }
    }
  }

  lemma FloorOfOffset(start: int, index: int, spacing: nat)
    requires spacing > 0
    ensures TickOffset(start, index, spacing) * spacing + start <= index
            < TickOffset(start, index, spacing) * spacing + start + spacing
  {
    var d := index - start;
    QuotIsQuotient(d, spacing);
    assert d == (d / spacing) * spacing + d % spacing;
  }

  lemma OffsetInArray(start: int, index: int, spacing: nat)
    requires spacing > 0
    ensures index < start + TicksInArray(spacing) ==> TickOffset(start, index, spacing) < TICK_ARRAY_SIZE
    ensures start - spacing <= index ==> -1 <= TickOffset(start, index, spacing)
  {
    var o := TickOffset(start, index, spacing);
    FloorOfOffset(start, index, spacing);
    if o >= TICK_ARRAY_SIZE {
      MulMono(TICK_ARRAY_SIZE, o, spacing);
    }
    if o < -1 {
      MulMono(o, -2, spacing);
    }
  }

  /** What searching one array leftwards finds. */
  lemma ArrayLeft(ticks: Ticks, start: int, index: int, spacing: nat)
    requires spacing > 0 && InitializedAreUsable(ticks, spacing) && start % TicksInArray(spacing) == 0
    requires InSearchRange(start, index, spacing, false)
    ensures match Scan(ticks, start, spacing, FirstOffset(start, index, spacing, true), true)
            case Some(t) => TickAt(ticks, t).initialized && start <= t <= index && NoneBetween(ticks, t, index)
            case None => NoneBetween(ticks, start - 1, index)
  {
    AlignedToSpacing(start, spacing);
    FloorOfOffset(start, index, spacing);
    OffsetInArray(start, index, spacing);
    ScanLeft(ticks, start, spacing, FirstOffset(start, index, spacing, true));
  }

  /** What searching one array rightwards finds. */
  lemma ArrayRight(ticks: Ticks, start: int, index: int, spacing: nat)
    requires spacing > 0 && InitializedAreUsable(ticks, spacing) && start % TicksInArray(spacing) == 0
    requires InSearchRange(start, index, spacing, true)
    ensures match Scan(ticks, start, spacing, FirstOffset(start, index, spacing, false), false)
            case Some(t) => TickAt(ticks, t).initialized && start <= t < start + TicksInArray(spacing) && index < t
                            && NoneBetween(ticks, index, t - 1)
            case None => NoneBetween(ticks, index, start + TicksInArray(spacing) - 1)
  {
    AlignedToSpacing(start, spacing);
    FloorOfOffset(start, index, spacing);
    OffsetInArray(start, index, spacing);
    var offset := FirstOffset(start, index, spacing, false);
    Distribute(TickOffset(start, index, spacing), 1, spacing);
    MulMono(0, offset, spacing);
    ScanRight(ticks, start, spacing, offset);
  }

  /**
   * A leftward search: the tick it returns is at or below the starting index, inside the tick bounds, and no
   * initialised tick lies strictly between. If it is initialised then the array returned with it holds it.
   */
  lemma {:induction false} SearchLeft(ticks: Ticks, starts: seq<int>, index: int, spacing: nat, at: nat)
    requires spacing > 0 && InitializedAreUsable(ticks, spacing) && AlignedStarts(starts, spacing)
    requires MIN_TICK_INDEX <= index
    ensures var r := NextInitialized(ticks, starts, index, spacing, true, at);
            r.Ok? ==> MIN_TICK_INDEX <= r.value.1 <= index && r.value.0 < |starts|
                      && NoneBetween(ticks, r.value.1, index)
                      && (TickAt(ticks, r.value.1).initialized ==>
                          InSearchRange(starts[r.value.0], r.value.1, spacing, false))
    decreases |starts| - at
  {
    var r := NextInitialized(ticks, starts, index, spacing, true, at);
    if r.Ok? {
      var start := starts[at];
      RemainderIsMod(start, TicksInArray(spacing));
      ArrayLeft(ticks, start, index, spacing);
      if Scan(ticks, start, spacing, FirstOffset(start, index, spacing, true), true).None?
         && !IsMinTickArray(start) && at + 1 < |starts| {
        SearchLeft(ticks, starts, start - 1, spacing, at + 1);
      }
    }
  }

  /** A rightward search: the tick it returns is strictly above the starting index, and none is skipped. */
  lemma {:induction false} SearchRight(ticks: Ticks, starts: seq<int>, index: int, spacing: nat, at: nat)
    requires spacing > 0 && InitializedAreUsable(ticks, spacing) && AlignedStarts(starts, spacing)
    requires index < MAX_TICK_INDEX
    ensures var r := NextInitialized(ticks, starts, index, spacing, false, at);
            r.Ok? ==> index < r.value.1 <= MAX_TICK_INDEX && r.value.0 < |starts|
                      && NoneBetween(ticks, index, r.value.1 - 1)
                      && (TickAt(ticks, r.value.1).initialized ==>
                          InSearchRange(starts[r.value.0], r.value.1, spacing, false))
    decreases |starts| - at
  {
    var r := NextInitialized(ticks, starts, index, spacing, false, at);
    if r.Ok? {
      var start := starts[at];
      RemainderIsMod(start, TicksInArray(spacing));
      ArrayRight(ticks, start, index, spacing);
      if Scan(ticks, start, spacing, FirstOffset(start, index, spacing, false), false).None?
         && !IsMaxTickArray(start, spacing) && at + 1 < |starts| {
        SearchRight(ticks, starts, start + TicksInArray(spacing) - 1, spacing, at + 1);
      }
    }
  }

  // ---------------------------------------------------------------- where a search stops, and when it fails

  /** t is in the window of the array that begins at `start`. */
  predicate InArray(start: int, t: int, spacing: nat) { start <= t < start + TicksInArray(spacing) }

  /** The only ticks a search stops at: an initialised one, an end of the tick range, the end of the last array. */
  predicate StopsAt(ticks: Ticks, starts: seq<int>, spacing: nat, aToB: bool, at: nat, t: int)
    requires at < |starts|
  {
    || TickAt(ticks, t).initialized
    || (aToB && IsMinTickArray(starts[at]) && t == MIN_TICK_INDEX)
    || (!aToB && IsMaxTickArray(starts[at], spacing) && t == MAX_TICK_INDEX)
    || (at == |starts| - 1 && t == if aToB then starts[at] else starts[at] + TicksInArray(spacing) - 1)
  }

  /** A search goes on until there is a reason to stop, in the array that it returns. */
  lemma {:induction false} SearchStops(ticks: Ticks, starts: seq<int>, index: int, spacing: nat, aToB: bool, at: nat)
    requires spacing > 0 && InitializedAreUsable(ticks, spacing) && AlignedStarts(starts, spacing)
    requires if aToB then MIN_TICK_INDEX <= index else index < MAX_TICK_INDEX
    ensures var r := NextInitialized(ticks, starts, index, spacing, aToB, at);
            r.Ok? ==> && at <= r.value.0 < |starts|
                      && InArray(starts[r.value.0], r.value.1, spacing)
                      && StopsAt(ticks, starts, spacing, aToB, r.value.0, r.value.1)
    decreases |starts| - at
  {
    var r := NextInitialized(ticks, starts, index, spacing, aToB, at);
    if r.Ok? {
      var start := starts[at];
      RemainderIsMod(start, TicksInArray(spacing));
      if aToB {
        ArrayLeft(ticks, start, index, spacing);
      } else {
        ArrayRight(ticks, start, index, spacing);
      }
      hide Scan;
      if Scan(ticks, start, spacing, FirstOffset(start, index, spacing, aToB), aToB).None?
         && !(if aToB then IsMinTickArray(start) else IsMaxTickArray(start, spacing)) && at + 1 < |starts| {
        SearchStops(ticks, starts, NextSearchIndex(start, spacing, aToB), spacing, aToB, at + 1);
      }
    }
  }

  /** Each array continues the one before it in the trade's direction. */
  ghost predicate Contiguous(starts: seq<int>, spacing: nat, aToB: bool) {
    forall i :: 0 < i < |starts| ==>
      starts[i] == if aToB then starts[i - 1] - TicksInArray(spacing) else starts[i - 1] + TicksInArray(spacing)
  }

  /** Through contiguous arrays a search that begins in one of them cannot fail. */
  lemma {:induction false} SearchSucceeds(ticks: Ticks, starts: seq<int>, index: int, spacing: nat, aToB: bool,
                                          at: nat)
    requires spacing > 0 && Contiguous(starts, spacing, aToB)
    requires at < |starts| ==> InSearchRange(starts[at], index, spacing, !aToB)
    ensures var r := NextInitialized(ticks, starts, index, spacing, aToB, at);
            if at < |starts| then r.Ok? else r == Err(TickArraySequenceInvalidIndex)
    decreases |starts| - at
  {
    if at + 1 < |starts| {
      SearchSucceeds(ticks, starts, NextSearchIndex(starts[at], spacing, aToB), spacing, aToB, at + 1);
    }
  }
}
