/**
 * The state in which the price stands on the tick above the current one: where it comes from, and why it is left alone.
 */
module PoolBoundary {
  import opened Numbers
  import opened TickManager
  import opened TickSearch
  import opened Ledger
  import opened SwapManager
  import opened SwapProgress
  import opened SwapBooks
  import opened SwapGrowth
  import opened PoolState
  import opened PoolInvariant
  import opened PoolSteps
  import opened PoolRun
  import opened PoolSafety

  predicate AtEdge(price: int -> u128, p: Pool) { AtUpperEdge(price, p.sqrtPrice, p.tickIndex) }

  predicate SamePlace(p: Pool, q: Pool) { p.sqrtPrice == q.sqrtPrice && p.tickIndex == q.tickIndex }

  /** A leftward swap on p whose loop arrived at the tick above r's, and that left r's price and tick index. */
  ghost predicate LeftwardArrival(price: int -> u128, p: Pool, op: Op, r: Pool)
    requires Sound(price, p)
  {
    && op.Swap? && op.aToB && Step(price, p, op).Ok? && SamePlace(Step(price, p, op).value, r)
    && SwapArrives(price, p, op.specified, op.limit, op.isInput, op.starts, op.now, r)
  }

  ghost predicate SwapArrives(price: int -> u128, p: Pool, amount: u64, limit: u128, isInput: bool, starts: seq<int>,
                              now: u64,
                              r: Pool)
    requires Sound(price, p)
  {
    && CheckSwap(p, amount, limit, true).Ok? && AccrueRewards(p, now).Ok? && (forall s :: s in starts ==> s in p.arrays)
    && var accrued := AccrueRewards(p, now).value;
       var e, st := EnvOf(price, accrued, limit, isInput, true, starts), SwapStart(accrued, amount, true);
       SoundIsReady(price, p, amount, limit, isInput, true, starts, now);
       exists s :: ArrivesAt(e, st, s, r.sqrtPrice, r.tickIndex)
  }

  lemma SwapEdge(price: int -> u128, p: Pool, amount: u64, threshold: u64, limit: u128, isInput: bool, aToB: bool,
                 starts: seq<int>, now: u64)
    requires Sound(price, p) && StepSwap(price, p, amount, threshold, limit, isInput, aToB, starts, now).Ok?
    requires AtEdge(price, StepSwap(price, p, amount, threshold, limit, isInput, aToB, starts, now).value)
    ensures var r := StepSwap(price, p, amount, threshold, limit, isInput, aToB, starts, now).value;
            SamePlace(p, r) || (aToB && SwapArrives(price, p, amount, limit, isInput, starts, now, r))
  {
    hide Sound, Ready, SwapLoop, NextRewardInfos, RewardAccrual, SwapAmounts, CheckThreshold, CheckSwap, ArrivesAt;
    var accrued := AccrueRewards(p, now).value;
    var e, st := EnvOf(price, accrued, limit, isInput, aToB, starts), SwapStart(accrued, amount, aToB);
    SoundIsReady(price, p, amount, limit, isInput, aToB, starts, now);
    var s := LoopEdge(e, st);
    var r := SwapLoop(e, st).value;
    if !Unmoved(st, r) {
      ArrivalIsLeftward(e, st, s, r);
    }
  }

  lemma ArrivalIsLeftward(e: SwapEnv, st: SwapState, s: SwapState, r: SwapState)
    requires Ready(e, st) && ArrivesAt(e, st, s, r.sqrtPrice, r.tickIndex)
    ensures e.aToB
  {
  }

  /** Every instruction that leaves the price on the upper edge found it there or is a leftward arrival. */
  lemma EdgeStep(price: int -> u128, p: Pool, op: Op)
    requires Sound(price, p) && Step(price, p, op).Ok? && AtEdge(price, Step(price, p, op).value)
    ensures var r := Step(price, p, op).value;
            SamePlace(p, r) || LeftwardArrival(price, p, op, r)
  {
    hide Sound, StepSwap, SwapArrives, NextTickModifyLiquidityUpdate, GrowthsInside, LiquidityTokenDeltas,
        NextRewardInfos,
         RewardAccrual, NextWhirlpoolLiquidity, AtEdge;
    match op
    case Swap(amount, threshold, limit, isInput, aToB, starts, now) =>
      SwapEdge(price, p, amount, threshold, limit, isInput, aToB, starts, now);
    case _ =>
  }

  /**
   * Over a run that starts off the edge: if it ends on the edge, then one of its instructions was a leftward arrival at
   * the tick above, and price and tick index have stayed as that instruction left them.
   */
  lemma {:induction false} RunEdge(price: int -> u128, p: Pool, ops: seq<Op>) returns (n: nat)
    requires Invariant(price, p) && !AtEdge(price, p) && AtEdge(price, Run(price, p, ops))
    ensures n < |ops| && Sound(price, Run(price, p, ops[..n]))
    ensures LeftwardArrival(price, Run(price, p, ops[..n]), ops[n], Run(price, p, ops))
    ensures forall m :: n < m <= |ops| ==> SamePlace(Run(price, p, ops[..m]), Run(price, p, ops))
  {
    hide Invariant, Sound, Step, LeftwardArrival, AtEdge;
    assert |ops| > 0;
    var front, op := ops[..|ops| - 1], ops[|ops| - 1];
    var before, after := Run(price, p, front), Run(price, p, ops);
    assert ops[..|ops|] == ops;
    SpacingPositive(price, before);
    if !SamePlace(before, after) {
      n := |ops| - 1;
      EdgeStep(price, before, op);
    } else {
      SameEdge(price, before, after);
      n := RunEdge(price, p, front);
      forall m | n < m <= |ops|
        ensures SamePlace(Run(price, p, ops[..m]), after)
      {
        if m < |ops| { assert front[..m] == ops[..m]; }
      }
      assert front[..n] == ops[..n];
      SameArrival(price, Run(price, p, ops[..n]), ops[n], before, after);
    }
  }

  lemma SameEdge(price: int -> u128, p: Pool, q: Pool)
    requires SamePlace(p, q)
    ensures AtEdge(price, p) <==> AtEdge(price, q)
  {
  }

  lemma SameArrival(price: int -> u128, p: Pool, op: Op, q: Pool, r: Pool)
    requires Sound(price, p) && SamePlace(q, r) && LeftwardArrival(price, p, op, q)
    ensures LeftwardArrival(price, p, op, r)
  {
  }

  /** A new pool is off the edge, so every edge state of its runs comes from a leftward arrival. */
  lemma NewPoolOffEdge(price: int -> u128, spacing: nat, s: u128, rate: FeeRate, protocolRate: ProtocolFeeRate)
    requires IsPriceTable(price) && NewPool(price, spacing, s, rate, protocolRate).Ok?
    ensures !AtEdge(price, NewPool(price, spacing, s, rate, protocolRate).value)
  {
    TickOfPriceIsFloorInverse(price, s);
  }

  /** In every reachable pool the upper bound on the price is attained only where a leftward arrival left it. */
  lemma EdgeIsLeftwardArrival(price: int -> u128, spacing: nat, s: u128, rate: FeeRate, protocolRate: ProtocolFeeRate,
                              ops: seq<Op>, p: Pool)
    returns (n: nat)
    requires LeadsTo(price, spacing, s, rate, protocolRate, ops, p) && AtEdge(price, p)
    ensures var p0 := NewPool(price, spacing, s, rate, protocolRate).value;
            && n < |ops| && Sound(price, Run(price, p0, ops[..n]))
            && LeftwardArrival(price, Run(price, p0, ops[..n]), ops[n], p)
            && forall m :: n < m <= |ops| ==> SamePlace(Run(price, p0, ops[..m]), p)
  {
    hide Invariant, Sound, AtEdge, LeftwardArrival, NewPool;
    NewPoolOffEdge(price, spacing, s, rate, protocolRate);
    n := RunEdge(price, NewPool(price, spacing, s, rate, protocolRate).value, ops);
  }

  // ---------------------------------------------------------------- what the guard preserves

  /** The tick of the price is the current tick, except on the edge, where it is the one above. */
  lemma TickOfEdge(price: int -> u128, s: u128, t: int)
    requires IsPriceTable(price) && Coherent(price, s, t)
    ensures TickIndexFromSqrtPrice(price, s) == if AtUpperEdge(price, s, t) then t + 1 else t
  {
    TickOfPriceIsFloorInverse(price, s);
    var f := TickIndexFromSqrtPrice(price, s);
    PriceOrder(price, f, t + 1);
    PriceOrder(price, t, f + 1);
    PriceOrder(price, t + 1, f + 1);
    PriceOrder(price, t + 1, f);
    if AtUpperEdge(price, s, t) && t == MAX_TICK_INDEX { PriceOrder(price, MAX_TICK_INDEX, t + 1); }
  }

  /**
   * Recomputing the tick under a price that did not move would keep the pool's liquidity right exactly off the edge, or
   * where the tick above carries no net liquidity.
   */
  lemma GuardKeepsLiquidity(price: int -> u128, p: Pool)
    requires Consistent(price, p)
    ensures LiquidityBooked(p.positions, p.ticks, TickIndexFromSqrtPrice(price, p.sqrtPrice), p.liquidity)
            <==> !AtEdge(price, p) || TickAt(p.ticks, p.tickIndex + 1).liquidityNet == 0
  {
    hide AllCoupled, AllQuiet, IsPriceTable, TicksMatch, Coherent;
    TickOfEdge(price, p.sqrtPrice, p.tickIndex);
    AcrossTick(p.positions, p.ticks, p.tickIndex + 1, p.tickSpacing);
  }
}
