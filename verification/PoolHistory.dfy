/**
 * Over whole runs, the growth inside any two ticks that stay initialised is exactly what the history of accruals says.
 */
module PoolHistory {
  import opened Numbers
  import opened TickManager
  import opened PositionManager
  import opened TickSearch
  import opened Ledger
  import opened TM = TokenMath
  import opened SwapManager
  import opened SwapProgress
  import opened SwapBooks
  import opened SwapGrowth
  import opened PoolState
  import opened PoolInvariant
  import opened PoolLiquidity
  import opened PoolSteps
  import opened PoolPayouts
  import opened PoolSwap
  import opened PoolRun

  function InsidePool(p: Pool, l: int, u: int, c: Channel): u128 {
    InsideAt(p.ticks, p.tickIndex, l, u, c, PoolGrowths(p))
  }

  predicate BothInitialized(p: Pool, l: int, u: int) {
    TickAt(p.ticks, l).initialized && TickAt(p.ticks, u).initialized
  }

  /**
   * r's history extends p's, and the growth inside has changed by exactly the part of the extension that lies inside.
   */
  ghost predicate Follows(p: Pool, r: Pool, l: int, u: int, c: Channel) {
    && |p.history| <= |r.history| && r.history[..|p.history|] == p.history
    && InsidePool(r, l, u, c) == Wrap128(InsidePool(p, l, u, c) + InsideHistory(r.history[|p.history|..], c, l, u))
  }

  lemma FollowsItself(p: Pool, r: Pool, l: int, u: int, c: Channel)
    requires r.history == p.history && InsidePool(r, l, u, c) == InsidePool(p, l, u, c)
    ensures Follows(p, r, l, u, c)
  {
    assert r.history[|p.history|..] == [];
    WrapSmall(InsidePool(p, l, u, c));
  }

  lemma FollowsOn(p: Pool, q: Pool, r: Pool, l: int, u: int, c: Channel)
    requires Follows(p, q, l, u, c) && Follows(q, r, l, u, c)
    ensures Follows(p, r, l, u, c)
  {
    hide InsidePool, Wrap128, InsideHistory;
    var x, y := q.history[|p.history|..], r.history[|q.history|..];
    assert r.history == q.history + y && q.history == p.history + x;
    assert r.history[|p.history|..] == x + y;
    HistoryConcat(x, y, c, l, u);
    WrapChain(InsidePool(p, l, u, c), InsideHistory(x, c, l, u), InsideHistory(y, c, l, u),
              InsideHistory(x + y, c, l, u),
              InsidePool(q, l, u, c), InsidePool(r, l, u, c));
  }

  // ---------------------------------------------------------------- one instruction

  lemma OneRewardFollows(p: Pool, i: RewardIndex, delta: nat, q: Pool, l: int, u: int, c: Channel)
    requires BothInitialized(p, l, u) && LOWEST <= l <= u && LOWEST <= p.tickIndex
    requires q == p.(rewardInfos := p.rewardInfos[i :=
        p.rewardInfos[i].(growthGlobalX64 := Wrap128(p.rewardInfos[i].growthGlobalX64 + delta))],
                     history := p.history + [Accrual(Reward(i), p.tickIndex, delta)])
    ensures Follows(p, q, l, u, c) && BothInitialized(q, l, u)
  {
    hide BelowAt, InsideAt, InsideHistory, Wrap128;
    var entry := Accrual(Reward(i), p.tickIndex, delta);
    WrapSmall(PoolGrowths(p).At(c));
    AccrualBelow(p.ticks, p.tickIndex, l, c, PoolGrowths(p), PoolGrowths(q), entry);
    AccrualBelow(p.ticks, p.tickIndex, u, c, PoolGrowths(p), PoolGrowths(q), entry);
    InsideTracks(p.ticks, p.tickIndex, PoolGrowths(p), q.ticks, q.tickIndex, PoolGrowths(q), [entry], l, u, c);
    assert q.history[|p.history|..] == [entry];
  }

  lemma RewardsFollow(p: Pool, now: u64, l: int, u: int, c: Channel)
    requires BothInitialized(p, l, u) && LOWEST <= l <= u && LOWEST <= p.tickIndex && AccrueRewards(p, now).Ok?
    ensures Follows(p, AccrueRewards(p, now).value, l, u, c) && BothInitialized(AccrueRewards(p, now).value, l, u)
  {
    hide Follows, BothInitialized, RewardDelta;
    var elapsed, r := now - p.rewardLastUpdated, p.rewardInfos;
    var p0 := p.(rewardInfos := r[0 := GrownReward(r[0], elapsed, p.liquidity)],
                 history := p.history + [RewardAccrual(p, now, 0)]);
    OneRewardFollows(p, 0, RewardDelta(r[0], elapsed, p.liquidity), p0, l, u, c);
    var p1 := p0.(rewardInfos := p0.rewardInfos[1 := GrownReward(r[1], elapsed, p.liquidity)],
                  history := p0.history + [RewardAccrual(p, now, 1)]);
    OneRewardFollows(p0, 1, RewardDelta(r[1], elapsed, p.liquidity), p1, l, u, c);
    var p2 := p1.(rewardInfos := p1.rewardInfos[2 := GrownReward(r[2], elapsed, p.liquidity)],
                  history := p1.history + [RewardAccrual(p, now, 2)]);
    OneRewardFollows(p1, 2, RewardDelta(r[2], elapsed, p.liquidity), p2, l, u, c);
    FollowsOn(p, p0, p1, l, u, c);
    FollowsOn(p, p1, p2, l, u, c);
    assert AccrueRewards(p, now).value == p2.(rewardLastUpdated := now);
    SameView(p2, AccrueRewards(p, now).value, l, u, c);
    FollowsOn(p, p2, AccrueRewards(p, now).value, l, u, c);
  }

  /** Only ticks, tick index, global growth and history matter here. */
  lemma SameView(p: Pool, r: Pool, l: int, u: int, c: Channel)
    requires r.ticks == p.ticks && r.tickIndex == p.tickIndex && r.history == p.history
        && PoolGrowths(r).At(c) == PoolGrowths(p).At(c)
    ensures Follows(p, r, l, u, c) && (BothInitialized(p, l, u) <==> BothInitialized(r, l, u))
  {
    hide Follows;
    FollowsItself(p, r, l, u, c);
  }

  lemma ReplacedFollows(p: Pool, id: nat, delta: int, r: Pool, l: int, u: int, c: Channel)
    requires Dated(p.positions, p.since, p.history) && Replaced(p, id, delta, r) && BothInitialized(r, l, u)
    ensures Follows(p, r, l, u, c)
  {
    hide InsideAt, TickKept, Settled, GrowthsInside, TicksMatch, Follows, AllQuiet;
    InsideKept(p.ticks, r.ticks, p.tickIndex, PoolGrowths(p), l, u, c);
    FollowsItself(p, r, l, u, c);
  }

  lemma ModifyFollows(price: int -> u128, p: Pool, id: nat, delta: i128, ls: int, us: int, now: u64, r: Pool, l: int,
                      u: int, c: Channel)
    requires Invariant(price, p) && p.tickSpacing > 0 && id < |p.positions| && delta != 0 && LOWEST <= l <= u
    requires ModifyLiquidity(p, id, delta, ls, us, now).Ok?
    requires r == ModifyLiquidity(p, id, delta, ls, us, now).value.(vaultA := r.vaultA, vaultB := r.vaultB)
    requires BothInitialized(p, l, u) && BothInitialized(r, l, u)
    ensures Follows(p, r, l, u, c)
  {
    hide Invariant, CalculateModifyLiquidity, NextRewardInfos, RewardAccrual, Replaced, Follows;
    SpacingPositive(price, p);
    var q, accrued := p.positions[id], AccrueRewards(p, now).value;
    var update := CalculateModifyLiquidity(accrued, q, TickAt(p.ticks, q.tickLowerIndex),
                                           TickAt(p.ticks, q.tickUpperIndex), delta).value;
    var synced := Sync(accrued, id, update);
    RewardsAccrue(price, p, now);
    InvariantIsConsistent(price, accrued);
    StandsAboveLowest(price, p);
    RewardsFollow(p, now, l, u, c);
    SyncReplaces(price, accrued, id, delta, update);
    ReplacedFollows(accrued, id, delta, synced, l, u, c);
    SameView(synced, r, l, u, c);
    FollowsOn(p, accrued, synced, l, u, c);
    FollowsOn(p, synced, r, l, u, c);
  }

  lemma StandsAboveLowest(price: int -> u128, p: Pool)
    requires Invariant(price, p)
    ensures LOWEST <= p.tickIndex
  {
  }

  lemma UpdateFollows(price: int -> u128, p: Pool, id: nat, ls: int, us: int, now: u64, l: int, u: int, c: Channel)
    requires Invariant(price, p) && p.tickSpacing > 0 && StepUpdateFeesAndRewards(p, id, ls, us, now).Ok?
        && LOWEST <= l <= u
    requires BothInitialized(p, l, u)
    ensures Follows(p, StepUpdateFeesAndRewards(p, id, ls, us, now).value, l, u, c)
  {
    hide Invariant, CalculateModifyLiquidity, NextRewardInfos, RewardAccrual, Follows;
    StandsAboveLowest(price, p);
    RewardsFollow(p, now, l, u, c);
    var accrued, r := AccrueRewards(p, now).value, StepUpdateFeesAndRewards(p, id, ls, us, now).value;
    SameView(accrued, r, l, u, c);
    FollowsOn(p, accrued, r, l, u, c);
  }

  lemma LoopFollows(price: int -> u128, p: Pool, amount: u64, e: SwapEnv, st: SwapState, r: Pool, l: int, u: int,
                    c: Channel)
    requires Entered(price, p, amount, e, st) && SwapLoop(e, st).Ok? && LOWEST <= l <= u && BothInitialized(p, l, u)
    requires r.ticks == SwapLoop(e, st).value.ticks && r.tickIndex == SwapLoop(e, st).value.tickIndex
    requires r.history == SwapLoop(e, st).value.history && PoolGrowths(r) == StateGrowths(e, SwapLoop(e, st).value)
    ensures Follows(p, r, l, u, c)
  {
    hide SwapLoop, Ready, InsideAt, InsideHistory, Wrap128, Linked, Sound, AllCoupled, LiquidityBooked;
    assert StateGrowths(e, st) == PoolGrowths(p);
    SwapLoopLinked(e, st);
    LinkedHistory(e, st, SwapLoop(e, st).value);
    LinkedInside(e, st, SwapLoop(e, st).value, l, u, c);
  }

  lemma SwapFollows(price: int -> u128, p: Pool, amount: u64, threshold: u64, limit: u128, isInput: bool, aToB: bool,
                    starts: seq<int>, now: u64, l: int, u: int, c: Channel)
    requires Invariant(price, p) && Sound(price, p)
        && StepSwap(price, p, amount, threshold, limit, isInput, aToB, starts, now).Ok?
    requires LOWEST <= l <= u && BothInitialized(p, l, u)
    ensures Follows(p, StepSwap(price, p, amount, threshold, limit, isInput, aToB, starts, now).value, l, u, c)
  {
    hide Invariant, Sound, Ready, SwapLoop, NextRewardInfos, RewardAccrual, SwapAmounts, Follows, BothInitialized,
        Consistent;
    var accrued := AccrueRewards(p, now).value;
    var e, st := EnvOf(price, accrued, limit, isInput, aToB, starts), SwapStart(accrued, amount, aToB);
    SoundIsReady(price, p, amount, limit, isInput, aToB, starts, now);
    RewardsAccrue(price, p, now);
    InvariantIsConsistent(price, accrued);
    StandsAboveLowest(price, p);
    RewardsFollow(p, now, l, u, c);
    var r := StepSwap(price, p, amount, threshold, limit, isInput, aToB, starts, now).value;
    LoopFollows(price, accrued, amount, e, st, r, l, u, c);
    FollowsOn(p, accrued, r, l, u, c);
  }

  lemma StepFollows(price: int -> u128, p: Pool, op: Op, l: int, u: int, c: Channel)
    requires Invariant(price, p) && Step(price, p, op).Ok? && LOWEST <= l <= u
    requires BothInitialized(p, l, u) && BothInitialized(Step(price, p, op).value, l, u)
    ensures Follows(p, Step(price, p, op).value, l, u, c)
  {
    hide Invariant, Sound, StepUpdateFeesAndRewards, StepSwap, ModifyLiquidity, LiquidityTokenDeltas, Follows,
        BothInitialized,
         NextRewardInfos, RewardAccrual;
    SpacingPositive(price, p);
    match op
    case IncreaseLiquidity(id, amount, maxA, maxB, ls, us, now) =>
      ModifyFollows(price, p, id, ConvertToLiquidityDelta(amount, true).value, ls, us, now, Step(price, p, op).value,
                    l, u, c);
    case DecreaseLiquidity(id, amount, minA, minB, ls, us, now) =>
      ModifyFollows(price, p, id, ConvertToLiquidityDelta(amount, false).value, ls, us, now, Step(price, p, op).value,
                    l, u, c);
    case UpdateFeesAndRewards(id, ls, us, now) => UpdateFollows(price, p, id, ls, us, now, l, u, c);
    case Swap(amount, threshold, limit, isInput, aToB, starts, now) =>
      SwapFollows(price, p, amount, threshold, limit, isInput, aToB, starts, now, l, u, c);
    case SetRewardEmissions(index, emissions, available, now) =>
      StandsAboveLowest(price, p);
      RewardsFollow(p, now, l, u, c);
      SameView(AccrueRewards(p, now).value, Step(price, p, op).value, l, u, c);
      FollowsOn(p, AccrueRewards(p, now).value, Step(price, p, op).value, l, u, c);
    case _ => SameView(p, Step(price, p, op).value, l, u, c);
  }

  // ---------------------------------------------------------------- whole runs

  /** Both ticks are initialised in every state of the run. */
  ghost predicate StayInitialized(price: int -> u128, p: Pool, ops: seq<Op>, l: int, u: int)
    requires Invariant(price, p)
  {
    forall n :: 0 <= n <= |ops| ==> BothInitialized(Run(price, p, ops[..n]), l, u)
  }

  /**
   * The compressed bookkeeping refines history: through any run in which two ticks stay initialised, what the tick
   * manager reports between them changes, modulo 2^128, by exactly the growth accrued while l <= current tick < u.
   */
  lemma {:induction false} RunRefinesHistory(price: int -> u128, p: Pool, ops: seq<Op>, l: int, u: int, c: Channel)
    requires Invariant(price, p) && l <= u && StayInitialized(price, p, ops, l, u)
    ensures Follows(p, Run(price, p, ops), l, u, c)
  {
    hide Invariant, Step, Follows, BothInitialized;
    assert BothInitialized(Run(price, p, ops[..0]), l, u) && ops[..0] == [];
    InitializedAboveLowest(price, p, l, u);
    if |ops| == 0 {
      SameView(p, p, l, u, c);
    } else {
      var front, op := ops[..|ops| - 1], ops[|ops| - 1];
      var before := Run(price, p, front);
      assert forall n :: 0 <= n <= |front| ==> front[..n] == ops[..n];
      RunRefinesHistory(price, p, front, l, u, c);
      assert BothInitialized(Run(price, p, ops[..|front|]), l, u);
      assert BothInitialized(Run(price, p, ops[..|ops|]), l, u) && ops[..|ops|] == ops;
      SpacingPositive(price, before);
      if Step(price, before, op).Ok? {
        StepFollows(price, before, op, l, u, c);
      } else {
        SameView(before, before, l, u, c);
      }
      FollowsOn(p, before, Run(price, p, ops), l, u, c);
    }
  }

  lemma InitializedAboveLowest(price: int -> u128, p: Pool, l: int, u: int)
    requires Invariant(price, p) && BothInitialized(p, l, u)
    ensures LOWEST <= l && LOWEST <= u
  {
  }
}
