/**
 * Rewards over whole runs: what positions are owed, have collected and may still be credited is within what was
 * emitted, and short of what was distributed by no more than the rounding.
 */
module PoolRewards {
  import opened Numbers
  import opened TickManager
  import opened PositionManager
  import opened TickSearch
  import opened Ledger
  import opened TM = TokenMath
  import PM = PriceMath
  import opened SwapManager
  import opened SwapProgress
  import opened SwapBooks
  import opened SwapClaims
  import opened SwapGrowth
  import opened PoolState
  import opened PoolInvariant
  import opened PoolLiquidity
  import opened PoolSteps
  import opened PoolPayouts
  import opened PoolRun
  import opened PoolSafety
  import opened PoolTerms

  // ---------------------------------------------------------------- pending shares of one growth channel

  /** A position's liquidity times its pending growth: what settling it would credit, scaled by 2^64 and unrounded. */
  function Share(q: Position, since: nat, h: seq<Accrual>, c: Channel): nat
    requires since <= |h|
  {
    Mul(q.liquidity, Pending(q, since, h, c))
  }

  function Shares(ps: seq<Position>, since: seq<nat>, h: seq<Accrual>, c: Channel, n: nat): nat
    requires Dated(ps, since, h) && n <= |ps|
  {
    if n == 0 then 0 else Shares(ps, since, h, c, n - 1) + Share(ps[n - 1], since[n - 1], h, c)
  }

  function OwedTo(ps: seq<Position>, c: Channel, n: nat): nat
    requires n <= |ps|
  {
    if n == 0 then 0 else OwedTo(ps, c, n - 1) + Owed(ps[n - 1], c)
  }

  /** All that positions may still take of one channel, scaled by 2^64. */
  function Entitled(p: Pool, c: Channel): nat
    requires Dated(p.positions, p.since, p.history)
  {
    Shares(p.positions, p.since, p.history, c, |p.positions|) + TWO_64 * OwedTo(p.positions, c, |p.positions|)
  }

  lemma {:induction false} MulAdds(a: nat, x: nat, y: nat)
    ensures Mul(a, x + y) == Mul(a, x) + Mul(a, y)
  {
    if y > 0 {
      MulAdds(a, x, y - 1);
    }
  }

  lemma {:induction false} MulSums(a: nat, b: nat, x: nat)
    ensures Mul(a + b, x) == Mul(a, x) + Mul(b, x)
  {
    if x > 0 {
      MulSums(a, b, x - 1);
    }
  }

  lemma {:induction false} MulNothing(x: nat)
    ensures Mul(0, x) == 0
  {
    if x > 0 {
      MulNothing(x - 1);
    }
  }

  /** An accrual adds to all shares together its growth times the liquidity active at its tick. */
  lemma {:induction false} SharesAccrue(ps: seq<Position>, since: seq<nat>, h: seq<Accrual>, e: Accrual, c: Channel,
                                        n: nat)
    requires Dated(ps, since, h) && n <= |ps|
    ensures Dated(ps, since, h + [e]) && SumUpTo(ps, ActiveAt(e.tick), n) >= 0
    ensures Shares(ps, since, h + [e], c, n)
            == Shares(ps, since, h, c, n) + if e.channel == c then Mul(SumUpTo(ps, ActiveAt(e.tick), n), e.growth)
                else 0
  {
    hide InsideHistory, Mul;
    SumNonNegative(ps, ActiveAt(e.tick), n);
    if n > 0 {
      SharesAccrue(ps, since, h, e, c, n - 1);
      var q, s := ps[n - 1], since[n - 1];
      HistoryAppend(h, s, e, c, q.tickLowerIndex, q.tickUpperIndex);
      var growth := GrowthOf(e, c, q.tickLowerIndex, q.tickUpperIndex);
      MulAdds(q.liquidity, Pending(q, s, h, c), growth);
      if e.channel == c {
        MulSums(SumUpTo(ps, ActiveAt(e.tick), n - 1), Weight(ActiveAt(e.tick), q), e.growth);
        MulNothing(e.growth);
      }
    } else {
      MulNothing(e.growth);
    }
  }

  lemma {:induction false} SharesUpdate(ps: seq<Position>, since: seq<nat>, h: seq<Accrual>, c: Channel, i: nat,
                                        q: Position, s: nat, n: nat)
    requires Dated(ps, since, h) && i < |ps| && s <= |h| && n <= |ps|
    ensures Shares(ps[i := q], since[i := s], h, c, n)
            == Shares(ps, since, h, c, n) + if i < n then Share(q, s, h, c) - Share(ps[i], since[i], h, c) else 0
    ensures OwedTo(ps[i := q], c, n) == OwedTo(ps, c, n) + if i < n then Owed(q, c) - Owed(ps[i], c) else 0
  {
    hide Share;
    if n > 0 {
      SharesUpdate(ps, since, h, c, i, q, s, n - 1);
    }
  }

  lemma {:induction false} SharesAppend(ps: seq<Position>, since: seq<nat>, h: seq<Accrual>, c: Channel, q: Position,
                                        s: nat, n: nat)
    requires Dated(ps, since, h) && s <= |h| && n <= |ps|
    ensures Shares(ps + [q], since + [s], h, c, n) == Shares(ps, since, h, c, n)
    ensures OwedTo(ps + [q], c, n) == OwedTo(ps, c, n)
  {
    hide Share;
    if n > 0 {
      SharesAppend(ps, since, h, c, q, s, n - 1);
    }
  }

  lemma {:induction false} SharesRemove(ps: seq<Position>, since: seq<nat>, h: seq<Accrual>, c: Channel, i: nat, n: nat)
    requires Dated(ps, since, h) && i < |ps| && n < |ps|
    ensures Dated(Removed(ps, i), Removed(since, i), h)
    ensures Shares(Removed(ps, i), Removed(since, i), h, c, n)
            == if n <= i then Shares(ps, since, h, c, n)
                else Shares(ps, since, h, c, n + 1) - Share(ps[i], since[i], h, c)
    ensures OwedTo(Removed(ps, i), c, n) == if n <= i then OwedTo(ps, c, n) else OwedTo(ps, c, n + 1) - Owed(ps[i], c)
  {
    hide Share;
    if n > 0 {
      SharesRemove(ps, since, h, c, i, n - 1);
    }
  }

  // ---------------------------------------------------------------- one instruction

  /**
   * What an instruction means for one reward, scaled by 2^64 except for what it pays: the emissions of the elapsed
   * time, the part of them that growth can express, and what rounding may keep of that part.
   */
  datatype RewardFlow = RewardFlow(emitted: nat, paid: nat, distributed: nat, rounding: nat)

  const NO_REWARDS := RewardFlow(0, 0, 0, 0)

  function AddRewards(f: RewardFlow, g: RewardFlow): RewardFlow {
    RewardFlow(f.emitted + g.emitted, f.paid + g.paid, f.distributed + g.distributed, f.rounding + g.rounding)
  }

  /**
   * The flow accounts for what positions may take in r: never more than before with what was emitted; and if every
   * credit was counted in full, never less than before with what was distributed, but for the rounding.
   */
  ghost predicate Within(p: Pool, r: Pool, c: Channel, f: RewardFlow, full: bool)
    requires Dated(p.positions, p.since, p.history) && Dated(r.positions, r.since, r.history)
  {
    && Entitled(r, c) + TWO_64 * f.paid <= Entitled(p, c) + f.emitted
    && (full ==> Entitled(p, c) + f.distributed <= Entitled(r, c) + TWO_64 * f.paid + f.rounding)
  }

  /** The emissions of one reward up to `now`, scaled by 2^64. */
  function EmittedBy(p: Pool, now: u64, i: RewardIndex): nat
    requires p.rewardLastUpdated <= now
  {
    if p.rewardInfos[i].initialized then Mul(now - p.rewardLastUpdated, p.rewardInfos[i].emissionsPerSecondX64) else 0
  }

  /** Those that the liquidity in range shares: none if there is none, or if they overflow. */
  function DistributedBy(p: Pool, now: u64, i: RewardIndex): nat
    requires p.rewardLastUpdated <= now
  {
    if p.liquidity > 0 && EmittedBy(p, now, i) < TWO_128 then EmittedBy(p, now, i) else 0
  }

  /** Accruing rewards up to `now` loses less than one unit of growth for each unit of liquidity. */
  function Emission(p: Pool, now: u64, i: RewardIndex): RewardFlow
    requires p.rewardLastUpdated <= now
  {
    RewardFlow(EmittedBy(p, now, i), 0, DistributedBy(p, now, i), p.liquidity)
  }

  /** Settling loses less than one token. */
  const SETTLEMENT := RewardFlow(0, 0, 0, TWO_64)

  lemma AccrualWithin(price: int -> u128, p: Pool, now: u64, i: RewardIndex)
    requires Consistent(price, p) && AccrueRewards(p, now).Ok?
    ensures p.rewardLastUpdated <= now
    ensures var r := AccrueRewards(p, now).value;
            Dated(r.positions, r.since, r.history) && Within(p, r, Reward(i), Emission(p, now, i), true)
  {
    hide Shares, AllCoupled, AllQuiet, IsPriceTable, TicksMatch, RewardDelta;
    var ps, since, h, c := p.positions, p.since, p.history, Reward(i);
    var a0, a1, a2 := RewardAccrual(p, now, 0), RewardAccrual(p, now, 1), RewardAccrual(p, now, 2);
    SharesAccrue(ps, since, h, a0, c, |ps|);
    SharesAccrue(ps, since, h + [a0], a1, c, |ps|);
    SharesAccrue(ps, since, h + [a0] + [a1], a2, c, |ps|);
    var elapsed := now - p.rewardLastUpdated;
    RewardIsShared(p.rewardInfos[i], elapsed, p.liquidity);
    hide Mul;
  }

  lemma RewardIsShared(r: RewardInfo, elapsed: u64, liquidity: u128)
    ensures var shared, emitted := Mul(liquidity, RewardDelta(r, elapsed, liquidity)),
                                   Mul(elapsed, r.emissionsPerSecondX64);
            && shared <= (if r.initialized then emitted else 0)
            && (r.initialized && liquidity > 0 && emitted < TWO_128 ==> emitted <= shared + liquidity)
  {
    var d := RewardDelta(r, elapsed, liquidity);
    RewardWithinEmissions(r, elapsed, liquidity);
    RewardIsFloor(r, elapsed, liquidity);
    MulIsProduct(liquidity, d);
    MulIsProduct(elapsed, r.emissionsPerSecondX64);
    Distribute(d, 1, liquidity);
  }

  lemma WithinSequence(p: Pool, q: Pool, r: Pool, c: Channel, f: RewardFlow, g: RewardFlow, full: bool)
    requires Dated(p.positions, p.since, p.history) && Dated(q.positions, q.since, q.history)
        && Dated(r.positions, r.since, r.history)
    requires Within(p, q, c, f, full) && Within(q, r, c, g, full)
    ensures Within(p, r, c, AddRewards(f, g), full)
  {
    hide Entitled;
  }

  /** What is counted in full is also counted. */
  lemma WithinFull(p: Pool, r: Pool, c: Channel, f: RewardFlow, full: bool)
    requires Dated(p.positions, p.since, p.history) && Dated(r.positions, r.since, r.history)
    requires Within(p, r, c, f, true)
    ensures Within(p, r, c, f, full)
  {
    hide Entitled;
  }

  /** Only positions, their dates and the history matter here. */
  lemma WithinSame(p: Pool, r: Pool, c: Channel)
    requires Dated(p.positions, p.since, p.history)
    requires r.positions == p.positions && r.since == p.since && r.history == p.history
    ensures Dated(r.positions, r.since, r.history) && Within(p, r, c, NO_REWARDS, true)
  {
  }

  /** Settling the position now counts all of its share: the credit and the new amount owed are below 2^64. */
  predicate CountsInFull(p: Pool, id: nat, c: Channel)
    requires Dated(p.positions, p.since, p.history) && id < |p.positions|
  {
    Owed(p.positions[id], c) + Share(p.positions[id], p.since[id], p.history, c) / TWO_64 < TWO_64
  }

  /** Settling trades a share for at most as much owed, and for less than a token less exactly if it counts in full. */
  lemma ReplacedWithin(price: int -> u128, p: Pool, id: nat, delta: int, r: Pool, c: Channel)
    requires Consistent(price, p) && Replaced(p, id, delta, r)
    ensures Dated(r.positions, r.since, r.history) && Within(p, r, c, SETTLEMENT, CountsInFull(p, id, c))
    ensures CountsInFull(p, id, c) <==> Entitled(p, c) < Entitled(r, c) + TWO_64
  {
    hide Sound, TickKept, TicksMatch, LiquidityBooked, AllQuiet, Settled, GrowthsInside, Credit, InsideHistory, Wrap64,
        InsideAt, Mul;
    var q, q' := p.positions[id], r.positions[id];
    var inside := InsideOf(p, q);
    SharesUpdate(p.positions, p.since, p.history, c, id, q', |p.history|, |p.positions|);
    NothingPending(q', p.history, c);
    NoShare(q'.liquidity);
    SettledCheckpoint(q, inside, c);
    ReportedInside(p, q.tickLowerIndex, q.tickUpperIndex, c);
    OwedOf(Settled(q, inside), q', c);
    assert q.liquidity > 0 ==> Coupled(p.ticks, p.tickIndex, PoolGrowths(p), q, p.since[id], p.history, c);
    CreditOfShare(q.liquidity, inside.At(c), Checkpoint(q, c), Pending(q, p.since[id], p.history, c), Owed(q, c));
  }

  lemma NoShare(liquidity: nat)
    ensures Mul(liquidity, 0) == 0
  {
  }

  lemma OwedOf(q: Position, q': Position, c: Channel)
    requires q' == q.(liquidity := q'.liquidity)
    ensures Owed(q', c) == Owed(q, c)
  {
  }

  /**
   * The new amount owed is worth at most the share more than the old one, and less than a token less than that exactly
   * when the true sum is an amount at all.
   */
  lemma CreditOfShare(liquidity: u128, inside: u128, checkpoint: u128, pending: nat, owed: u64)
    requires liquidity > 0 ==> Wrap128(inside - checkpoint) == Wrap128(pending)
    ensures var share, owed' := Mul(liquidity, pending), Wrap64(owed + Credit(liquidity, inside, checkpoint));
            && TWO_64 * owed' <= TWO_64 * owed + share
            && (owed + share / TWO_64 < TWO_64 <==> TWO_64 * owed + share < TWO_64 * owed' + TWO_64)
  {
    MulIsProduct(liquidity, pending);
    PM.MulNonNegative(liquidity, pending);
    hide Mul, Credit;
    var share, credit := liquidity * pending, Credit(liquidity, inside, checkpoint);
    if liquidity > 0 {
      CreditBound(liquidity, inside, checkpoint, pending);
    } else {
      NothingCredited(inside, checkpoint);
    }
    if share / TWO_64 < TWO_64 {
      CreditIsFloor(liquidity, inside, checkpoint, pending);
    }
    WrapOnce(owed + credit);
  }

  lemma WrapOnce(x: nat)
    requires x < 2 * TWO_64
    ensures Wrap64(x) == if x < TWO_64 then x else x - TWO_64
  {
  }

  /** A credit that overflows is lost: growth of 2^64 on a liquidity of 2^64 is worth 2^64 tokens and credits none. */
  lemma OverflowIsLost()
    ensures Credit(TWO_64, TWO_64, 0) == 0 && Mul(TWO_64, TWO_64) / TWO_64 == TWO_64
  {
    MulIsProduct(TWO_64, TWO_64);
    hide Mul;
  }

  lemma NothingCredited(inside: u128, checkpoint: u128)
    ensures Credit(0, inside, checkpoint) == 0
  {
  }

  /** Accruing and then settling one position. */
  function Settlement(p: Pool, now: u64, i: RewardIndex): RewardFlow
    requires p.rewardLastUpdated <= now
  {
    AddRewards(Emission(p, now, i), SETTLEMENT)
  }

  /** With rewards accrued, the position's settlement counts in full. */
  predicate SettlesInFull(p: Pool, id: nat, now: u64, i: RewardIndex) {
    AccrueRewards(p, now).Ok? && id < |p.positions| ==>
      var accrued := AccrueRewards(p, now).value;
      Dated(accrued.positions, accrued.since, accrued.history) ==> CountsInFull(accrued, id, Reward(i))
  }

  lemma SettlementWithin(p: Pool, accrued: Pool, synced: Pool, r: Pool, id: nat, now: u64, i: RewardIndex)
    requires AccrueRewards(p, now) == Ok(accrued) && p.rewardLastUpdated <= now && id < |p.positions|
    requires Dated(p.positions, p.since, p.history) && Dated(accrued.positions, accrued.since, accrued.history)
    requires Within(p, accrued, Reward(i), Emission(p, now, i), true)
    requires Dated(synced.positions, synced.since, synced.history)
        && Within(accrued, synced, Reward(i), SETTLEMENT, CountsInFull(accrued, id, Reward(i)))
    requires r.positions == synced.positions && r.since == synced.since && r.history == synced.history
    ensures Dated(r.positions, r.since, r.history)
        && Within(p, r, Reward(i), Settlement(p, now, i), SettlesInFull(p, id, now, i))
  {
    hide RewardAccrual, GrownReward, Within, Emission, CountsInFull;
    var full := CountsInFull(accrued, id, Reward(i));
    WithinFull(p, accrued, Reward(i), Emission(p, now, i), full);
    WithinSequence(p, accrued, synced, Reward(i), Emission(p, now, i), SETTLEMENT, full);
    WithinSame(synced, r, Reward(i));
    WithinFull(synced, r, Reward(i), NO_REWARDS, full);
    WithinSequence(p, synced, r, Reward(i), Settlement(p, now, i), NO_REWARDS, full);
  }

  lemma ModifyWithin(price: int -> u128, p: Pool, id: nat, delta: i128, ls: int, us: int, now: u64, i: RewardIndex,
                     r: Pool)
    requires Invariant(price, p) && p.tickSpacing > 0 && id < |p.positions| && delta != 0
    requires ModifyLiquidity(p, id, delta, ls, us, now).Ok?
    requires r == ModifyLiquidity(p, id, delta, ls, us, now).value.(vaultA := r.vaultA, vaultB := r.vaultB)
    ensures p.rewardLastUpdated <= now
    ensures Dated(p.positions, p.since, p.history) && Dated(r.positions, r.since, r.history)
    ensures Within(p, r, Reward(i), Settlement(p, now, i), SettlesInFull(p, id, now, i))
  {
    hide Invariant, CalculateModifyLiquidity, RewardAccrual, Replaced, Within, Emission, CountsInFull, SettlesInFull;
    SpacingPositive(price, p);
    var q, accrued := p.positions[id], AccrueRewards(p, now).value;
    var u := CalculateModifyLiquidity(accrued, q, TickAt(p.ticks, q.tickLowerIndex), TickAt(p.ticks, q.tickUpperIndex),
                                      delta).value;
    var synced := Sync(accrued, id, u);
    RewardsAccrue(price, p, now);
    InvariantIsConsistent(price, p);
    InvariantIsConsistent(price, accrued);
    SyncReplaces(price, accrued, id, delta, u);
    AccrualWithin(price, p, now, i);
    ReplacedWithin(price, accrued, id, delta, synced, Reward(i));
    SettlementWithin(p, accrued, synced, r, id, now, i);
  }

  lemma ClockForward(p: Pool, now: u64)
    requires AccrueRewards(p, now).Ok?
    ensures p.rewardLastUpdated <= now
  {
  }

  lemma UpdateWithin(price: int -> u128, p: Pool, id: nat, ls: int, us: int, now: u64, i: RewardIndex)
    requires Invariant(price, p) && p.tickSpacing > 0 && StepUpdateFeesAndRewards(p, id, ls, us, now).Ok?
    ensures var r := StepUpdateFeesAndRewards(p, id, ls, us, now).value;
            && p.rewardLastUpdated <= now
            && Dated(p.positions, p.since, p.history) && Dated(r.positions, r.since, r.history)
            && Within(p, r, Reward(i), Settlement(p, now, i), SettlesInFull(p, id, now, i))
  {
    hide Invariant, StepUpdateFeesAndRewards, GrowthsInside, Settled, RewardAccrual, Replaced, Within, Emission,
        NextRewardInfos, CountsInFull, SettlesInFull, Consistent, Solvent;
    SpacingPositive(price, p);
    UpdateIsSettling(p, id, ls, us, now);
    ClockForward(p, now);
    var accrued, r := AccrueRewards(p, now).value, StepUpdateFeesAndRewards(p, id, ls, us, now).value;
    RewardsAccrue(price, p, now);
    InvariantIsConsistent(price, p);
    InvariantIsConsistent(price, accrued);
    SettleReplaces(price, accrued, id, r);
    AccrualWithin(price, p, now, i);
    ReplacedWithin(price, accrued, id, 0, r, Reward(i));
    SettlementWithin(p, accrued, r, r, id, now, i);
  }

  // ---------------------------------------------------------------- swaps

  /** A swap accrues fees only, so no reward's shares change. */
  lemma {:induction false} LoopShares(e: SwapEnv, ps: seq<Position>, since: seq<nat>, st: SwapState, i: RewardIndex)
    requires Ready(e, st) && SwapLoop(e, st).Ok? && Dated(ps, since, st.history)
    ensures var r := SwapLoop(e, st).value;
            && Dated(ps, since, r.history)
            && Shares(ps, since, r.history, Reward(i), |ps|) == Shares(ps, since, st.history, Reward(i), |ps|)
    decreases Remaining(e, st)
  {
    if Running(e, st) {
      hide SwapStep, Shares, CalculateFees, GrowthDelta;
      StepProgresses(e, st);
      StepHistory(e, st);
      SharesAccrue(ps, since, st.history, StepAccrual(e, st, Open(e, st).c), Reward(i), |ps|);
      LoopShares(e, ps, since, SwapStep(e, st).value, i);
    }
  }

  lemma SwapWithin(price: int -> u128, p: Pool, amount: u64, threshold: u64, limit: u128, isInput: bool, aToB: bool,
                   starts: seq<int>, now: u64, i: RewardIndex)
    requires Invariant(price, p) && Sound(price, p)
        && StepSwap(price, p, amount, threshold, limit, isInput, aToB, starts, now).Ok?
    ensures var r := StepSwap(price, p, amount, threshold, limit, isInput, aToB, starts, now).value;
            && p.rewardLastUpdated <= now
            && Dated(p.positions, p.since, p.history) && Dated(r.positions, r.since, r.history)
            && Within(p, r, Reward(i), Emission(p, now, i), true)
  {
    hide Invariant, Sound, Ready, SwapLoop, RewardAccrual, Within, Emission, Shares, SwapAmounts, CheckThreshold,
        CheckSwap;
    var accrued := AccrueRewards(p, now).value;
    var e, st := EnvOf(price, accrued, limit, isInput, aToB, starts), SwapStart(accrued, amount, aToB);
    SpacingPositive(price, p);
    InvariantIsConsistent(price, p);
    SoundIsReady(price, p, amount, limit, isInput, aToB, starts, now);
    AccrualWithin(price, p, now, i);
    LoopShares(e, p.positions, p.since, st, i);
    var r := StepSwap(price, p, amount, threshold, limit, isInput, aToB, starts, now).value;
    SharesWithin(accrued, r, Reward(i));
    WithinSequence(p, accrued, r, Reward(i), Emission(p, now, i), NO_REWARDS, true);
  }

  lemma SharesWithin(p: Pool, r: Pool, c: Channel)
    requires r.positions == p.positions && r.since == p.since
    requires Dated(p.positions, p.since, p.history) && Dated(r.positions, r.since, r.history)
    requires Shares(r.positions, r.since, r.history, c, |r.positions|)
        == Shares(p.positions, p.since, p.history, c, |p.positions|)
    ensures Within(p, r, c, NO_REWARDS, true)
  {
    hide Shares;
  }

  // ---------------------------------------------------------------- every instruction

  /** What one instruction emits, distributes and pays of a reward. */
  function RewardFlowOf(p: Pool, op: Op, i: RewardIndex): RewardFlow {
    match op
    case IncreaseLiquidity(_, _, _, _, _, _, now) => SettlementBy(p, now, i)
    case DecreaseLiquidity(_, _, _, _, _, _, now) => SettlementBy(p, now, i)
    case UpdateFeesAndRewards(_, _, _, now) => SettlementBy(p, now, i)
    case Swap(_, _, _, _, _, _, now) => EmissionBy(p, now, i)
    case SetRewardEmissions(_, _, _, now) => EmissionBy(p, now, i)
    case CollectReward(id, index, available) =>
      if id < |p.positions| && index == i
      then RewardFlow(0, CollectableReward(p.positions[id].rewardInfos[i].amountOwed, available).0, 0, 0)
      else NO_REWARDS
    case _ => NO_REWARDS
  }

  function EmissionBy(p: Pool, now: u64, i: RewardIndex): RewardFlow {
    if p.rewardLastUpdated <= now then Emission(p, now, i) else NO_REWARDS
  }

  function SettlementBy(p: Pool, now: u64, i: RewardIndex): RewardFlow {
    if p.rewardLastUpdated <= now then Settlement(p, now, i) else NO_REWARDS
  }

  /** An instruction that settles a position counts its share of the reward in full. */
  predicate InFull(p: Pool, op: Op, i: RewardIndex) {
    match op
    case IncreaseLiquidity(id, _, _, _, _, _, now) => SettlesInFull(p, id, now, i)
    case DecreaseLiquidity(id, _, _, _, _, _, now) => SettlesInFull(p, id, now, i)
    case UpdateFeesAndRewards(id, _, _, now) => SettlesInFull(p, id, now, i)
    case _ => true
  }

  lemma CollectWithin(p: Pool, id: nat, index: nat, available: u64, i: RewardIndex)
    requires Dated(p.positions, p.since, p.history) && StepCollectReward(p, id, index, available).Ok?
    ensures var r := StepCollectReward(p, id, index, available).value;
            && Dated(r.positions, r.since, r.history)
            && Within(p, r, Reward(i), RewardFlowOf(p, CollectReward(id, index, available), i), true)
  {
    hide Shares, InsideHistory, Mul;
    var r := StepCollectReward(p, id, index, available).value;
    assert p.since[id := p.since[id]] == p.since;
    SharesUpdate(p.positions, p.since, p.history, Reward(i), id, r.positions[id], p.since[id], |p.positions|);
  }

  lemma OpenWithin(p: Pool, lower: int, upper: int, c: Channel)
    requires Dated(p.positions, p.since, p.history) && p.tickSpacing > 0 && StepOpenPosition(p, lower, upper).Ok?
    ensures var r := StepOpenPosition(p, lower, upper).value;
            Dated(r.positions, r.since, r.history) && Within(p, r, c, NO_REWARDS, true)
  {
    hide InsideHistory, IsUsableTick;
    var r := StepOpenPosition(p, lower, upper).value;
    var q := r.positions[|p.positions|];
    SharesAppend(p.positions, p.since, p.history, c, q, |p.history|, |p.positions|);
    NothingPending(q, p.history, c);
    assert Owed(q, c) == 0;
  }

  /** An empty position has no share, and is owed no reward. */
  lemma CloseWithin(p: Pool, id: nat, i: RewardIndex)
    requires Dated(p.positions, p.since, p.history) && StepClosePosition(p, id).Ok?
    ensures var r := StepClosePosition(p, id).value;
            Dated(r.positions, r.since, r.history) && Within(p, r, Reward(i), NO_REWARDS, true)
  {
    hide InsideHistory, Removed;
    var r, n: nat, c := StepClosePosition(p, id).value, |p.positions| - 1, Reward(i);
    SharesRemove(p.positions, p.since, p.history, c, id, n);
    Shrinks(p.positions, id);
    MulNothing(Pending(p.positions[id], p.since[id], p.history, c));
    hide Share;
    assert Shares(r.positions, r.since, r.history, c, n) == Shares(p.positions, p.since, p.history, c, n + 1);
    assert OwedTo(r.positions, c, n) == OwedTo(p.positions, c, n + 1);
  }

  lemma Shrinks<T>(s: seq<T>, i: nat)
    requires i < |s|
    ensures |Removed(s, i)| == |s| - 1
  {
  }

  lemma CollectFeesWithin(p: Pool, id: nat, i: RewardIndex)
    requires Dated(p.positions, p.since, p.history) && StepCollectFees(p, id).Ok?
    ensures var r := StepCollectFees(p, id).value;
            Dated(r.positions, r.since, r.history) && Within(p, r, Reward(i), NO_REWARDS, true)
  {
    hide Shares, InsideHistory, Mul;
    assert p.since[id := p.since[id]] == p.since;
    SharesUpdate(p.positions, p.since, p.history, Reward(i), id, StepCollectFees(p, id).value.positions[id],
                 p.since[id], |p.positions|);
  }

  /**
   * Every instruction: what positions may take of a reward, with what was paid, grows by at most what was emitted; and,
   * if the instruction counts its settlement in full, by at least what was distributed less the rounding.
   */
  lemma StepWithin(price: int -> u128, p: Pool, op: Op, i: RewardIndex)
    requires Invariant(price, p) && Step(price, p, op).Ok? && Invariant(price, Step(price, p, op).value)
    ensures Within(p, Step(price, p, op).value, Reward(i), RewardFlowOf(p, op, i), InFull(p, op, i))
  {
    hide Sound, Consistent, Solvent, StepUpdateFeesAndRewards, StepCollectFees, StepCollectReward, StepClosePosition,
        StepSwap, StepOpenPosition, ModifyLiquidity, LiquidityTokenDeltas, RewardAccrual, Within, Emission, Settlement,
        SettlesInFull;
    SpacingPositive(price, p);
    SpacingPositive(price, Step(price, p, op).value);
    match op
    case OpenPosition(lower, upper) => OpenWithin(p, lower, upper, Reward(i));
    case IncreaseLiquidity(id, amount, maxA, maxB, ls, us, now) =>
      ModifyWithin(price, p, id, ConvertToLiquidityDelta(amount, true).value, ls, us, now, i, Step(price, p, op).value);
    case DecreaseLiquidity(id, amount, minA, minB, ls, us, now) =>
      ModifyWithin(price, p, id, ConvertToLiquidityDelta(amount, false).value, ls, us, now, i,
                   Step(price, p, op).value);
    case UpdateFeesAndRewards(id, ls, us, now) => UpdateWithin(price, p, id, ls, us, now, i);
    case CollectFees(id) => CollectFeesWithin(p, id, i);
    case CollectReward(id, index, available) => CollectWithin(p, id, index, available, i);
    case ClosePosition(id) => CloseWithin(p, id, i);
    case Swap(amount, threshold, limit, isInput, aToB, starts, now) =>
      SwapWithin(price, p, amount, threshold, limit, isInput, aToB, starts, now, i);
    case SetRewardEmissions(index, emissions, available, now) =>
      EmissionsWithin(price, p, index, emissions, available, now, i);
    case _ => WithinSame(p, Step(price, p, op).value, Reward(i));
  }

  lemma EmissionsWithin(price: int -> u128, p: Pool, index: nat, emissions: u128, available: u64, now: u64,
                        i: RewardIndex)
    requires Invariant(price, p) && StepSetRewardEmissions(p, index, emissions, available, now).Ok?
    ensures var r := StepSetRewardEmissions(p, index, emissions, available, now).value;
            && p.rewardLastUpdated <= now
            && Dated(p.positions, p.since, p.history) && Dated(r.positions, r.since, r.history)
            && Within(p, r, Reward(i), Emission(p, now, i), true)
  {
    hide Invariant, Within, Emission, RewardAccrual;
    InvariantIsConsistent(price, p);
    SpacingPositive(price, p);
    AccrualWithin(price, p, now, i);
    var accrued, r := AccrueRewards(p, now).value, StepSetRewardEmissions(p, index, emissions, available, now).value;
    WithinSame(accrued, r, Reward(i));
    WithinSequence(p, accrued, r, Reward(i), Emission(p, now, i), NO_REWARDS, true);
  }

  /**
   * The clock: an instruction's emissions are the reward's rate times the seconds by which it advances the time of the
   * last update, so that no second is counted twice or left out.
   */
  lemma EmittedIsElapsed(price: int -> u128, p: Pool, op: Op, i: RewardIndex)
    requires Sound(price, p) && Step(price, p, op).Ok?
    ensures var r, info := Step(price, p, op).value, p.rewardInfos[i];
            && p.rewardLastUpdated <= r.rewardLastUpdated
            && RewardFlowOf(p, op, i).emitted
               == if info.initialized
                  then Mul(r.rewardLastUpdated - p.rewardLastUpdated, info.emissionsPerSecondX64) else 0
  {
    hide Sound, GrowthsInside, Settled, RewardAccrual, GrownReward, NextTickModifyLiquidityUpdate, Removed,
        IsUsableTick, IsValidStartTick, LiquidityTokenDeltas, CalculateModifyLiquidity, CheckSwap, CheckThreshold,
        SwapAmounts, Ready, SwapLoop, GetTick, Mul, Owed, IsPositionEmpty, CheckedMulShiftRight;
    MulNothing(p.rewardInfos[i].emissionsPerSecondX64);
  }

  // ---------------------------------------------------------------- whole runs

  ghost function RunRewards(price: int -> u128, p: Pool, ops: seq<Op>, i: RewardIndex): RewardFlow
    requires Invariant(price, p)
  {
    if |ops| == 0 then NO_REWARDS
    else
      var before, op := Run(price, p, ops[..|ops| - 1]), ops[|ops| - 1];
      AddRewards(RunRewards(price, p, ops[..|ops| - 1], i),
                 if Step(price, before, op).Ok? then RewardFlowOf(before, op, i) else NO_REWARDS)
  }

  /** Every settlement of the run counts in full. */
  ghost predicate RunInFull(price: int -> u128, p: Pool, ops: seq<Op>, i: RewardIndex)
    requires Invariant(price, p)
  {
    |ops| == 0
    || (var before, op := Run(price, p, ops[..|ops| - 1]), ops[|ops| - 1];
        RunInFull(price, p, ops[..|ops| - 1], i) && (Step(price, before, op).Ok? ==> InFull(before, op, i)))
  }

  lemma {:induction false} RunWithin(price: int -> u128, p: Pool, ops: seq<Op>, i: RewardIndex)
    requires Invariant(price, p)
    ensures Within(p, Run(price, p, ops), Reward(i), RunRewards(price, p, ops, i), RunInFull(price, p, ops, i))
  {
    hide Invariant, Step, Within, RewardFlowOf, InFull;
    SpacingPositive(price, p);
    if |ops| == 0 {
      WithinSame(p, p, Reward(i));
    } else {
      var before, op, after := Run(price, p, ops[..|ops| - 1]), ops[|ops| - 1], Run(price, p, ops);
      RunWithin(price, p, ops[..|ops| - 1], i);
      SpacingPositive(price, before);
      SpacingPositive(price, after);
      var sum, full := RunRewards(price, p, ops[..|ops| - 1], i), RunInFull(price, p, ops, i);
      FewerInFull(p, before, Reward(i), sum, RunInFull(price, p, ops[..|ops| - 1], i), full);
      if Step(price, before, op).Ok? {
        StepWithin(price, before, op, i);
        FewerInFull(before, after, Reward(i), RewardFlowOf(before, op, i), InFull(before, op, i), full);
        WithinSequence(p, before, after, Reward(i), sum, RewardFlowOf(before, op, i), full);
      }
    }
  }

  lemma FewerInFull(p: Pool, r: Pool, c: Channel, f: RewardFlow, full: bool, less: bool)
    requires Dated(p.positions, p.since, p.history) && Dated(r.positions, r.since, r.history)
    requires Within(p, r, c, f, full) && (less ==> full)
    ensures Within(p, r, c, f, less)
  {
    hide Entitled;
  }

  /** Settling all positions now would credit this much of one reward. */
  function RewardsToCredit(p: Pool, c: Channel, n: nat): nat
    requires Dated(p.positions, p.since, p.history) && n <= |p.positions|
  {
    if n == 0 then 0
    else RewardsToCredit(p, c, n - 1) + Share(p.positions[n - 1], p.since[n - 1], p.history, c) / TWO_64
  }

  lemma {:induction false} CreditOfShares(p: Pool, c: Channel, n: nat)
    requires Dated(p.positions, p.since, p.history) && n <= |p.positions|
    ensures TWO_64 * RewardsToCredit(p, c, n) <= Shares(p.positions, p.since, p.history, c, n)
        <= TWO_64 * (RewardsToCredit(p, c, n) + n)
  {
    hide Share;
    if n > 0 {
      CreditOfShares(p, c, n - 1);
    }
  }

  /**
   * Rewards over every run from a new pool: what was paid out, what positions are owed and what settling them would
   * still credit is together at most what was emitted, however growth and amounts owed wrapped or overflowed; and if
   * every settlement counted in full, it is no less than what was distributed to liquidity in range, but for the
   * rounding: one unit of growth per unit of liquidity at every accrual, one token at every settlement and one for
   * each position that has yet to be settled.
   */
  lemma RewardsMatchEmissions(price: int -> u128, p: Pool, ops: seq<Op>, i: RewardIndex)
    requires Invariant(price, p) && p.positions == []
    ensures var r, f := Run(price, p, ops), RunRewards(price, p, ops, i);
            && Dated(r.positions, r.since, r.history)
            && var received := f.paid + OwedTo(r.positions, Reward(i), |r.positions|)
                               + RewardsToCredit(r, Reward(i), |r.positions|);
               && TWO_64 * received <= f.emitted
               && (RunInFull(price, p, ops, i) ==>
                     f.distributed <= TWO_64 * (received + |r.positions|) + f.rounding)
  {
    hide Consistent, Solvent, Step, RunRewards, Run, RunInFull;
    var r := Run(price, p, ops);
    SpacingPositive(price, p);
    SpacingPositive(price, r);
    RunWithin(price, p, ops, i);
    CreditOfShares(r, Reward(i), |r.positions|);
  }
}
