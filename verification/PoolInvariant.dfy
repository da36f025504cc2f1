/** What every reachable pool satisfies, and the parts of it that single updates keep. */
module PoolInvariant {
  import opened Numbers
  import opened TickManager
  import opened PositionManager
  import opened TickSearch
  import opened Ledger
  import opened TM = TokenMath
  import opened SwapManager
  import opened SwapProgress
  import opened SwapBooks
  import opened SwapClaims
  import opened SwapGrowth
  import opened PoolState

  /** All claims on one vault, at the pool's current price. */
  ghost function PoolClaims(price: int -> u128, p: Pool, token: Token): real
    requires Dated(p.positions, p.since, p.history)
  {
    Claims(price, token, p.positions, p.since, p.history, Coord(token, p.sqrtPrice))
  }

  /** The vault covers every position's principal and fees, credited or not, and the protocol's fees. */
  ghost predicate Solvent(price: int -> u128, p: Pool, token: Token)
    requires Dated(p.positions, p.since, p.history)
  {
    PoolClaims(price, p, token) + Q * (ProtocolOwed(p, token) as real) <= Q * (Vault(p, token) as real)
  }

  /**
   * A position's checkpoint and its ticks together say, modulo 2^128, exactly the growth that the history shows inside
   * its range since it was last settled.
   */
  ghost predicate Coupled(ticks: Ticks, current: int, g: Growths, q: Position, since: nat, h: seq<Accrual>, c: Channel)
    requires since <= |h|
  {
    Wrap128(InsideAt(ticks, current, q.tickLowerIndex, q.tickUpperIndex, c, g) - Checkpoint(q, c))
    == Wrap128(Pending(q, since, h, c))
  }

  ghost predicate AllCoupled(ticks: Ticks, current: int, g: Growths, ps: seq<Position>, since: seq<nat>,
                             h: seq<Accrual>)
    requires Dated(ps, since, h)
  {
    forall i: nat, c: Channel :: i < |ps| && ps[i].liquidity > 0 ==> Coupled(ticks, current, g, ps[i], since[i], h, c)
  }

  /** The redundant views of a pool agree: ticks, liquidity and price with the positions, growth with its history. */
  ghost predicate Consistent(price: int -> u128, p: Pool) {
    && Sound(price, p)
    && Ranges(p.positions, p.tickSpacing)
    && LiquidityBooked(p.positions, p.ticks, p.tickIndex, p.liquidity)
    && AllQuiet(p.ticks, PoolGrowths(p))
    && Dated(p.positions, p.since, p.history)
    && AllCoupled(p.ticks, p.tickIndex, PoolGrowths(p), p.positions, p.since, p.history)
  }

  ghost predicate Invariant(price: int -> u128, p: Pool) {
    && Consistent(price, p)
    && Solvent(price, p, TokenA)
    && Solvent(price, p, TokenB)
  }

  lemma NewPoolInvariant(price: int -> u128, spacing: nat, s: u128, feeRate: FeeRate, protocolFeeRate: ProtocolFeeRate)
    requires IsPriceTable(price) && spacing > 0 && NewPool(price, spacing, s, feeRate, protocolFeeRate).Ok?
    ensures Invariant(price, NewPool(price, spacing, s, feeRate, protocolFeeRate).value)
  {
    TickOfPriceIsFloorInverse(price, s);
  }

  // ---------------------------------------------------------------- accruing rewards

  lemma OneRewardAccrues(price: int -> u128, p: Pool, i: RewardIndex, delta: nat, q: Pool)
    requires Invariant(price, p)
    requires p.rewardInfos[i].initialized || delta == 0
    requires q == p.(rewardInfos := p.rewardInfos[i :=
        p.rewardInfos[i].(growthGlobalX64 := Wrap128(p.rewardInfos[i].growthGlobalX64 + delta))],
                     history := p.history + [Accrual(Reward(i), p.tickIndex, delta)])
    ensures Invariant(price, q)
  {
    hide Coupled, Claims, Sum, Wrap128, Coord;
    var entry := Accrual(Reward(i), p.tickIndex, delta);
    ClaimsIgnore(price, TokenA, p.positions, p.since, p.history, Coord(TokenA, p.sqrtPrice), entry);
    ClaimsIgnore(price, TokenB, p.positions, p.since, p.history, Coord(TokenB, p.sqrtPrice), entry);
    RewardKeepsQuiet(p, i, delta, q);
    RewardKeepsCoupling(price, p, i, delta, q);
  }

  lemma RewardKeepsQuiet(p: Pool, i: RewardIndex, delta: nat, q: Pool)
    requires AllQuiet(p.ticks, PoolGrowths(p)) && q.ticks == p.ticks
    requires p.rewardInfos[i].initialized || delta == 0
    requires q.rewardInfos == p.rewardInfos[i :=
        p.rewardInfos[i].(growthGlobalX64 := Wrap128(p.rewardInfos[i].growthGlobalX64 + delta))]
    ensures AllQuiet(q.ticks, PoolGrowths(q))
  {
    WrapSmall(p.rewardInfos[i].growthGlobalX64);
    forall t: int, c: Channel
      ensures Quiet(TickAt(q.ticks, t), c, PoolGrowths(q))
    {
      assert Quiet(TickAt(p.ticks, t), c, PoolGrowths(p));
    }
  }

  /** Both ends of a range that holds liquidity are initialised. */
  lemma EndsInitialized(ps: seq<Position>, ticks: Ticks, i: nat)
    requires TicksMatch(ticks, ps) && i < |ps| && ps[i].liquidity > 0
    ensures TickAt(ticks, ps[i].tickLowerIndex).initialized && TickAt(ticks, ps[i].tickUpperIndex).initialized
  {
    SumContains(ps, GrossAt(ps[i].tickLowerIndex), i, |ps|);
    SumContains(ps, GrossAt(ps[i].tickUpperIndex), i, |ps|);
  }

  /** A single accrual at the current tick, seen from the growth below any initialised tick. */
  lemma AccrualBelow(ticks: Ticks, current: int, t: int, c: Channel, g: Growths, g': Growths, entry: Accrual)
    requires TickAt(ticks, t).initialized && entry.tick == current >= LOWEST
    requires g'.At(c) == Wrap128(g.At(c) + if entry.channel == c then entry.growth else 0)
    ensures BelowAt(ticks, current, t, c, g')
            == Wrap128(BelowAt(ticks, current, t, c, g) + InsideHistory([entry], c, LOWEST, t))
  {
    AccrualMovesBelow(TickAt(ticks, t), t, current, c, g.At(c), if entry.channel == c then entry.growth else 0);
    SingleEntry(entry, c, LOWEST, t);
  }

  lemma RewardKeepsCoupling(price: int -> u128, p: Pool, i: RewardIndex, delta: nat, q: Pool)
    requires Invariant(price, p)
    requires q == p.(rewardInfos := p.rewardInfos[i :=
        p.rewardInfos[i].(growthGlobalX64 := Wrap128(p.rewardInfos[i].growthGlobalX64 + delta))],
                     history := p.history + [Accrual(Reward(i), p.tickIndex, delta)])
    ensures Dated(q.positions, q.since, q.history)
    ensures AllCoupled(q.ticks, q.tickIndex, PoolGrowths(q), q.positions, q.since, q.history)
  {
    hide Coupled, Solvent, Wrap128;
    var entry := Accrual(Reward(i), p.tickIndex, delta);
    forall k: nat, c: Channel | k < |p.positions| && p.positions[k].liquidity > 0
      ensures Coupled(q.ticks, q.tickIndex, PoolGrowths(q), q.positions[k], q.since[k], q.history, c)
    {
      EndsInitialized(p.positions, p.ticks, k);
      WrapSmall(PoolGrowths(p).At(c));
      PositionAccrues(p.ticks, p.tickIndex, PoolGrowths(p), PoolGrowths(q), p.positions[k], p.since[k], p.history,
                      entry, c);
    }
  }

  /** One accrual keeps a position coupled whose two ticks are initialised. */
  lemma PositionAccrues(ticks: Ticks, t: int, g: Growths, g': Growths, z: Position, since: nat, h: seq<Accrual>,
                        entry: Accrual, c: Channel)
    requires since <= |h| && Coupled(ticks, t, g, z, since, h, c)
    requires LOWEST <= z.tickLowerIndex <= z.tickUpperIndex && entry.tick == t >= LOWEST
    requires TickAt(ticks, z.tickLowerIndex).initialized && TickAt(ticks, z.tickUpperIndex).initialized
    requires g'.At(c) == Wrap128(g.At(c) + if entry.channel == c then entry.growth else 0)
    ensures Coupled(ticks, t, g', z, since, h + [entry], c)
  {
    hide BelowAt, InsideAt, InsideHistory, Coupled, Wrap128;
    AccrualBelow(ticks, t, z.tickLowerIndex, c, g, g', entry);
    AccrualBelow(ticks, t, z.tickUpperIndex, c, g, g', entry);
    InsideTracks(ticks, t, g, ticks, t, g', [entry], z.tickLowerIndex, z.tickUpperIndex, c);
    CouplingExtends(ticks, t, g, ticks, t, g', z, since, h, [entry], c);
  }

  /** If inside growth tracks new history then a coupled position stays coupled. */
  lemma CouplingExtends(ticks: Ticks, t: int, g: Growths, ticks': Ticks, t': int, g': Growths, q: Position, since: nat,
                        h: seq<Accrual>, more: seq<Accrual>, c: Channel)
    requires since <= |h| && Coupled(ticks, t, g, q, since, h, c)
    requires InsideAt(ticks', t', q.tickLowerIndex, q.tickUpperIndex, c, g')
             == Wrap128(InsideAt(ticks, t, q.tickLowerIndex, q.tickUpperIndex, c, g)
                        + InsideHistory(more, c, q.tickLowerIndex, q.tickUpperIndex))
    ensures Coupled(ticks', t', g', q, since, h + more, c)
  {
    hide InsideAt, InsideHistory, Wrap128;
    assert (h + more)[since..] == h[since..] + more;
    HistoryConcat(h[since..], more, c, q.tickLowerIndex, q.tickUpperIndex);
    var l, u := q.tickLowerIndex, q.tickUpperIndex;
    WrapShiftBoth(InsideAt(ticks, t, l, u, c, g), InsideHistory(more, c, l, u), Checkpoint(q, c),
                  InsideHistory(h[since..], c, l, u), InsideAt(ticks', t', l, u, c, g'),
                  InsideHistory(h[since..] + more, c, l, u));
  }

  lemma WrapShiftBoth(inside: int, more: int, checkpoint: int, pending: int, inside': int, pending': int)
    requires Wrap128(inside - checkpoint) == Wrap128(pending)
    requires inside' == Wrap128(inside + more) && pending' == pending + more
    ensures Wrap128(inside' - checkpoint) == Wrap128(pending')
  {
    WrapAdd(inside + more, -checkpoint);
    WrapAdd(inside - checkpoint, more);
    WrapAdd(pending, more);
  }

  lemma RewardsAccrue(price: int -> u128, p: Pool, now: u64)
    requires Invariant(price, p) && AccrueRewards(p, now).Ok?
    ensures Invariant(price, AccrueRewards(p, now).value)
  {
    hide Invariant;
    var elapsed := now - p.rewardLastUpdated;
    var d0, d1, d2 := RewardDelta(p.rewardInfos[0], elapsed, p.liquidity),
        RewardDelta(p.rewardInfos[1], elapsed, p.liquidity),
                      RewardDelta(p.rewardInfos[2], elapsed, p.liquidity);
    var r := p.rewardInfos;
    var p0 := p.(rewardInfos := r[0 := GrownReward(r[0], elapsed, p.liquidity)],
                 history := p.history + [RewardAccrual(p, now, 0)]);
    OneRewardAccrues(price, p, 0, d0, p0);
    var p1 := p0.(rewardInfos := p0.rewardInfos[1 := GrownReward(r[1], elapsed, p.liquidity)],
                  history := p0.history + [RewardAccrual(p, now, 1)]);
    OneRewardAccrues(price, p0, 1, d1, p1);
    var p2 := p1.(rewardInfos := p1.rewardInfos[2 := GrownReward(r[2], elapsed, p.liquidity)],
                  history := p1.history + [RewardAccrual(p, now, 2)]);
    OneRewardAccrues(price, p1, 2, d2, p2);
    assert AccrueRewards(p, now).value == p2.(rewardLastUpdated := now);
    TimestampIrrelevant(price, p2, now);
  }

  lemma TimestampIrrelevant(price: int -> u128, p: Pool, now: u64)
    requires Invariant(price, p)
    ensures Invariant(price, p.(rewardLastUpdated := now))
  {
    hide Claims, Coupled, Sum;
  }
}
