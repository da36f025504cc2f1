/**
 * Every instruction but the swap keeps the pool invariant, and no payment out of a vault can fail for lack of funds.
 */
module PoolSteps {
  import opened Numbers
  import opened TickManager
  import opened PositionManager
  import opened TickSearch
  import opened Ledger
  import opened TM = TokenMath
  import opened SwapManager
  import opened SwapProgress
  import opened SwapBooks
  import opened SwapClaims
  import opened SwapGrowth
  import opened PoolState
  import opened PoolInvariant
  import opened PoolLiquidity

  // ---------------------------------------------------------------- settling and changing one position

  function InsideOf(p: Pool, q: Position): InsideGrowths {
    GrowthsInside(p, TickAt(p.ticks, q.tickLowerIndex), q.tickLowerIndex, TickAt(p.ticks, q.tickUpperIndex),
                  q.tickUpperIndex)
  }

  /** Positions other than the changed one stay coupled: their ticks remain initialised and keep their growth. */
  lemma OtherStaysCoupled(p: Pool, ps': seq<Position>, ticks': Ticks, i: nat, c: Channel)
    requires Dated(p.positions, p.since, p.history) && i < |p.positions| == |ps'| && ps'[i] == p.positions[i]
    requires p.positions[i].liquidity > 0 && TicksMatch(ticks', ps')
    requires forall t: int :: TickKept(TickAt(p.ticks, t), TickAt(ticks', t), t, p.tickIndex, PoolGrowths(p))
    requires Coupled(p.ticks, p.tickIndex, PoolGrowths(p), p.positions[i], p.since[i], p.history, c)
    ensures Coupled(ticks', p.tickIndex, PoolGrowths(p), p.positions[i], p.since[i], p.history, c)
  {
    hide InsideAt, Wrap128, TickKept, InsideHistory;
    var q := ps'[i];
    EndsInitialized(ps', ticks', i);
    InsideKept(p.ticks, ticks', p.tickIndex, PoolGrowths(p), q.tickLowerIndex, q.tickUpperIndex, c);
  }

  /** The settled position is coupled afresh: its checkpoint is the present inside growth, and nothing is pending. */
  lemma SettledIsCoupled(p: Pool, q: Position, q': Position, ps': seq<Position>, ticks': Ticks, i: nat, c: Channel)
    requires AllQuiet(p.ticks, PoolGrowths(p)) && i < |ps'| && ps'[i] == q' && q'.liquidity > 0
        && TicksMatch(ticks', ps')
    requires forall t: int :: TickKept(TickAt(p.ticks, t), TickAt(ticks', t), t, p.tickIndex, PoolGrowths(p))
    requires q' == Settled(q, InsideOf(p, q)).(liquidity := q'.liquidity)
    ensures Coupled(ticks', p.tickIndex, PoolGrowths(p), q', |p.history|, p.history, c)
  {
    hide InsideAt, TickKept, GrowthsInside;
    EndsInitialized(ps', ticks', i);
    SettledCheckpoint(q, InsideOf(p, q), c);
    ReportedInside(p, q.tickLowerIndex, q.tickUpperIndex, c);
    InsideKept(p.ticks, ticks', p.tickIndex, PoolGrowths(p), q.tickLowerIndex, q.tickUpperIndex, c);
    assert p.history[|p.history|..] == [];
  }

  /** A pool in which one position was settled and given new liquidity, with ticks and pool liquidity to match. */
  ghost predicate Replaced(p: Pool, id: nat, delta: int, r: Pool)
    requires Dated(p.positions, p.since, p.history)
  {
    && id < |p.positions|
    && var q := p.positions[id];
    && 0 <= q.liquidity + delta < TWO_128
    && var q' := Settled(q, InsideOf(p, q)).(liquidity := q.liquidity + delta);
    && r == p.(positions := p.positions[id := q'], since := p.since[id := |p.history|], ticks := r.ticks,
               liquidity := r.liquidity)
    && TicksMatch(r.ticks, r.positions)
    && AllQuiet(r.ticks, PoolGrowths(r))
    && (forall t: int :: TickKept(TickAt(p.ticks, t), TickAt(r.ticks, t), t, p.tickIndex, PoolGrowths(p)))
    && r.liquidity == p.liquidity + if InRange(q, p.tickIndex) then delta else 0
  }

  lemma ReplacedStaysConsistent(price: int -> u128, p: Pool, id: nat, delta: int, r: Pool)
    requires Consistent(price, p) && Replaced(p, id, delta, r)
    ensures Consistent(price, r)
  {
    hide Coupled, TickKept, Settled, GrowthsInside, Quiet, AllQuiet, IsPriceTable;
    var q, q' := p.positions[id], r.positions[id];
    SettledKeepsRange(q, InsideOf(p, q));
    SumUpdate(p.positions, ActiveAt(p.tickIndex), id, q', |p.positions|);
    ReplacedUsable(p, r);
    forall i: nat, c: Channel | i < |r.positions| && r.positions[i].liquidity > 0
      ensures Coupled(r.ticks, r.tickIndex, PoolGrowths(r), r.positions[i], r.since[i], r.history, c)
    {
      if i == id {
        SettledIsCoupled(p, q, q', r.positions, r.ticks, id, c);
      } else {
        OtherStaysCoupled(p, r.positions, r.ticks, i, c);
      }
    }
  }

  /** An initialised tick is the end of some position, and so usable. */
  lemma {:induction false} GrossHasOwner(ps: seq<Position>, t: int, n: nat, spacing: nat)
    requires spacing > 0 && Ranges(ps, spacing) && n <= |ps| && SumUpTo(ps, GrossAt(t), n) > 0
    ensures IsUsableTick(t, spacing)
  {
    if Weight(GrossAt(t), ps[n - 1]) == 0 {
      GrossHasOwner(ps, t, n - 1, spacing);
    }
  }

  lemma MatchedAreUsable(ps: seq<Position>, ticks: Ticks, spacing: nat)
    requires spacing > 0 && Ranges(ps, spacing) && TicksMatch(ticks, ps)
    ensures InitializedAreUsable(ticks, spacing)
  {
    forall t: int | TickAt(ticks, t).initialized
      ensures IsUsableTick(t, spacing)
    {
      GrossHasOwner(ps, t, |ps|, spacing);
    }
  }

  lemma ReplacedUsable(p: Pool, r: Pool)
    requires p.tickSpacing > 0 && Ranges(p.positions, p.tickSpacing) && r.tickSpacing == p.tickSpacing
    requires |r.positions| == |p.positions| && TicksMatch(r.ticks, r.positions)
    requires forall i :: 0 <= i < |p.positions| ==> r.positions[i].tickLowerIndex == p.positions[i].tickLowerIndex
                                                    && r.positions[i].tickUpperIndex == p.positions[i].tickUpperIndex
    ensures Ranges(r.positions, r.tickSpacing) && InitializedAreUsable(r.ticks, r.tickSpacing)
  {
    MatchedAreUsable(r.positions, r.ticks, r.tickSpacing);
  }

  /**
   * The claims after a replacement: what the position was owed shrinks at most, and its principal changes by delta.
   * The claims may be valued by any price function.
   */
  lemma ReplacedClaims(price: int -> u128, valuation: int -> u128, p: Pool, id: nat, delta: int, r: Pool, token: Token)
    requires Consistent(price, p) && Replaced(p, id, delta, r)
    ensures Dated(r.positions, r.since, r.history)
    ensures var q := p.positions[id];
            var low, high, x := LowCoord(valuation, token, q), HighCoord(valuation, token, q),
                Coord(token, p.sqrtPrice);
            && (delta >= 0 ==>
                  PoolClaims(valuation, r, token)
                  <= PoolClaims(valuation, p, token) + Value(token, delta, low, high, x))
            && (delta < 0 ==>
                  PoolClaims(valuation, r, token) + Value(token, -delta, low, high, x)
                  <= PoolClaims(valuation, p, token))
  {
    hide Coupled, TickKept, Settled, GrowthsInside, AllQuiet, Claims, Value, Coord, IsPriceTable, TicksMatch,
        InsideHistory, Credit;
    var q, q', x := p.positions[id], r.positions[id], Coord(token, p.sqrtPrice);
    var settled := Settled(q, InsideOf(p, q));
    SettledKeepsRange(q, InsideOf(p, q));
    ReportedInside(p, q.tickLowerIndex, q.tickUpperIndex, FeeChannel(token));
    SettlingShrinksClaim(valuation, token, p.ticks, p.tickIndex, PoolGrowths(p), q, p.since[id], p.history,
                         InsideOf(p, q), x);
    ClaimsUpdate(valuation, token, p.positions, p.since, p.history, x, id, q', |p.history|);
    NothingPending(q', p.history, FeeChannel(token));
    ClaimWithLiquidity(valuation, token, settled, q', delta, x);
  }

  lemma NothingPending(q: Position, h: seq<Accrual>, c: Channel)
    ensures Pending(q, |h|, h, c) == 0
  {
    assert h[|h|..] == [];
  }

  lemma ClaimWithLiquidity(price: int -> u128, token: Token, q: Position, q': Position, delta: int, x: real)
    requires q' == q.(liquidity := q'.liquidity) && q'.liquidity == q.liquidity + delta
    ensures var low, high := LowCoord(price, token, q), HighCoord(price, token, q);
            && (delta >= 0 ==>
                  Claim(price, token, q', 0, x) == Claim(price, token, q, 0, x) + Value(token, delta, low, high, x))
            && (delta < 0 ==>
                  Claim(price, token, q', 0, x) + Value(token, -delta, low, high, x) == Claim(price, token, q, 0, x))
  {
    hide Value, Coord;
    var low, high := LowCoord(price, token, q), HighCoord(price, token, q);
    TimesZero(q.liquidity);
    TimesZero(q'.liquidity);
    var owed := Q * (Owed(q, FeeChannel(token)) as real);
    assert LowCoord(price, token, q') == low && HighCoord(price, token, q') == high
        && Owed(q', FeeChannel(token)) == Owed(q, FeeChannel(token));
    assert Claim(price, token, q, 0, x) == Value(token, q.liquidity, low, high, x) + owed;
    assert Claim(price, token, q', 0, x) == Value(token, q'.liquidity, low, high, x) + owed;
    hide Claim, Times;
    if delta >= 0 {
      ValueAdd(token, q.liquidity, delta, low, high, x);
    } else {
      ValueAdd(token, q'.liquidity, -delta, low, high, x);
    }
  }

  /** Calculating and syncing a liquidity change replaces the position in the sense above. */
  lemma SyncReplaces(price: int -> u128, p: Pool, id: nat, delta: i128, u: PoolState.ModifyLiquidityUpdate)
    requires Consistent(price, p) && id < |p.positions| && delta != 0
    requires var q := p.positions[id];
             CalculateModifyLiquidity(p, q, TickAt(p.ticks, q.tickLowerIndex), TickAt(p.ticks, q.tickUpperIndex),
                                      delta) == Ok(u)
    ensures Replaced(p, id, delta, Sync(p, id, u))
  {
    hide NextTickModifyLiquidityUpdate, Settled, GrowthsInside, TickKept, AllCoupled, IsPriceTable,
        InitializedAreUsable, IsValidStartTick, TicksMatch, AllQuiet, Coherent, IsUsableTick;
    var q := p.positions[id];
    SettledKeepsRange(q, InsideOf(p, q));
    TicksStillMatch(p.positions, p.ticks, id, u.position, delta, p.tickIndex, PoolGrowths(p), u.lower, u.upper);
    TicksKept(p.ticks, p.positions, q.tickLowerIndex, q.tickUpperIndex, p.tickIndex, PoolGrowths(p), delta, u.lower,
              u.upper);
  }

  /** Settling alone is a replacement with no change of liquidity and no change of ticks. */
  lemma SettleReplaces(price: int -> u128, p: Pool, id: nat, r: Pool)
    requires Consistent(price, p) && id < |p.positions|
    requires var q := p.positions[id];
             r == p.(positions := p.positions[id := Settled(q, InsideOf(p, q))], since := p.since[id := |p.history|])
    ensures Replaced(p, id, 0, r)
  {
    hide Settled, GrowthsInside, Coupled, IsPriceTable;
    var q, q' := p.positions[id], r.positions[id];
    SettledKeepsRange(q, InsideOf(p, q));
    forall t: int
      ensures TickAt(r.ticks, t).liquidityGross == Sum(r.positions, GrossAt(t))
          && TickAt(r.ticks, t).liquidityNet == Sum(r.positions, NetAt(t))
    {
      SumUpdate(p.positions, GrossAt(t), id, q', |p.positions|);
      SumUpdate(p.positions, NetAt(t), id, q', |p.positions|);
    }
    forall t: int
      ensures TickKept(TickAt(p.ticks, t), TickAt(r.ticks, t), t, p.tickIndex, PoolGrowths(p))
    {
      assert forall c: Channel :: Quiet(TickAt(p.ticks, t), c, PoolGrowths(p));
    }
  }

  // ---------------------------------------------------------------- solvency of each instruction

  lemma SolventAfterDeposit(price: int -> u128, p: Pool, r: Pool, token: Token, worth: real, amount: nat)
    requires Dated(p.positions, p.since, p.history) && Solvent(price, p, token)
        && Dated(r.positions, r.since, r.history)
    requires PoolClaims(price, r, token) <= PoolClaims(price, p, token) + worth && worth <= Q * (amount as real)
    requires ProtocolOwed(r, token) == ProtocolOwed(p, token) && Vault(r, token) == Vault(p, token) + amount
    ensures Solvent(price, r, token)
  {
    hide PoolClaims;
  }

  lemma SolventAfterWithdrawal(price: int -> u128, p: Pool, r: Pool, token: Token, worth: real, amount: nat)
    requires Dated(p.positions, p.since, p.history) && Solvent(price, p, token)
        && Dated(r.positions, r.since, r.history)
    requires PoolClaims(price, r, token) + worth <= PoolClaims(price, p, token) && Q * (amount as real) <= worth
    requires ProtocolOwed(r, token) == ProtocolOwed(p, token) && Vault(r, token) == Vault(p, token) - amount
    ensures Solvent(price, r, token)
  {
    hide PoolClaims;
  }

  /** All claims together are at least zero, and at least what any one position claims. */
  lemma ClaimsWithin(price: int -> u128, p: Pool, token: Token, i: nat)
    requires Consistent(price, p)
    ensures 0.0 <= PoolClaims(price, p, token)
    ensures i < |p.positions| ==>
      var q := p.positions[i];
      && 0.0 <= Value(token, q.liquidity, LowCoord(price, token, q), HighCoord(price, token, q),
                      Coord(token, p.sqrtPrice))
      && Value(token, q.liquidity, LowCoord(price, token, q), HighCoord(price, token, q), Coord(token, p.sqrtPrice))
         + Times(q.liquidity, Pending(q, p.since[i], p.history, FeeChannel(token)) as real)
             + Q * (Owed(q, FeeChannel(token)) as real)
         <= PoolClaims(price, p, token)
  {
    hide Coupled, Value, Coord, TicksMatch, InsideHistory, AllQuiet;
    forall k | 0 <= k < |p.positions|
      ensures LowCoord(price, token, p.positions[k]) <= HighCoord(price, token, p.positions[k])
    {
      OrderedRange(price, p.positions[k], token);
    }
    ClaimsContain(price, token, p.positions, p.since, p.history, Coord(token, p.sqrtPrice), i);
    if i < |p.positions| {
      ClaimNonNegative(price, token, p.positions[i], Pending(p.positions[i], p.since[i], p.history, FeeChannel(token)),
                       Coord(token, p.sqrtPrice));
    }
  }

  lemma OrderedRange(price: int -> u128, q: Position, token: Token)
    requires IsPriceTable(price) && MIN_TICK_INDEX <= q.tickLowerIndex < q.tickUpperIndex <= MAX_TICK_INDEX
    ensures 0 < price(q.tickLowerIndex) < price(q.tickUpperIndex)
    ensures LowCoord(price, token, q) <= HighCoord(price, token, q)
  {
    hide Coord;
    PriceOrder(price, MIN_TICK_INDEX, q.tickLowerIndex);
    PriceOrder(price, q.tickLowerIndex, q.tickUpperIndex);
    CoordOrder(token, price(q.tickLowerIndex), price(q.tickUpperIndex));
  }

  // ---------------------------------------------------------------- deposits and withdrawals

  /** Changing the vaults and nothing else of a consistent pool. */
  lemma VaultsApart(price: int -> u128, p: Pool, vaultA: u64, vaultB: u64)
    requires Consistent(price, p)
    ensures var r := p.(vaultA := vaultA, vaultB := vaultB);
            && Consistent(price, r)
            && forall token :: PoolClaims(price, r, token) == PoolClaims(price, p, token)
                               && ProtocolOwed(r, token) == ProtocolOwed(p, token)
  {
    hide AllCoupled, LiquidityBooked, AllQuiet, Ranges, Claims, Dated, Coord, IsPriceTable;
  }

  lemma InvariantIsConsistent(price: int -> u128, p: Pool)
    requires Invariant(price, p)
    ensures Consistent(price, p) && Solvent(price, p, TokenA) && Solvent(price, p, TokenB)
  {
    hide Consistent, Solvent;
  }

  /** What a liquidity change charges or pays covers the change of all claims on one vault. */
  lemma ChangeSolvent(price: int -> u128, p: Pool, id: nat, amount: u128, delta: int, synced: Pool, deltas: (u64, u64),
                      r: Pool, token: Token)
    requires Consistent(price, p) && Solvent(price, p, token) && Replaced(p, id, delta, synced) && Consistent(price, r)
    requires id < |p.positions|
    requires amount > 0 && (delta == amount || delta == -(amount as int))
    requires LiquidityTokenDeltas(price, p.tickIndex, p.sqrtPrice, p.positions[id], amount, delta > 0) == Ok(deltas)
    requires Consistent(price, synced) && PoolClaims(price, r, token) == PoolClaims(price, synced, token)
    requires ProtocolOwed(r, token) == ProtocolOwed(p, token)
    requires Vault(r, token) == Vault(p, token) + if delta > 0 then DeltaOf(deltas, token)
        else -(DeltaOf(deltas, token) as int)
    ensures Solvent(price, r, token)
  {
    hide Coupled, AllCoupled, LiquidityBooked, AllQuiet, Replaced, LiquidityTokenDeltas, IsPriceTable, Value, Coord,
        PoolClaims, Solvent, Vault;
    var q := p.positions[id];
    ReplacedClaims(price, price, p, id, delta, synced, token);
    DeltasAgainstValue(price, p.tickIndex, p.sqrtPrice, q, amount, delta > 0, token);
    var worth := Value(token, amount, LowCoord(price, token, q), HighCoord(price, token, q), Coord(token, p.sqrtPrice));
    if delta > 0 {
      SolventAfterDeposit(price, p, r, token, worth, DeltaOf(deltas, token));
    } else {
      SolventAfterWithdrawal(price, p, r, token, worth, DeltaOf(deltas, token));
    }
  }

  /** The synced pool with the vaults moved by what was charged, or paid, for the liquidity. */
  lemma ChangeKeeps(price: int -> u128, p: Pool, id: nat, amount: u128, delta: i128, u: PoolState.ModifyLiquidityUpdate,
                    deltas: (u64, u64), r: Pool)
    requires Invariant(price, p) && id < |p.positions| && amount > 0 && (delta == amount || delta == -(amount as int))
    requires var q := p.positions[id];
             && CalculateModifyLiquidity(p, q, TickAt(p.ticks, q.tickLowerIndex), TickAt(p.ticks, q.tickUpperIndex),
                                         delta) == Ok(u)
             && LiquidityTokenDeltas(price, p.tickIndex, p.sqrtPrice, q, amount, delta > 0) == Ok(deltas)
    requires r == Sync(p, id, u).(vaultA := r.vaultA, vaultB := r.vaultB)
    requires forall token :: Vault(r, token) == Vault(p, token) + if delta > 0 then DeltaOf(deltas, token)
        else -(DeltaOf(deltas, token) as int)
    ensures Invariant(price, r)
  {
    hide Consistent, Solvent, CalculateModifyLiquidity, LiquidityTokenDeltas, Replaced, Vault, DeltaOf, PoolClaims;
    var synced := Sync(p, id, u);
    SyncReplaces(price, p, id, delta, u);
    ReplacedStaysConsistent(price, p, id, delta, synced);
    VaultsApart(price, synced, r.vaultA, r.vaultB);
    ChangeSolvent(price, p, id, amount, delta, synced, deltas, r, TokenA);
    ChangeSolvent(price, p, id, amount, delta, synced, deltas, r, TokenB);
  }

  lemma IncreaseKeeps(price: int -> u128, p: Pool, id: nat, amount: u128, maxA: u64, maxB: u64, ls: int, us: int,
                      now: u64)
    requires Invariant(price, p) && StepIncreaseLiquidity(price, p, id, amount, maxA, maxB, ls, us, now).Ok?
    ensures Invariant(price, StepIncreaseLiquidity(price, p, id, amount, maxA, maxB, ls, us, now).value)
  {
    hide Invariant, CalculateModifyLiquidity, LiquidityTokenDeltas, NextRewardInfos, RewardAccrual;
    SpacingPositive(price, p);
    var q, delta := p.positions[id], ConvertToLiquidityDelta(amount, true).value;
    var accrued := AccrueRewards(p, now).value;
    var u := CalculateModifyLiquidity(accrued, q, TickAt(p.ticks, q.tickLowerIndex), TickAt(p.ticks, q.tickUpperIndex),
                                      delta).value;
    var deltas := LiquidityTokenDeltas(price, p.tickIndex, p.sqrtPrice, q, amount, true).value;
    RewardsAccrue(price, p, now);
    ChangeKeeps(price, accrued, id, amount, delta, u, deltas,
                StepIncreaseLiquidity(price, p, id, amount, maxA, maxB, ls, us, now).value);
  }

  lemma SpacingPositive(price: int -> u128, p: Pool)
    requires Invariant(price, p)
    ensures Sound(price, p) && p.tickSpacing > 0 && Dated(p.positions, p.since, p.history)
  {
  }

  lemma DecreaseKeeps(price: int -> u128, p: Pool, id: nat, amount: u128, minA: u64, minB: u64, ls: int, us: int,
                      now: u64)
    requires Invariant(price, p) && StepDecreaseLiquidity(price, p, id, amount, minA, minB, ls, us, now).Ok?
    ensures Invariant(price, StepDecreaseLiquidity(price, p, id, amount, minA, minB, ls, us, now).value)
  {
    hide Invariant, CalculateModifyLiquidity, LiquidityTokenDeltas, NextRewardInfos, RewardAccrual;
    SpacingPositive(price, p);
    var q, delta := p.positions[id], ConvertToLiquidityDelta(amount, false).value;
    var accrued := AccrueRewards(p, now).value;
    var u := CalculateModifyLiquidity(accrued, q, TickAt(p.ticks, q.tickLowerIndex), TickAt(p.ticks, q.tickUpperIndex),
                                      delta).value;
    var deltas := LiquidityTokenDeltas(price, p.tickIndex, p.sqrtPrice, q, amount, false).value;
    RewardsAccrue(price, p, now);
    ChangeKeeps(price, accrued, id, amount, delta, u, deltas,
                StepDecreaseLiquidity(price, p, id, amount, minA, minB, ls, us, now).value);
  }
}
