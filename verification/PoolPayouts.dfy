/**
 * Payments out of the vaults keep the pool invariant and never fail for lack of funds; so do the remaining
 * instructions.
 */
module PoolPayouts {
  import opened Numbers
  import opened TickManager
  import opened PositionManager
  import opened TickSearch
  import opened Ledger
  import opened TM = TokenMath
  import opened SwapManager
  import opened SwapProgress
  import opened SwapBooks
  import opened SwapClaims
  import opened SwapGrowth
  import opened PoolState
  import opened PoolInvariant
  import opened PoolLiquidity
  import opened PoolSteps

  // ---------------------------------------------------------------- withdrawals

  /**
   * A claim of `amount` rounded down from part of all claims fits the vault, even with the protocol's fees set aside.
   */
  lemma CoveredAmount(claims: real, owed: nat, vault: nat, amount: nat)
    requires claims + Q * (owed as real) <= Q * (vault as real) && Q * (amount as real) <= claims
    ensures amount + owed <= vault
  {
    assert Q * ((amount + owed) as real) == Q * (amount as real) + Q * (owed as real);
  }

  lemma ValueMonotone(token: Token, a: nat, b: nat, low: real, high: real, x: real)
    requires a <= b && low <= high
    ensures Value(token, a, low, high, x) <= Value(token, b, low, high, x)
  {
    var rest: nat := b - a;
    ValueAdd(token, a, rest, low, high, x);
    TimesMonotone(rest, 0.0, high - Clamp(x, low, high));
    TimesMonotone(rest, 0.0, Clamp(x, low, high) - low);
  }

  /** Whatever part of its liquidity a position withdraws, both vaults hold it. */
  lemma WithdrawalCovered(price: int -> u128, p: Pool, id: nat, amount: u128, token: Token)
    requires Consistent(price, p) && Solvent(price, p, token) && id < |p.positions|
        && amount <= p.positions[id].liquidity
    requires LiquidityTokenDeltas(price, p.tickIndex, p.sqrtPrice, p.positions[id], amount, false).Ok?
    ensures DeltaOf(LiquidityTokenDeltas(price, p.tickIndex, p.sqrtPrice, p.positions[id], amount, false).value, token)
            + ProtocolOwed(p, token) <= Vault(p, token)
  {
    hide Coupled, AllCoupled, LiquidityBooked, AllQuiet, LiquidityTokenDeltas, IsPriceTable, Value, Coord, PoolClaims,
        InsideHistory, Vault, ProtocolOwed;
    var q, c := p.positions[id], FeeChannel(token);
    var deltas := LiquidityTokenDeltas(price, p.tickIndex, p.sqrtPrice, q, amount, false).value;
    DeltasAgainstValue(price, p.tickIndex, p.sqrtPrice, q, amount, false, token);
    OrderedRange(price, q, token);
    ValueMonotone(token, amount, q.liquidity, LowCoord(price, token, q), HighCoord(price, token, q),
                  Coord(token, p.sqrtPrice));
    ClaimsWithin(price, p, token, id);
    TimesMonotone(q.liquidity, 0.0, Pending(q, p.since[id], p.history, c) as real);
    CoveredAmount(PoolClaims(price, p, token), ProtocolOwed(p, token), Vault(p, token), DeltaOf(deltas, token));
  }

  /** Decreasing liquidity never fails in the transfer. */
  lemma DecreaseNeverShort(price: int -> u128, p: Pool, id: nat, amount: u128, minA: u64, minB: u64, ls: int, us: int,
                           now: u64)
    requires Invariant(price, p) && p.tickSpacing > 0
    ensures StepDecreaseLiquidity(price, p, id, amount, minA, minB, ls, us, now) != Err(InsufficientFunds)
  {
    hide Invariant, CalculateModifyLiquidity, LiquidityTokenDeltas, NextRewardInfos, RewardAccrual;
    if id < |p.positions| {
      NotAboutFunds(price, p, id, amount, ls, us, now);
      if amount > 0 && ConvertToLiquidityDelta(amount, false).Ok? {
        var delta := ConvertToLiquidityDelta(amount, false).value;
        var deltas := LiquidityTokenDeltas(price, p.tickIndex, p.sqrtPrice, p.positions[id], amount, false);
        if ModifyLiquidity(p, id, delta, ls, us, now).Ok? && deltas.Ok? {
          InvariantIsConsistent(price, p);
          EnoughLiquidity(p, id, delta, ls, us, now);
          WithdrawalCovered(price, p, id, amount, TokenA);
          WithdrawalCovered(price, p, id, amount, TokenB);
        }
      }
    }
  }

  lemma EnoughLiquidity(p: Pool, id: nat, delta: i128, ls: int, us: int, now: u64)
    requires p.tickSpacing > 0 && id < |p.positions| && ModifyLiquidity(p, id, delta, ls, us, now).Ok?
    ensures 0 <= p.positions[id].liquidity + delta
  {
    hide NextTickModifyLiquidityUpdate, GrowthsInside, NextRewardInfos, RewardAccrual, NextWhirlpoolLiquidity;
  }

  lemma NotAboutFunds(price: int -> u128, p: Pool, id: nat, amount: u128, ls: int, us: int, now: u64)
    requires p.tickSpacing > 0 && id < |p.positions|
    ensures forall delta :: ModifyLiquidity(p, id, delta, ls, us, now) != Err(InsufficientFunds)
    ensures forall up :: LiquidityTokenDeltas(price, p.tickIndex, p.sqrtPrice, p.positions[id], amount,
                                              up) != Err(InsufficientFunds)
  {
    hide GrowthsInside, Settled;
  }

  // ---------------------------------------------------------------- settling and collecting fees

  /** A checkpoint settles one position of the accrued pool and does nothing else. */
  lemma UpdateIsSettling(p: Pool, id: nat, ls: int, us: int, now: u64)
    requires p.tickSpacing > 0 && StepUpdateFeesAndRewards(p, id, ls, us, now).Ok?
    ensures AccrueRewards(p, now).Ok? && id < |p.positions|
    ensures var accrued := AccrueRewards(p, now).value;
            StepUpdateFeesAndRewards(p, id, ls, us, now).value
            == accrued.(positions := p.positions[id := Settled(p.positions[id], InsideOf(accrued, p.positions[id]))],
                        since := if |p.since| == |p.positions| then p.since[id := |accrued.history|] else p.since)
  {
    hide GrowthsInside, Settled, NextTickModifyLiquidityUpdate, NextRewardInfos, RewardAccrual;
    SettledKeepsRange(p.positions[id], InsideOf(AccrueRewards(p, now).value, p.positions[id]));
  }

  lemma UpdateFeesKeeps(price: int -> u128, p: Pool, id: nat, ls: int, us: int, now: u64)
    requires Invariant(price, p) && p.tickSpacing > 0 && StepUpdateFeesAndRewards(p, id, ls, us, now).Ok?
    ensures Invariant(price, StepUpdateFeesAndRewards(p, id, ls, us, now).value)
  {
    hide Invariant, StepUpdateFeesAndRewards, Settled, GrowthsInside, NextRewardInfos, RewardAccrual;
    UpdateIsSettling(p, id, ls, us, now);
    RewardsAccrue(price, p, now);
    SettlingKeeps(price, AccrueRewards(p, now).value, id, StepUpdateFeesAndRewards(p, id, ls, us, now).value);
  }

  lemma SettlingKeeps(price: int -> u128, p: Pool, id: nat, r: Pool)
    requires Invariant(price, p) && id < |p.positions|
    requires var q := p.positions[id];
             r == p.(positions := p.positions[id := Settled(q, InsideOf(p, q))],
                     since := if |p.since| == |p.positions| then p.since[id := |p.history|] else p.since)
    ensures Invariant(price, r)
  {
    hide Consistent, PoolClaims, Settled, GrowthsInside, Value, Coord, LowCoord, HighCoord, Replaced, Times;
    SpacingPositive(price, p);
    SettleReplaces(price, p, id, r);
    ReplacedStaysConsistent(price, p, id, 0, r);
    ReplacedClaims(price, price, p, id, 0, r, TokenA);
    ReplacedClaims(price, price, p, id, 0, r, TokenB);
    NoLiquidityNoValue(price, p, id, TokenA);
    NoLiquidityNoValue(price, p, id, TokenB);
  }

  lemma NoLiquidityNoValue(price: int -> u128, p: Pool, id: nat, token: Token)
    requires id < |p.positions|
    ensures var q := p.positions[id];
            Value(token, 0, LowCoord(price, token, q), HighCoord(price, token, q), Coord(token, p.sqrtPrice)) == 0.0
  {
  }

  /** The position after its fees are paid out. */
  function Collected(q: Position): Position { q.(feeOwedA := 0, feeOwedB := 0) }

  /** The same position but for what it is owed. */
  ghost predicate SameTerms(q: Position, q': Position) {
    && q'.liquidity == q.liquidity && q'.tickLowerIndex == q.tickLowerIndex && q'.tickUpperIndex == q.tickUpperIndex
    && forall c: Channel :: Checkpoint(q', c) == Checkpoint(q, c)
  }

  /** Consistency does not depend on what positions are owed, nor on the vaults. */
  lemma PaidStaysConsistent(price: int -> u128, p: Pool, id: nat, q': Position, r: Pool)
    requires Consistent(price, p) && id < |p.positions| && SameTerms(p.positions[id], q')
    requires r == p.(positions := p.positions[id := q'], vaultA := r.vaultA, vaultB := r.vaultB)
    ensures Consistent(price, r)
  {
    hide InsideAt, InsideHistory, Quiet, IsPriceTable, Wrap128, InitializedAreUsable, Checkpoint;
    forall m: Measure | !m.OwedIn?
      ensures Sum(r.positions, m) == Sum(p.positions, m)
    {
      SumUpdate(p.positions, m, id, q', |p.positions|);
    }
    forall t: int
      ensures TickAt(r.ticks, t).liquidityGross == Sum(r.positions, GrossAt(t))
          && TickAt(r.ticks, t).liquidityNet == Sum(r.positions, NetAt(t))
      ensures TickAt(r.ticks, t).initialized <==> TickAt(r.ticks, t).liquidityGross > 0
    {
      assert TickAt(p.ticks, t).liquidityGross == Sum(p.positions, GrossAt(t));
    }
    forall i: nat, c: Channel | i < |r.positions| && r.positions[i].liquidity > 0
      ensures Coupled(r.ticks, r.tickIndex, PoolGrowths(r), r.positions[i], r.since[i], r.history, c)
    {
      assert Coupled(p.ticks, p.tickIndex, PoolGrowths(p), p.positions[i], p.since[i], p.history, c);
    }
  }

  /** A payout of fees leaves exactly the other claims, by any valuation. */
  lemma CollectedClaims(valuation: int -> u128, p: Pool, id: nat, r: Pool, token: Token)
    requires Dated(p.positions, p.since, p.history) && id < |p.positions|
    requires r == p.(positions := p.positions[id := Collected(p.positions[id])], vaultA := r.vaultA, vaultB := r.vaultB)
    ensures Dated(r.positions, r.since, r.history)
    ensures PoolClaims(valuation, r, token)
        == PoolClaims(valuation, p, token) - Q * (Owed(p.positions[id], FeeChannel(token)) as real)
  {
    hide Claims, InsideHistory, Value, Coord;
    var q, q', x := p.positions[id], r.positions[id], Coord(token, p.sqrtPrice);
    assert p.since[id := p.since[id]] == p.since;
    ClaimsUpdate(valuation, token, p.positions, p.since, p.history, x, id, q', p.since[id]);
  }

  lemma OwedCovered(price: int -> u128, p: Pool, id: nat, token: Token)
    requires Consistent(price, p) && Solvent(price, p, token) && id < |p.positions|
    ensures Owed(p.positions[id], FeeChannel(token)) + ProtocolOwed(p, token) <= Vault(p, token)
  {
    hide Coupled, AllCoupled, LiquidityBooked, AllQuiet, IsPriceTable, Value, Coord, PoolClaims, InsideHistory, Vault,
        ProtocolOwed;
    var q, c := p.positions[id], FeeChannel(token);
    ClaimsWithin(price, p, token, id);
    TimesMonotone(q.liquidity, 0.0, Pending(q, p.since[id], p.history, c) as real);
    CoveredAmount(PoolClaims(price, p, token), ProtocolOwed(p, token), Vault(p, token), Owed(q, c));
  }

  /** Collecting fees cannot fail for a position that exists, and keeps the invariant. */
  lemma CollectFeesKeeps(price: int -> u128, p: Pool, id: nat)
    requires Invariant(price, p)
    ensures StepCollectFees(p, id).Ok? <==> id < |p.positions|
    ensures StepCollectFees(p, id).Ok? ==> Invariant(price, StepCollectFees(p, id).value)
  {
    hide Consistent, PoolClaims;
    if id < |p.positions| {
      SpacingPositive(price, p);
      OwedCovered(price, p, id, TokenA);
      OwedCovered(price, p, id, TokenB);
      var r := StepCollectFees(p, id).value;
      PaidStaysConsistent(price, p, id, Collected(p.positions[id]), r);
      CollectedClaims(price, p, id, r, TokenA);
      CollectedClaims(price, p, id, r, TokenB);
    }
  }

  // ---------------------------------------------------------------- collecting rewards and closing

  /** Paying out a reward changes only what the position is owed of it. */
  lemma RewardPaid(q: Position, index: RewardIndex, rest: u64)
    ensures var q' := q.(rewardInfos := q.rewardInfos[index := q.rewardInfos[index].(amountOwed := rest)]);
            SameTerms(q, q') && forall token: Token :: Owed(q', FeeChannel(token)) == Owed(q, FeeChannel(token))
  {
  }

  lemma SameFeesSameClaims(valuation: int -> u128, p: Pool, id: nat, q': Position, r: Pool, token: Token)
    requires Dated(p.positions, p.since, p.history) && id < |p.positions| && SameTerms(p.positions[id], q')
    requires Owed(q', FeeChannel(token)) == Owed(p.positions[id], FeeChannel(token))
    requires r == p.(positions := p.positions[id := q'])
    ensures Dated(r.positions, r.since, r.history) && PoolClaims(valuation, r, token) == PoolClaims(valuation, p, token)
  {
    hide Claims, InsideHistory, Value, Coord, Checkpoint;
    assert p.since[id := p.since[id]] == p.since;
    ClaimsUpdate(valuation, token, p.positions, p.since, p.history, Coord(token, p.sqrtPrice), id, q', p.since[id]);
  }

  lemma CollectRewardKeeps(price: int -> u128, p: Pool, id: nat, index: nat, available: u64)
    requires Invariant(price, p) && StepCollectReward(p, id, index, available).Ok?
    ensures Invariant(price, StepCollectReward(p, id, index, available).value)
  {
    hide Consistent, PoolClaims, SameTerms;
    SpacingPositive(price, p);
    var q := p.positions[id];
    var rest := CollectableReward(q.rewardInfos[index].amountOwed, available).1;
    var q' := q.(rewardInfos := q.rewardInfos[index := q.rewardInfos[index].(amountOwed := rest)]);
    var r := StepCollectReward(p, id, index, available).value;
    RewardPaid(q, index, rest);
    PaidStaysConsistent(price, p, id, q', r);
    SameFeesSameClaims(price, p, id, q', r, TokenA);
    SameFeesSameClaims(price, p, id, q', r, TokenB);
  }

  /** A position without liquidity is part of no sum over liquidity, so removing it keeps consistency. */
  lemma ClosedStaysConsistent(price: int -> u128, p: Pool, id: nat, r: Pool)
    requires Consistent(price, p) && id < |p.positions| && p.positions[id].liquidity == 0
    requires r == p.(positions := Removed(p.positions, id), since := Removed(p.since, id))
    ensures Consistent(price, r)
  {
    hide InsideAt, InsideHistory, Quiet, IsPriceTable, Wrap128, InitializedAreUsable, Coupled;
    forall m: Measure | !m.OwedIn?
      ensures Sum(r.positions, m) == Sum(p.positions, m)
    {
      SumRemove(p.positions, m, id, |p.positions| - 1);
    }
    forall t: int
      ensures TickAt(r.ticks, t).liquidityGross == Sum(r.positions, GrossAt(t))
          && TickAt(r.ticks, t).liquidityNet == Sum(r.positions, NetAt(t))
      ensures TickAt(r.ticks, t).initialized <==> TickAt(r.ticks, t).liquidityGross > 0
    {
      assert TickAt(p.ticks, t).liquidityGross == Sum(p.positions, GrossAt(t));
    }
    forall i: nat, c: Channel | i < |r.positions| && r.positions[i].liquidity > 0
      ensures Coupled(r.ticks, r.tickIndex, PoolGrowths(r), r.positions[i], r.since[i], r.history, c)
    {
      var j: nat := if i < id then i else i + 1;
      assert Coupled(p.ticks, p.tickIndex, PoolGrowths(p), p.positions[j], p.since[j], p.history, c);
    }
  }

  /** Nor does it claim anything once it is owed nothing. */
  lemma ClosedClaims(valuation: int -> u128, p: Pool, id: nat, r: Pool, token: Token)
    requires Dated(p.positions, p.since, p.history) && id < |p.positions|
    requires p.positions[id].liquidity == 0 && p.positions[id].feeOwedA == 0 && p.positions[id].feeOwedB == 0
    requires r == p.(positions := Removed(p.positions, id), since := Removed(p.since, id))
    ensures Dated(r.positions, r.since, r.history) && PoolClaims(valuation, r, token) == PoolClaims(valuation, p, token)
  {
    hide Claims, Coord, Pending, Removed;
    ClaimsRemove(valuation, token, p.positions, p.since, p.history, Coord(token, p.sqrtPrice), id);
  }

  lemma ClosePositionKeeps(price: int -> u128, p: Pool, id: nat)
    requires Invariant(price, p) && StepClosePosition(p, id).Ok?
    ensures Invariant(price, StepClosePosition(p, id).value)
  {
    hide Consistent, PoolClaims, Removed;
    SpacingPositive(price, p);
    var r := StepClosePosition(p, id).value;
    ClosedStaysConsistent(price, p, id, r);
    ClosedClaims(price, p, id, r, TokenA);
    ClosedClaims(price, p, id, r, TokenB);
  }

  // ---------------------------------------------------------------- collecting protocol fees

  /** Collecting protocol fees cannot fail at all, and keeps the invariant. */
  lemma CollectProtocolFeesKeeps(price: int -> u128, p: Pool)
    requires Invariant(price, p)
    ensures StepCollectProtocolFees(p).Ok? && Invariant(price, StepCollectProtocolFees(p).value)
  {
    hide PoolClaims, AllCoupled, LiquidityBooked, AllQuiet, Ranges, Dated, IsPriceTable;
    ClaimsWithin(price, p, TokenA, |p.positions|);
    ClaimsWithin(price, p, TokenB, |p.positions|);
    CoveredAmount(PoolClaims(price, p, TokenA), p.protocolFeeOwedA, p.vaultA, 0);
    CoveredAmount(PoolClaims(price, p, TokenB), p.protocolFeeOwedB, p.vaultB, 0);
    var r := StepCollectProtocolFees(p).value;
    VaultsApart(price, p, r.vaultA, r.vaultB);
    ProtocolApart(price, p.(vaultA := r.vaultA, vaultB := r.vaultB), r);
  }

  /** Neither the protocol's fees nor the rates take part in consistency or in the positions' claims. */
  lemma ProtocolApart(price: int -> u128, p: Pool, r: Pool)
    requires Consistent(price, p)
    requires r == p.(protocolFeeOwedA := r.protocolFeeOwedA, protocolFeeOwedB := r.protocolFeeOwedB,
                     feeRate := r.feeRate, protocolFeeRate := r.protocolFeeRate)
    ensures Consistent(price, r) && forall token :: PoolClaims(price, r, token) == PoolClaims(price, p, token)
  {
    hide AllCoupled, LiquidityBooked, AllQuiet, Ranges, Claims, Dated, Coord, IsPriceTable;
  }

  // ---------------------------------------------------------------- configuration

  lemma RatesKeep(price: int -> u128, p: Pool, r: Pool)
    requires Invariant(price, p) && r == p.(feeRate := r.feeRate, protocolFeeRate := r.protocolFeeRate)
    ensures Invariant(price, r)
  {
    hide Consistent, PoolClaims;
    ProtocolApart(price, p, r);
  }

  lemma InitializeTickArrayKeeps(price: int -> u128, p: Pool, start: int)
    requires Invariant(price, p) && p.tickSpacing > 0 && StepInitializeTickArray(p, start).Ok?
    ensures Invariant(price, StepInitializeTickArray(p, start).value)
  {
    hide AllCoupled, LiquidityBooked, AllQuiet, Ranges, Claims, Dated, Coord, IsPriceTable, IsValidStartTick, Wrap128;
  }

  lemma RewardConfigKeeps(price: int -> u128, p: Pool, i: RewardIndex, r: Pool)
    requires Invariant(price, p)
    requires r == p.(rewardInfos := r.rewardInfos)
    requires forall k: RewardIndex :: r.rewardInfos[k].growthGlobalX64 == p.rewardInfos[k].growthGlobalX64
                                      && (p.rewardInfos[k].initialized ==> r.rewardInfos[k].initialized)
    ensures Invariant(price, r)
  {
    hide Claims, LiquidityBooked, Ranges, Coord, IsPriceTable, Wrap128, InsideHistory;
    forall t: int, c: Channel
      ensures Quiet(TickAt(r.ticks, t), c, PoolGrowths(r))
    {
      assert Quiet(TickAt(p.ticks, t), c, PoolGrowths(p));
    }
    forall i: nat, c: Channel | i < |r.positions| && r.positions[i].liquidity > 0
      ensures Coupled(r.ticks, r.tickIndex, PoolGrowths(r), r.positions[i], r.since[i], r.history, c)
    {
      assert Coupled(p.ticks, p.tickIndex, PoolGrowths(p), p.positions[i], p.since[i], p.history, c);
    }
  }

  // ---------------------------------------------------------------- opening a position

  lemma OpenStaysConsistent(price: int -> u128, p: Pool, q: Position, r: Pool)
    requires Consistent(price, p) && q.liquidity == 0 && Ranges([q], p.tickSpacing)
    requires r == p.(positions := p.positions + [q], since := p.since + [|p.history|])
    ensures Consistent(price, r)
  {
    hide Coupled, InsideAt, InsideHistory, Quiet, IsPriceTable, Wrap128, InitializedAreUsable, IsUsableTick;
    forall m: Measure | !m.OwedIn?
      ensures Sum(r.positions, m) == Sum(p.positions, m)
    {
      SumAppend(p.positions, m, q, |p.positions|);
    }
    forall t: int
      ensures TickAt(r.ticks, t).liquidityGross == Sum(r.positions, GrossAt(t))
          && TickAt(r.ticks, t).liquidityNet == Sum(r.positions, NetAt(t))
      ensures TickAt(r.ticks, t).initialized <==> TickAt(r.ticks, t).liquidityGross > 0
    {
      assert TickAt(p.ticks, t).liquidityGross == Sum(p.positions, GrossAt(t));
    }
    assert [q][0] == q;
  }

  lemma OpenClaims(price: int -> u128, p: Pool, q: Position, r: Pool, token: Token)
    requires Dated(p.positions, p.since, p.history) && q.liquidity == 0 && q.feeOwedA == 0 && q.feeOwedB == 0
    requires r == p.(positions := p.positions + [q], since := p.since + [|p.history|])
    ensures Dated(r.positions, r.since, r.history)
    ensures PoolClaims(price, r, token) == PoolClaims(price, p, token)
  {
    hide Claims, Coord;
    ClaimsAppend(price, token, p.positions, p.since, p.history, Coord(token, p.sqrtPrice), q, |p.history|);
  }

  lemma OpenPositionKeeps(price: int -> u128, p: Pool, lower: int, upper: int)
    requires Invariant(price, p) && p.tickSpacing > 0 && StepOpenPosition(p, lower, upper).Ok?
    ensures Invariant(price, StepOpenPosition(p, lower, upper).value)
  {
    hide Consistent, PoolClaims, IsUsableTick;
    SpacingPositive(price, p);
    var none := PositionRewardInfo(0, 0);
    var q := Position(0, lower, upper, 0, 0, 0, 0, [none, none, none]);
    var r := StepOpenPosition(p, lower, upper).value;
    OpenStaysConsistent(price, p, q, r);
    OpenClaims(price, p, q, r, TokenA);
    OpenClaims(price, p, q, r, TokenB);
  }
}
