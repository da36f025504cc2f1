/** What each instruction moves, exactly: which amounts enter and leave the vaults, and what it leaves alone. */
module PoolAmounts {
  import opened Numbers
  import opened TickManager
  import opened PositionManager
  import opened TickSearch
  import opened Ledger
  import opened TM = TokenMath
  import opened SwapManager
  import opened SwapBooks
  import opened SwapGrowth
  import opened PoolState
  import opened PoolInvariant
  import opened PoolLiquidity
  import opened PoolSteps
  import opened PoolPayouts
  import opened PoolSafety
  import opened PoolTerms

  // ---------------------------------------------------------------- deposits and withdrawals

  lemma PositionPriced(price: int -> u128, p: Pool, id: nat)
    requires Consistent(price, p) && id < |p.positions|
    ensures var q := p.positions[id];
            && MIN_TICK_INDEX <= q.tickLowerIndex < q.tickUpperIndex <= MAX_TICK_INDEX
            && 0 < price(q.tickLowerIndex) <= price(q.tickUpperIndex) && 0 < p.sqrtPrice
  {
    hide AllCoupled, AllQuiet, LiquidityBooked, IsPriceTable;
    OrderedRange(price, p.positions[id], TokenA);
  }

  /** What the two transfers of a deposit or withdrawal are computed as. */
  lemma DepositTransfers(price: int -> u128, p: Pool, id: nat, amount: u128, maxA: u64, maxB: u64, ls: int, us: int,
                         now: u64, token: Token)
    requires p.tickSpacing > 0 && StepIncreaseLiquidity(price, p, id, amount, maxA, maxB, ls, us, now).Ok?
    ensures id < |p.positions|
    ensures var deltas := LiquidityTokenDeltas(price, p.tickIndex, p.sqrtPrice, p.positions[id], amount, true);
            deltas.Ok? && Vault(StepIncreaseLiquidity(price, p, id, amount, maxA, maxB, ls, us, now).value, token)
                          == Vault(p, token) + DeltaOf(deltas.value, token)
  {
    hide ModifyLiquidity, LiquidityTokenDeltas;
  }

  lemma WithdrawalTransfers(price: int -> u128, p: Pool, id: nat, amount: u128, minA: u64, minB: u64, ls: int,
                            us: int, now: u64, token: Token)
    requires p.tickSpacing > 0 && StepDecreaseLiquidity(price, p, id, amount, minA, minB, ls, us, now).Ok?
    ensures id < |p.positions|
    ensures var deltas := LiquidityTokenDeltas(price, p.tickIndex, p.sqrtPrice, p.positions[id], amount, false);
            deltas.Ok? && Vault(StepDecreaseLiquidity(price, p, id, amount, minA, minB, ls, us, now).value, token)
                          == Vault(p, token) - DeltaOf(deltas.value, token)
  {
    hide ModifyLiquidity, LiquidityTokenDeltas;
  }

  /**
   * A deposit raises each vault by exactly the worth of the liquidity in that token, rounded up to a whole token.
   */
  lemma DepositChargesExactly(price: int -> u128, p: Pool, id: nat, amount: u128, maxA: u64, maxB: u64, ls: int,
                              us: int, now: u64, token: Token)
    requires Invariant(price, p) && p.tickSpacing > 0
        && StepIncreaseLiquidity(price, p, id, amount, maxA, maxB, ls, us, now).Ok?
    ensures id < |p.positions| && 0 < p.sqrtPrice
        && 0 < price(p.positions[id].tickLowerIndex) <= price(p.positions[id].tickUpperIndex)
    ensures var r := StepIncreaseLiquidity(price, p, id, amount, maxA, maxB, ls, us, now).value;
            var charge: int := Vault(r, token) - Vault(p, token);
            var worth := Worth(price, p, p.positions[id], amount, token);
            && charge == PartAmount(price, p, p.positions[id], amount, token, true)
            && Q * ((charge - 1) as real) < worth <= Q * (charge as real)
  {
    hide Invariant, Consistent, StepIncreaseLiquidity, LiquidityTokenDeltas, PartAmount, Vault, DeltaOf;
    InvariantIsConsistent(price, p);
    DepositTransfers(price, p, id, amount, maxA, maxB, ls, us, now, token);
    PositionPriced(price, p, id);
    DeltaIsPart(price, p, p.positions[id], amount, true, token);
    PartIsWorthRounded(price, p, p.positions[id], amount, token);
  }

  /**
   * A withdrawal lowers each vault by exactly the worth of the liquidity in that token, rounded down to a whole token;
   * withdrawing the whole liquidity pays all that is withdrawable.
   */
  lemma WithdrawalPaysExactly(price: int -> u128, p: Pool, id: nat, amount: u128, minA: u64, minB: u64, ls: int,
                              us: int, now: u64, token: Token)
    requires Invariant(price, p) && p.tickSpacing > 0
        && StepDecreaseLiquidity(price, p, id, amount, minA, minB, ls, us, now).Ok?
    ensures id < |p.positions| && 0 < p.sqrtPrice
        && 0 < price(p.positions[id].tickLowerIndex) <= price(p.positions[id].tickUpperIndex)
    ensures var r := StepDecreaseLiquidity(price, p, id, amount, minA, minB, ls, us, now).value;
            var q := p.positions[id];
            var payment: int := Vault(p, token) - Vault(r, token);
            var worth := Worth(price, p, q, amount, token);
            && payment == PartAmount(price, p, q, amount, token, false)
            && Q * (payment as real) <= worth < Q * ((payment + 1) as real)
            && (amount == q.liquidity ==> payment == Withdrawable(price, p, q, token))
  {
    hide Invariant, Consistent, StepDecreaseLiquidity, LiquidityTokenDeltas, PartAmount, Vault, DeltaOf;
    InvariantIsConsistent(price, p);
    WithdrawalTransfers(price, p, id, amount, minA, minB, ls, us, now, token);
    PositionPriced(price, p, id);
    DeltaIsPart(price, p, p.positions[id], amount, false, token);
    PartIsWorthRounded(price, p, p.positions[id], amount, token);
  }

  // ---------------------------------------------------------------- payouts

  /** Two pools that differ at most in one position and in the vaults. */
  ghost predicate OnlyPaid(p: Pool, r: Pool, id: nat) {
    && id < |p.positions| == |r.positions|
    && (forall i :: 0 <= i < |p.positions| && i != id ==> r.positions[i] == p.positions[i])
    && r.(positions := p.positions, vaultA := p.vaultA, vaultB := p.vaultB) == p
  }

  /**
   * Collecting fees lowers each vault by exactly what the position was owed in that token, after which it is owed
   * none; rewards owed and everything else stay.
   */
  lemma CollectFeesPaysExactly(price: int -> u128, p: Pool, id: nat)
    requires Invariant(price, p) && id < |p.positions|
    ensures StepCollectFees(p, id).Ok?
    ensures var r := StepCollectFees(p, id).value;
            && OnlyPaid(p, r, id) && SameTerms(p.positions[id], r.positions[id])
            && (forall token :: && Vault(p, token) - Vault(r, token) == Owed(p.positions[id], FeeChannel(token))
                                && Owed(r.positions[id], FeeChannel(token)) == 0)
            && (forall i: RewardIndex :: Owed(r.positions[id], Reward(i)) == Owed(p.positions[id], Reward(i)))
  {
    hide Invariant;
    CollectFeesKeeps(price, p, id);
  }

  /** Collecting protocol fees lowers each vault by exactly what the protocol was owed, after which it is owed none. */
  lemma CollectProtocolFeesPaysExactly(price: int -> u128, p: Pool)
    requires Invariant(price, p)
    ensures StepCollectProtocolFees(p).Ok?
    ensures var r := StepCollectProtocolFees(p).value;
            && (forall token :: && Vault(p, token) - Vault(r, token) == ProtocolOwed(p, token)
                                && ProtocolOwed(r, token) == 0)
            && r.(protocolFeeOwedA := p.protocolFeeOwedA, protocolFeeOwedB := p.protocolFeeOwedB, vaultA := p.vaultA,
                  vaultB := p.vaultB) == p
  {
    hide Invariant;
    CollectProtocolFeesKeeps(price, p);
  }

  /** A reward is paid as far as its vault has it, and the rest stays owed. */
  lemma CollectableIsAllThereIs(owed: u64, available: u64)
    ensures var (paid, rest) := CollectableReward(owed, available);
            paid + rest == owed && paid <= available && (rest == 0 || paid == available)
  {
  }

  /** Collecting a reward lowers what the position is owed of it by exactly that payment, and nothing else. */
  lemma CollectRewardPaysExactly(p: Pool, id: nat, index: nat, available: u64)
    ensures StepCollectReward(p, id, index, available).Ok?
            <==> id < |p.positions| && index < NUM_REWARDS && p.rewardInfos[index].initialized
    ensures var r := StepCollectReward(p, id, index, available);
            r.Ok? ==>
              var q, q' := p.positions[id], r.value.positions[id];
              var paid: int := Owed(q, Reward(index)) - Owed(q', Reward(index));
              && OnlyPaid(p, r.value, id) && r.value.vaultA == p.vaultA && r.value.vaultB == p.vaultB
              && SameTerms(q, q')
              && 0 <= paid <= available && (Owed(q', Reward(index)) == 0 || paid == available)
              && (forall c: Channel :: c != Reward(index) ==> Owed(q', c) == Owed(q, c))
  {
  }

  // ---------------------------------------------------------------- opening, closing and configuring

  /**
   * Opening a position succeeds exactly for two multiples of the tick spacing within the tick range and in ascending
   * order, and adds an empty position between them, settled as of now.
   */
  lemma OpenPositionAddsExactly(p: Pool, lower: int, upper: int)
    requires p.tickSpacing > 0
    ensures StepOpenPosition(p, lower, upper).Ok?
            <==> && MIN_TICK_INDEX <= lower < upper <= MAX_TICK_INDEX
                 && lower % p.tickSpacing == 0 && upper % p.tickSpacing == 0
    ensures var r := StepOpenPosition(p, lower, upper);
            r.Ok? ==>
              && |r.value.positions| == |p.positions| + 1 && r.value.positions[..|p.positions|] == p.positions
              && r.value.(positions := p.positions, since := p.since) == p
              && r.value.since == p.since + [|p.history|]
              && var q := r.value.positions[|p.positions|];
                 && q.tickLowerIndex == lower && q.tickUpperIndex == upper && IsPositionEmpty(q)
                 && (forall c: Channel :: Checkpoint(q, c) == 0)
  {
    RemainderIsMod(lower, p.tickSpacing);
    RemainderIsMod(upper, p.tickSpacing);
    hide Remainder;
  }

  /** Empty means no liquidity, and nothing owed in any of the five channels. */
  lemma EmptyIsNothingOwed(q: Position)
    ensures IsPositionEmpty(q) <==> q.liquidity == 0 && forall c: Channel :: Owed(q, c) == 0
  {
    if forall c: Channel :: Owed(q, c) == 0 {
      assert Owed(q, FeeA) == 0 && Owed(q, FeeB) == 0;
      forall i: RewardIndex
        ensures q.rewardInfos[i].amountOwed == 0
      {
        assert Owed(q, Reward(i)) == 0;
      }
    }
  }

  /**
   * Closing removes exactly one position, which has to hold no liquidity and be owed nothing, and keeps the others in
   * order.
   */
  lemma ClosePositionRemovesExactly(p: Pool, id: nat)
    ensures StepClosePosition(p, id).Ok?
            <==> id < |p.positions| && p.positions[id].liquidity == 0
                 && forall c: Channel :: Owed(p.positions[id], c) == 0
    ensures var r := StepClosePosition(p, id);
            r.Ok? ==>
              && |r.value.positions| == |p.positions| - 1
              && (forall i :: 0 <= i < |r.value.positions| ==>
                    r.value.positions[i] == p.positions[if i < id then i else i + 1])
              && r.value.(positions := p.positions, since := p.since) == p
  {
    if id < |p.positions| {
      EmptyIsNothingOwed(p.positions[id]);
    }
    hide IsPositionEmpty;
  }

  /** A new pool has a price within the bounds, its floor tick, the given rates and spacing, and nothing in it. */
  lemma NewPoolIsEmpty(price: int -> u128, spacing: nat, s: u128, feeRate: FeeRate, protocolFeeRate: ProtocolFeeRate)
    requires IsPriceTable(price)
    ensures NewPool(price, spacing, s, feeRate, protocolFeeRate).Ok? <==> MIN_SQRT_PRICE_X64 <= s <= MAX_SQRT_PRICE_X64
    ensures var r := NewPool(price, spacing, s, feeRate, protocolFeeRate);
            r.Ok? ==>
              && r.value.tickSpacing == spacing && r.value.feeRate == feeRate
              && r.value.protocolFeeRate == protocolFeeRate && r.value.sqrtPrice == s
              && price(r.value.tickIndex) <= s < price(r.value.tickIndex + 1)
              && r.value.liquidity == 0 && r.value.positions == [] && r.value.ticks == map[] && r.value.arrays == {}
              && (forall token :: Vault(r.value, token) == 0 && ProtocolOwed(r.value, token) == 0)
              && (forall i: RewardIndex :: r.value.rewardInfos[i] == RewardInfo(false, 0, 0))
  {
    if MIN_SQRT_PRICE_X64 <= s <= MAX_SQRT_PRICE_X64 {
      TickOfPriceIsFloorInverse(price, s);
    }
  }

  /** A tick array can be initialised exactly once at each valid start, and nothing else changes. */
  lemma InitializeTickArrayAddsExactly(p: Pool, start: int)
    requires p.tickSpacing > 0
    ensures StepInitializeTickArray(p, start).Ok?
            <==> && start !in p.arrays && start % TicksInArray(p.tickSpacing) == 0
                 && MIN_TICK_INDEX < start + TicksInArray(p.tickSpacing) && start <= MAX_TICK_INDEX
    ensures var r := StepInitializeTickArray(p, start);
            r.Ok? ==> && (forall s: int :: s in r.value.arrays <==> s == start || s in p.arrays)
                      && r.value.(arrays := p.arrays) == p
  {
    ValidStartExactly(start, p.tickSpacing);
    hide IsValidStartTick;
  }

  /** Only the lowest reward not yet initialised can be, and that is all that changes. */
  lemma InitializeRewardIsLowest(p: Pool, index: nat)
    ensures StepInitializeReward(p, index).Ok?
            <==> index < NUM_REWARDS && !p.rewardInfos[index].initialized
                 && forall k: RewardIndex :: k < index ==> p.rewardInfos[k].initialized
    ensures var r := StepInitializeReward(p, index);
            r.Ok? ==> && r.value.rewardInfos[index] == p.rewardInfos[index].(initialized := true)
                      && (forall k: RewardIndex :: k != index ==> r.value.rewardInfos[k] == p.rewardInfos[k])
                      && r.value.(rewardInfos := p.rewardInfos) == p
  {
  }

  /** Each rate is bounded, and setting it changes nothing else. */
  lemma RatesAreBounded(p: Pool, rate: u16)
    ensures var r := StepSetFeeRate(p, rate);
            && (r.Ok? <==> rate <= 30000)
            && (r.Ok? ==> r.value.feeRate == rate && r.value.(feeRate := p.feeRate) == p)
    ensures var r := StepSetProtocolFeeRate(p, rate);
            && (r.Ok? <==> rate <= 2500)
            && (r.Ok? ==> r.value.protocolFeeRate == rate && r.value.(protocolFeeRate := p.protocolFeeRate) == p)
  {
  }

  /**
   * New emissions are accepted exactly while their vault holds a day's worth; what the old ones came to until now is
   * accrued first.
   */
  lemma EmissionsAreCovered(p: Pool, index: nat, emissions: u128, available: u64, now: u64)
    ensures StepSetRewardEmissions(p, index, emissions, available, now).Ok?
            <==> && index < NUM_REWARDS && p.rewardLastUpdated <= now
                 && 86400 * emissions < TWO_128 && 86400 * emissions < (available + 1) * 0x1_0000_0000_0000_0000
    ensures var r := StepSetRewardEmissions(p, index, emissions, available, now);
            r.Ok? ==>
              var accrued := AccrueRewards(p, now).value;
              && r.value.(rewardInfos := accrued.rewardInfos) == accrued
              && (forall k: RewardIndex :: r.value.rewardInfos[k]
                    == if k == index then accrued.rewardInfos[k].(emissionsPerSecondX64 := emissions)
                       else accrued.rewardInfos[k])
  {
    MulIsProduct(DAY_IN_SECONDS, emissions);
    hide Mul, GrownReward, RewardAccrual;
    FloorGalois(86400 * emissions, TWO_64, available + 1);
  }

  /** A checkpoint succeeds exactly for a position with liquidity, the right arrays and a clock not behind. */
  lemma UpdateSucceeds(p: Pool, id: nat, ls: int, us: int, now: u64)
    requires p.tickSpacing > 0
    ensures StepUpdateFeesAndRewards(p, id, ls, us, now).Ok?
            <==> && id < |p.positions| && p.positions[id].liquidity > 0 && p.rewardLastUpdated <= now
                 && GetTick(p, ls, p.positions[id].tickLowerIndex).Ok?
                 && GetTick(p, us, p.positions[id].tickUpperIndex).Ok?
  {
    hide GrowthsInside, Settled, RewardAccrual, GrownReward, GetTick;
  }
}
