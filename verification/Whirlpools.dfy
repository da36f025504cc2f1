/**
 * The pool as the program keeps it: accounts whose fields the managers and instruction handlers update in place. Each
 * handler is proved to be one step of the pool's specification; a failed one leaves rolling back to the runtime.
 */
module Whirlpools {
  import opened Numbers
  import opened TickManager
  import opened PositionManager
  import opened TickSearch
  import opened Ledger
  import opened TM = TokenMath
  import opened SwapManager
  import opened SwapProgress
  import opened SwapBooks
  import opened SwapTrace
  import opened PoolState
  import opened PoolInvariant
  import opened PoolSteps
  import opened PoolRun

  datatype PostSwapUpdate = PostSwapUpdate(
    amountA: u64,
    amountB: u64,
    nextLiquidity: u128,
    nextTickIndex: int,
    nextSqrtPrice: u128,
    nextFeeGrowthGlobal: u128,
    nextProtocolFee: u64,
    nextRewardInfos: RewardInfos)

  /** The variables of the swap loop. */
  datatype LoopVars = LoopVars(
    amountRemaining: u64,
    amountCalculated: u64,
    sqrtPrice: u128,
    tickIndex: int,
    liquidity: u128,
    protocolFee: u64,
    arrayIndex: nat,
    feeGrowthInput: u128)

  function VarsOf(s: SwapState): LoopVars {
    LoopVars(s.amountRemaining, s.amountCalculated, s.sqrtPrice, s.tickIndex, s.liquidity, s.protocolFee, s.arrayIndex,
             s.feeGrowthInput)
  }

  /** What a finished loop reports. */
  function SwapUpdate(amount: u64, isInput: bool, aToB: bool, v: LoopVars, rewards: RewardInfos): PostSwapUpdate
    requires v.amountRemaining <= amount
  {
    var specified: u64 := amount - v.amountRemaining;
    PostSwapUpdate(if aToB == isInput then specified else v.amountCalculated, if aToB == isInput
                   then v.amountCalculated else specified,
                   v.liquidity, v.tickIndex, v.sqrtPrice, v.feeGrowthInput, v.protocolFee, rewards)
  }

  /** The loop's variables and the tick arrays are those of the specified state, which also keeps the records. */
  ghost predicate Tracks(v: LoopVars, ticks: Ticks, st: SwapState) {
    v == VarsOf(st) && ticks == st.ticks
  }

  /** What a handler reports and leaves, against the step that specifies it. */
  ghost predicate Outcome(r: Result<()>, after: Pool, step: Result<Pool>) {
    match step
    case Ok(q) => r.Ok? && after == q
    case Err(error) => r == Err(error)
  }

  /** calculate_fees, with its running locals. */
  method ChargeFees(feeAmount: u64, protocolFeeRate: ProtocolFeeRate, liquidity: u128, protocolFee: u64, growth: u128)
    returns (nextProtocolFee: u64, nextGrowth: u128)
    ensures (nextProtocolFee, nextGrowth) == CalculateFees(feeAmount, protocolFeeRate, liquidity, protocolFee, growth)
    ensures var share, delta := CalculateProtocolFee(feeAmount, protocolFeeRate),
                                GrowthDelta(feeAmount, protocolFeeRate, liquidity);
            && nextProtocolFee == Wrap64(protocolFee + share) && nextGrowth == Wrap128(growth + delta)
            && share * 10000 <= feeAmount * protocolFeeRate < (share + 1) * 10000
            && SharesFee(feeAmount, protocolFeeRate, liquidity, delta)
  {
    FeesAreShared(feeAmount, protocolFeeRate, liquidity, protocolFee, growth);
    ProtocolShareIsFloor(feeAmount, protocolFeeRate);
    GrowthIsFloor(feeAmount, protocolFeeRate, liquidity);
    nextProtocolFee, nextGrowth := protocolFee, growth;
    var globalFee := feeAmount;
    NoProtocolFeeAtZeroRate(feeAmount);
    ProtocolShareWithinFee(feeAmount, protocolFeeRate);
    if protocolFeeRate > 0 {
      var delta := CalculateProtocolFee(globalFee, protocolFeeRate);
      globalFee := globalFee - delta;
      nextProtocolFee := Wrap64(nextProtocolFee + delta);
    }
    if liquidity > 0 {
      nextGrowth := Wrap128(nextGrowth + Quot(globalFee * TWO_64, liquidity));
    }
  }

  /**
   * The amounts of one step taken from what remains and added to what is calculated, with the code's overflow checks.
   */
  method TakeAmounts(isInput: bool, remaining: u64, calculated: u64, c: SwapStepComputation)
      returns (r: Result<(u64, u64)>)
    ensures r == NextAmounts(isInput, remaining, calculated, c)
  {
    var amountRemaining, amountCalculated := remaining, calculated;
    if isInput {
      if amountRemaining < c.amountIn { return Err(AmountRemainingOverflow); }
      amountRemaining := amountRemaining - c.amountIn;
      if amountRemaining < c.feeAmount { return Err(AmountRemainingOverflow); }
      amountRemaining := amountRemaining - c.feeAmount;
      if amountCalculated + c.amountOut >= TWO_64 { return Err(AmountCalcOverflow); }
      amountCalculated := amountCalculated + c.amountOut;
    } else {
      if amountRemaining < c.amountOut { return Err(AmountRemainingOverflow); }
      amountRemaining := amountRemaining - c.amountOut;
      if amountCalculated + c.amountIn >= TWO_64 { return Err(AmountCalcOverflow); }
      amountCalculated := amountCalculated + c.amountIn;
      if amountCalculated + c.feeAmount >= TWO_64 { return Err(AmountCalcOverflow); }
      amountCalculated := amountCalculated + c.feeAmount;
    }
    return Ok((amountRemaining, amountCalculated));
  }

  class Whirlpool {
    const price: int -> u128
    const tickSpacing: nat
    var feeRate: FeeRate
    var protocolFeeRate: ProtocolFeeRate
    var liquidity: u128
    var sqrtPrice: u128
    var tickIndex: int
    var protocolFeeOwedA: u64
    var protocolFeeOwedB: u64
    var feeGrowthGlobalA: u128
    var feeGrowthGlobalB: u128
    var rewardInfos: RewardInfos
    var rewardLastUpdated: u64
    var ticks: Ticks
    var arrays: set<int>
    var positions: seq<Position>
    var vaultA: u64
    var vaultB: u64
    ghost var history: seq<Accrual>
    ghost var since: seq<nat>

    /** The pool's whole state as a value. */
    ghost function View(): Pool
      reads this
    {
      Pool(tickSpacing, feeRate, protocolFeeRate, liquidity, sqrtPrice, tickIndex, protocolFeeOwedA, protocolFeeOwedB,
           feeGrowthGlobalA, feeGrowthGlobalB, rewardInfos, rewardLastUpdated, ticks, arrays, positions, vaultA, vaultB,
           history, since)
    }

    constructor Initialize(price: int -> u128, tickSpacing: nat, sqrtPrice: u128, feeRate: FeeRate,
                           protocolFeeRate: ProtocolFeeRate)
      requires MIN_SQRT_PRICE_X64 <= sqrtPrice <= MAX_SQRT_PRICE_X64
      ensures this.price == price
      ensures Ok(View()) == NewPool(price, tickSpacing, sqrtPrice, feeRate, protocolFeeRate)
    {
      this.price, this.tickSpacing, this.feeRate, this.protocolFeeRate := price, tickSpacing, feeRate, protocolFeeRate;
      this.liquidity, this.sqrtPrice, this.tickIndex := 0, sqrtPrice, TickIndexFromSqrtPrice(price, sqrtPrice);
      protocolFeeOwedA, protocolFeeOwedB, feeGrowthGlobalA, feeGrowthGlobalB := 0, 0, 0, 0;
      rewardInfos, rewardLastUpdated := [NO_REWARD, NO_REWARD, NO_REWARD], 0;
      ticks, arrays, positions, vaultA, vaultB := map[], {}, [], 0, 0;
      history, since := [], [];
    }

    // -------------------------------------------------------------- rewards

    /** next_whirlpool_reward_infos. */
    method NextWhirlpoolRewardInfos(now: u64) returns (r: Result<RewardInfos>)
      ensures r == NextRewardInfos(View(), now)
    {
      if now < rewardLastUpdated {
        return Err(InvalidTimestamp);
      }
      if liquidity == 0 || now == rewardLastUpdated {
        RewardsUnmoved(View(), now);
        return Ok(rewardInfos);
      }
      var next := rewardInfos;
      var elapsed := now - rewardLastUpdated;
      for i := 0 to NUM_REWARDS
        invariant forall k: RewardIndex ::
          next[k] == if k < i then GrownReward(rewardInfos[k], elapsed, liquidity) else rewardInfos[k]
      {
        var info := next[i];
        WrapSmall(info.growthGlobalX64);
        if !info.initialized {
          continue;
        }
        var delta := OrZero128(CheckedMulDivRoundUpIf(elapsed, info.emissionsPerSecondX64, liquidity, false));
        next := next[i := info.(growthGlobalX64 := Wrap128(info.growthGlobalX64 + delta))];
      }
      assert next == NextRewardInfos(View(), now).value;
      return Ok(next);
    }

    /** update_rewards, with the growth it adds put on record. */
    method UpdateRewards(rewards: RewardInfos, now: u64)
      requires NextRewardInfos(View(), now) == Ok(rewards)
      modifies this`rewardInfos, this`rewardLastUpdated, this`history
      ensures AccrueRewards(old(View()), now) == Ok(View())
    {
      history := history + [RewardAccrual(View(), now, 0)] + [RewardAccrual(View(), now, 1)]
          + [RewardAccrual(View(), now, 2)];
      rewardInfos := rewards;
      rewardLastUpdated := now;
    }

    // -------------------------------------------------------------- transfers

    /** Two transfers from the owner into the vaults. */
    method TransferIn(amountA: u64, amountB: u64) returns (r: Result<()>)
      modifies this`vaultA, this`vaultB
      ensures r == match Deposit(old(vaultA), amountA)
                   case Err(error) => Err(error)
                   case Ok(_) => match Deposit(old(vaultB), amountB) case Err(error) => Err(error) case Ok(_) => Ok(())
      ensures r.Ok? ==> Deposit(old(vaultA), amountA) == Ok(vaultA) && Deposit(old(vaultB), amountB) == Ok(vaultB)
    {
      vaultA :- Deposit(vaultA, amountA);
      vaultB :- Deposit(vaultB, amountB);
      return Ok(());
    }

    /** Two transfers from the vaults to the owner. */
    method TransferOut(amountA: u64, amountB: u64) returns (r: Result<()>)
      modifies this`vaultA, this`vaultB
      ensures r == match Withdraw(old(vaultA), amountA)
                   case Err(error) => Err(error)
                   case Ok(_) => match Withdraw(old(vaultB), amountB) case Err(error) => Err(error) case Ok(_) => Ok(())
      ensures r.Ok? ==> Withdraw(old(vaultA), amountA) == Ok(vaultA) && Withdraw(old(vaultB), amountB) == Ok(vaultB)
    {
      vaultA :- Withdraw(vaultA, amountA);
      vaultB :- Withdraw(vaultB, amountB);
      return Ok(());
    }

    // -------------------------------------------------------------- changing liquidity

    method LoadTick(start: int, index: int) returns (r: Result<Tick>)
      requires tickSpacing > 0
      ensures r == GetTick(View(), start, index)
    {
      if start !in arrays {
        return Err(MissingAccount);
      }
      if !InSearchRange(start, index, tickSpacing, false) || !IsUsableTick(index, tickSpacing) {
        return Err(TickNotFound);
      }
      return Ok(TickAt(ticks, index));
    }

    /** _calculate_modify_liquidity: everything the change will write, computed from growth up to `now`. */
    method CalculateUpdate(position: Position, lower: Tick, upper: Tick, delta: i128, now: u64)
      returns (r: Result<(PoolState.ModifyLiquidityUpdate, RewardInfos)>)
      ensures var accrued := AccrueRewards(View(), now);
              if delta == 0 && position.liquidity == 0 then r == Err(LiquidityZero)
              else if accrued.Err? then r == Err(accrued.error)
              else match CalculateModifyLiquidity(accrued.value, position, lower, upper, delta)
                   case Ok(u) => r == Ok((u, accrued.value.rewardInfos))
                   case Err(error) => r == Err(error)
    {
      if delta == 0 && position.liquidity == 0 {
        return Err(LiquidityZero);
      }
      var rewards :- NextWhirlpoolRewardInfos(now);
      var nextLiquidity := Ok(liquidity);
      if position.tickLowerIndex <= tickIndex < position.tickUpperIndex {
        nextLiquidity := AddLiquidityDelta(liquidity, delta);
      }
      var g := Growths(feeGrowthGlobalA, feeGrowthGlobalB, rewards);
      ghost var accrued := AccrueRewards(View(), now).value;
      assert g == PoolGrowths(accrued);
      if nextLiquidity.Err? { return Err(nextLiquidity.error); }
      var nextLower :- NextTickModifyLiquidityUpdate(lower, position.tickLowerIndex, tickIndex, g, delta, false);
      var nextUpper :- NextTickModifyLiquidityUpdate(upper, position.tickUpperIndex, tickIndex, g, delta, true);
      var fees := NextFeeGrowthsInside(tickIndex, lower, position.tickLowerIndex, upper, position.tickUpperIndex,
                                       feeGrowthGlobalA, feeGrowthGlobalB);
      var rewardsInside := NextRewardGrowthsInside(tickIndex, lower, position.tickLowerIndex, upper,
                                                   position.tickUpperIndex, rewards);
      var nextPosition :- NextPositionModifyLiquidityUpdate(position, delta,
                                                            InsideGrowths(fees.0, fees.1, rewardsInside));
      return Ok((PoolState.ModifyLiquidityUpdate(nextLiquidity.value, nextLower, nextUpper, nextPosition), rewards));
    }

    /** Position::update. The position is now settled up to the whole history. */
    method UpdatePosition(id: nat, position: Position)
      requires id < |positions|
      modifies this`positions, this`since
      ensures positions == old(positions)[id := position]
      ensures since == if |old(since)| == |old(positions)| then old(since)[id := |history|] else old(since)
    {
      if |since| == |positions| {
        since := since[id := |history|];
      }
      positions := positions[id := position];
    }

    method UpdateTicks(lowerIndex: int, lower: Tick, upperIndex: int, upper: Tick)
      modifies this`ticks
      ensures ticks == old(ticks)[lowerIndex := lower][upperIndex := upper]
    {
      ticks := ticks[lowerIndex := lower];
      ticks := ticks[upperIndex := upper];
    }

    /** sync_modify_liquidity_values: the position, its two ticks, and the pool. */
    method SyncModifyLiquidity(id: nat, u: PoolState.ModifyLiquidityUpdate, rewards: RewardInfos, now: u64)
      requires id < |positions| && NextRewardInfos(View(), now) == Ok(rewards)
      modifies this
      ensures View() == Sync(AccrueRewards(old(View()), now).value, id, u)
    {
      hide NextRewardInfos, RewardAccrual;
      var q := positions[id];
      UpdateRewards(rewards, now);
      UpdatePosition(id, u.position);
      UpdateTicks(q.tickLowerIndex, u.lower, q.tickUpperIndex, u.upper);
      UpdateLiquidity(u.liquidity);
    }

    method UpdateLiquidity(next: u128)
      modifies this`liquidity
      ensures liquidity == next
    {
      liquidity := next;
    }

    /** The part that both handlers share, up to syncing the accounts. */
    method ModifyLiquidity(id: nat, delta: i128, lowerStart: int, upperStart: int, now: u64) returns (r: Result<()>)
      requires tickSpacing > 0 && id < |positions| && delta != 0
      modifies this
      ensures r.Ok? ==> |positions| == |old(positions)|
      ensures Outcome(r, View(), PoolState.ModifyLiquidity(old(View()), id, delta, lowerStart, upperStart, now))
      ensures r.Err? ==> View() == old(View())
    {
      var q := positions[id];
      var lower :- LoadTick(lowerStart, q.tickLowerIndex);
      var upper :- LoadTick(upperStart, q.tickUpperIndex);
      var update :- CalculateUpdate(q, lower, upper, delta, now);
      SyncModifyLiquidity(id, update.0, update.1, now);
      return Ok(());
    }

    method IncreaseLiquidity(id: nat, amount: u128, maxA: u64, maxB: u64, lowerStart: int, upperStart: int, now: u64)
      returns (r: Result<()>)
      requires tickSpacing > 0
      modifies this
      ensures Outcome(r, View(), StepIncreaseLiquidity(price, old(View()), id, amount, maxA, maxB, lowerStart,
                                                       upperStart, now))
    {
      if id >= |positions| { return Err(MissingAccount); }
      if amount == 0 { return Err(LiquidityZero); }
      hide PoolState.ModifyLiquidity, LiquidityTokenDeltas, Deposit;
      var delta :- ConvertToLiquidityDelta(amount, true);
      ModifyKeeps(price, View(), id, amount, delta, lowerStart, upperStart, now);
      var _ :- ModifyLiquidity(id, delta, lowerStart, upperStart, now);
      var deltas :- LiquidityTokenDeltas(price, tickIndex, sqrtPrice, positions[id], amount, true);
      if deltas.0 > maxA {
        return Err(TokenMaxExceeded);
      } else if deltas.1 > maxB {
        return Err(TokenMaxExceeded);
      }
      r := TransferIn(deltas.0, deltas.1);
    }

    method DecreaseLiquidity(id: nat, amount: u128, minA: u64, minB: u64, lowerStart: int, upperStart: int, now: u64)
      returns (r: Result<()>)
      requires tickSpacing > 0
      modifies this
      ensures Outcome(r, View(), StepDecreaseLiquidity(price, old(View()), id, amount, minA, minB, lowerStart,
                                                       upperStart, now))
    {
      if id >= |positions| { return Err(MissingAccount); }
      if amount == 0 { return Err(LiquidityZero); }
      hide PoolState.ModifyLiquidity, LiquidityTokenDeltas, Withdraw;
      var delta :- ConvertToLiquidityDelta(amount, false);
      ModifyKeeps(price, View(), id, amount, delta, lowerStart, upperStart, now);
      var _ :- ModifyLiquidity(id, delta, lowerStart, upperStart, now);
      var deltas :- LiquidityTokenDeltas(price, tickIndex, sqrtPrice, positions[id], amount, false);
      if deltas.0 < minA {
        return Err(TokenMinSubceeded);
      } else if deltas.1 < minB {
        return Err(TokenMinSubceeded);
      }
      r := TransferOut(deltas.0, deltas.1);
    }

    method UpdateFeesAndRewards(id: nat, lowerStart: int, upperStart: int, now: u64) returns (r: Result<()>)
      requires tickSpacing > 0
      modifies this
      ensures Outcome(r, View(), StepUpdateFeesAndRewards(old(View()), id, lowerStart, upperStart, now))
    {
      if id >= |positions| { return Err(MissingAccount); }
      var q := positions[id];
      var lower :- LoadTick(lowerStart, q.tickLowerIndex);
      var upper :- LoadTick(upperStart, q.tickUpperIndex);
      var update :- CalculateUpdate(q, lower, upper, 0, now);
      UpdateRewards(update.1, now);
      UpdatePosition(id, update.0.position);
      return Ok(());
    }

    // -------------------------------------------------------------- collecting

    method CollectFees(id: nat) returns (r: Result<()>)
      modifies this
      ensures Outcome(r, View(), StepCollectFees(old(View()), id))
    {
      if id >= |positions| { return Err(MissingAccount); }
      var q := positions[id];
      var owedA, owedB := q.feeOwedA, q.feeOwedB;
      positions := positions[id := q.(feeOwedA := 0, feeOwedB := 0)];
      r := TransferOut(owedA, owedB);
    }

    /** `paid` leaves the reward's vault: all that is owed, as far as it is available. */
    method CollectReward(id: nat, index: nat, available: u64) returns (r: Result<()>, paid: u64)
      modifies this`positions
      ensures Outcome(r, View(), StepCollectReward(old(View()), id, index, available))
      ensures r.Ok? ==>
                var owed: int, rest: int := Owed(old(positions)[id], Reward(index)), Owed(positions[id], Reward(index));
                paid == owed - rest && paid == if owed < available then owed else available
      ensures r.Err? ==> paid == 0
    {
      if id >= |positions| || index >= NUM_REWARDS || !rewardInfos[index].initialized {
        return Err(MissingAccount), 0;
      }
      var q := positions[id];
      var info := q.rewardInfos[index];
      var (transferAmount, updatedAmountOwed) := CollectableReward(info.amountOwed, available);
      positions := positions[id := q.(rewardInfos := q.rewardInfos[index := info.(amountOwed := updatedAmountOwed)])];
      return Ok(()), transferAmount;
    }

    /** Position::is_position_empty, with its loop over the rewards. */
    method IsEmpty(q: Position) returns (empty: bool)
      ensures empty == IsPositionEmpty(q)
    {
      var rewardsNotOwed := true;
      for i := 0 to NUM_REWARDS
        invariant rewardsNotOwed <==> forall k: RewardIndex :: k < i ==> q.rewardInfos[k].amountOwed == 0
      {
        rewardsNotOwed := rewardsNotOwed && q.rewardInfos[i].amountOwed == 0;
      }
      return q.liquidity == 0 && q.feeOwedA == 0 && q.feeOwedB == 0 && rewardsNotOwed;
    }

    method ClosePosition(id: nat) returns (r: Result<()>)
      modifies this`positions, this`since
      ensures Outcome(r, View(), StepClosePosition(old(View()), id))
    {
      if id >= |positions| { return Err(MissingAccount); }
      var empty := IsEmpty(positions[id]);
      if !empty { return Err(ClosePositionNotEmpty); }
      if |since| == |positions| {
        since := Removed(since, id);
      }
      positions := Removed(positions, id);
      return Ok(());
    }

    method CollectProtocolFees() returns (r: Result<()>)
      modifies this
      ensures Outcome(r, View(), StepCollectProtocolFees(old(View())))
    {
      var _ :- TransferOut(protocolFeeOwedA, protocolFeeOwedB);
      protocolFeeOwedA, protocolFeeOwedB := 0, 0;
      return Ok(());
    }

    // -------------------------------------------------------------- swapping

    /** calculate_update on an initialised tick that the price arrived at, written back in place. */
    method CrossTick(starts: seq<int>, at: nat, index: int, aToB: bool, liquidity: u128, growthA: u128, growthB: u128,
                     rewards: RewardInfos)
      returns (r: Result<u128>)
      requires tickSpacing > 0
      modifies this`ticks
      ensures var tick := TickAt(old(ticks), index);
              if HoldsInitialized(old(ticks), starts, at, index, tickSpacing) then
                r == CrossLiquidity(liquidity, tick.liquidityNet, aToB)
                && (r.Ok? ==> ticks == old(ticks)[index := CrossUpdate(tick, Growths(growthA, growthB, rewards))])
              else r == Ok(liquidity) && ticks == old(ticks)
    {
      if !HoldsInitialized(ticks, starts, at, index, tickSpacing) { return Ok(liquidity); }
      var tick := TickAt(ticks, index);
      var update := NextTickCrossUpdate(tick, growthA, growthB, rewards);
      r := CrossLiquidity(liquidity, tick.liquidityNet, aToB);
      if r.Ok? {
        ticks := ticks[index := update];
      }
    }

    /** The end of an iteration: cross the tick that the price arrived at, or find the tick that it stopped short at. */
    method MoveTo(ghost e: SwapEnv, ghost booked: SwapState, next: u128, growth: u128, starts: seq<int>, at: nat,
                  index: int,
                  tickPrice: u128, aToB: bool, rewards: RewardInfos, v: LoopVars)
      returns (r: Result<(u128, nat, int)>)
      requires e.tickSpacing == tickSpacing > 0 && e.price == price && e.aToB == aToB && e.starts == starts
      requires e.rewardInfos == rewards && e.otherFeeGrowth == if aToB then feeGrowthGlobalB else feeGrowthGlobalA
      requires booked.ticks == ticks && booked.sqrtPrice == v.sqrtPrice && booked.liquidity == v.liquidity
      requires booked.arrayIndex == v.arrayIndex && booked.tickIndex == v.tickIndex && booked.feeGrowthInput == growth
      requires tickPrice == price(index)
      modifies this`ticks
      ensures match MovePrice(e, booked, next, at, index)
              case Err(error) => r == Err(error)
              case Ok(s) => r == Ok((s.liquidity, s.arrayIndex, s.tickIndex)) && ticks == s.ticks
    {
      hide CrossUpdate, CrossLiquidity, TickIndexFromSqrtPrice, HoldsInitialized, TickOffset;
      if next == tickPrice {
        var nextLiquidity :- CrossTick(starts, at, index, aToB, v.liquidity, if aToB then growth else feeGrowthGlobalA,
                                       if aToB then feeGrowthGlobalB else growth, rewards);
        if at >= |starts| { return Err(TickArrayIndexOutofBounds); }
        var offset := TickOffset(starts[at], index, tickSpacing);
        var nextArray := if (aToB && offset == 0) || (!aToB && offset == TICK_ARRAY_SIZE - 1) then at + 1 else at;
        return Ok((nextLiquidity, nextArray, if aToB then index - 1 else index));
      } else if next != v.sqrtPrice {
        return Ok((v.liquidity, v.arrayIndex, TickIndexFromSqrtPrice(price, next)));
      }
      return Ok((v.liquidity, v.arrayIndex, v.tickIndex));
    }

    /** One iteration: search, compute, book, move. */
    method Iterate(ghost e: SwapEnv, ghost st: SwapState, v: LoopVars, limit: u128, isInput: bool, aToB: bool,
                   starts: seq<int>, rewards: RewardInfos)
      returns (r: Result<LoopVars>)
      requires tickSpacing > 0
      requires e == SwapEnv(price, tickSpacing, feeRate, protocolFeeRate, starts, limit, isInput, aToB,
                            if aToB then feeGrowthGlobalB else feeGrowthGlobalA, rewards)
      requires Tracks(v, ticks, st)
      modifies this`ticks
      ensures match SwapStep(e, st)
              case Err(error) => r == Err(error)
              case Ok(next) => r.Ok? && Tracks(r.value, ticks, next)
    {
      hide SwapStep, NextInitialized, ComputeSwap, CalculateFees, NextAmounts, Book, MovePrice;
      StepStops(e, st);
      var found :- GetNextInitializedTickIndex(ticks, starts, v.tickIndex, tickSpacing, aToB, v.arrayIndex);
      var (at, index) := found;
      var tickPrice := price(index);
      var target := if aToB then (if limit > tickPrice then limit else tickPrice)
          else (if limit < tickPrice then limit else tickPrice);
      var c :- ComputeSwap(v.amountRemaining, feeRate, v.liquidity, v.sqrtPrice, target, isInput, aToB);
      var amounts :- TakeAmounts(isInput, v.amountRemaining, v.amountCalculated, c);
      var protocolFee, growth := ChargeFees(c.feeAmount, protocolFeeRate, v.liquidity, v.protocolFee, v.feeGrowthInput);
      StepLands(e, st, at, index, c, amounts, (protocolFee, growth));
      var moved :- MoveTo(e, Book(e, st, c).value, c.nextPrice, growth, starts, at, index, tickPrice, aToB, rewards, v);
      return Ok(LoopVars(amounts.0, amounts.1, c.nextPrice, moved.2, moved.0, protocolFee, moved.1, growth));
    }

    /** The loop of manager/swap_manager.rs. */
    method RunSwapLoop(ghost e: SwapEnv, ghost start: SwapState, amount: u64, limit: u128, isInput: bool, aToB: bool,
                       starts: seq<int>, rewards: RewardInfos)
      returns (r: Result<PostSwapUpdate>, ghost end: SwapState)
      requires e == SwapEnv(price, tickSpacing, feeRate, protocolFeeRate, starts, limit, isInput, aToB,
                            if aToB then feeGrowthGlobalB else feeGrowthGlobalA, rewards)
      requires start == SwapState(amount, 0, sqrtPrice, tickIndex, liquidity, 0, 0, if aToB then feeGrowthGlobalA
                                  else feeGrowthGlobalB,
                                  ticks, history, [], [])
      requires Ready(e, start)
      modifies this`ticks
      ensures match SwapLoop(e, start)
              case Err(error) => r == Err(error)
              case Ok(s) =>
                && end == s && ticks == s.ticks && s.amountRemaining <= amount
                && r == Ok(SwapUpdate(amount, isInput, aToB, VarsOf(s), rewards))
    {
      assert tickSpacing > 0;
      hide Ready, SwapLoop, SwapStep;
      ghost var st := start;
      end := start;
      var v := LoopVars(amount, 0, sqrtPrice, tickIndex, liquidity, 0, 0, if aToB then feeGrowthGlobalA
                        else feeGrowthGlobalB);
      while v.amountRemaining > 0 && limit != v.sqrtPrice
        invariant Ready(e, st) && SwapLoop(e, st) == SwapLoop(e, start)
        invariant v.amountRemaining <= amount && Tracks(v, ticks, st)
        decreases Remaining(e, st)
      {
        LoopUnrolls(e, st);
        if SwapStep(e, st).Ok? { SpendsNoMore(e, st); }
        v :- Iterate(e, st, v, limit, isInput, aToB, starts, rewards);
        st := SwapStep(e, st).value;
      }
      LoopUnrolls(e, st);
      end := st;
      r := Ok(SwapUpdate(amount, isInput, aToB, v, rewards));
    }

    /** The handler: check, run the loop, check the slippage limit, update the pool and move the tokens. */
    method Swap(amount: u64, threshold: u64, limit: u128, isInput: bool, aToB: bool, starts: seq<int>, now: u64)
        returns (r: Result<()>)
      requires Sound(price, View())
      modifies this
      ensures Outcome(r, View(), StepSwap(price, old(View()), amount, threshold, limit, isInput, aToB, starts, now))
    {
      hide Sound, Ready, SwapLoop, SwapUpdate, SwapAmounts, PoolState.PerformSwap, PoolState.UpdateAfterSwap,
          NextRewardInfos, Accounted, RewardAccrual;
      if (exists s :: s in starts && s !in arrays) { return Err(MissingAccount); }
      if limit < MIN_SQRT_PRICE_X64 || limit > MAX_SQRT_PRICE_X64 { return Err(SqrtPriceOutOfBounds); }
      if (aToB && limit > sqrtPrice) || (!aToB && limit < sqrtPrice) { return Err(InvalidSqrtPriceLimitDirection); }
      if amount == 0 { return Err(ZeroTradableAmount); }
      ghost var before := View();
      var rewards :- NextWhirlpoolRewardInfos(now);
      UpdateRewards(rewards, now);
      SoundIsReady(price, before, amount, limit, isInput, aToB, starts, now);
      ghost var e, st := EnvOf(price, View(), limit, isInput, aToB, starts), SwapStart(View(), amount, aToB);
      var u;
      ghost var end;
      u, end := RunSwapLoop(e, st, amount, limit, isInput, aToB, starts, rewards);
      if u.Err? { return Err(u.error); }
      AmountsNonNegative(e, st, amount);
      ReportsAmounts(amount, isInput, aToB, end, rewards);
      ghost var accrued := AccrueRewards(before, now).value;
      assert View() == accrued.(ticks := end.ticks);
      if isInput {
        if threshold > (if aToB then u.value.amountB else u.value.amountA) { return Err(AmountOutBelowMinimum); }
      } else {
        if threshold < (if aToB then u.value.amountA else u.value.amountB) { return Err(AmountInAboveMaximum); }
      }
      TicksAlreadyCrossed(accrued, aToB, end);
      UpdateAfterSwap(u.value, aToB, end);
      r := PerformSwap(u.value.amountA, u.value.amountB, aToB);
    }

    /** update_after_swap: the price, then the fees of the input token. */
    method UpdateAfterSwap(u: PostSwapUpdate, aToB: bool, ghost end: SwapState)
      requires ticks == end.ticks && u.nextLiquidity == end.liquidity && u.nextTickIndex == end.tickIndex
          && u.nextSqrtPrice == end.sqrtPrice
      requires u.nextFeeGrowthGlobal == end.feeGrowthInput && u.nextProtocolFee == end.protocolFee
      modifies this
      ensures View() == PoolState.UpdateAfterSwap(old(View()), aToB, end)
    {
      hide Wrap64;
      UpdatePrice(u, end);
      if aToB {
        AddFeesA(u);
      } else {
        AddFeesB(u);
      }
    }

    method UpdatePrice(u: PostSwapUpdate, ghost end: SwapState)
      modifies this`tickIndex, this`sqrtPrice, this`liquidity, this`history
      ensures tickIndex == u.nextTickIndex && sqrtPrice == u.nextSqrtPrice && liquidity == u.nextLiquidity
          && history == end.history
    {
      tickIndex := u.nextTickIndex;
      sqrtPrice := u.nextSqrtPrice;
      liquidity := u.nextLiquidity;
      history := end.history;
    }

    method AddFeesA(u: PostSwapUpdate)
      modifies this`feeGrowthGlobalA, this`protocolFeeOwedA
      ensures feeGrowthGlobalA == u.nextFeeGrowthGlobal
          && protocolFeeOwedA == Wrap64(old(protocolFeeOwedA) + u.nextProtocolFee)
    {
      feeGrowthGlobalA := u.nextFeeGrowthGlobal;
      protocolFeeOwedA := Wrap64(protocolFeeOwedA + u.nextProtocolFee);
    }

    method AddFeesB(u: PostSwapUpdate)
      modifies this`feeGrowthGlobalB, this`protocolFeeOwedB
      ensures feeGrowthGlobalB == u.nextFeeGrowthGlobal
          && protocolFeeOwedB == Wrap64(old(protocolFeeOwedB) + u.nextProtocolFee)
    {
      feeGrowthGlobalB := u.nextFeeGrowthGlobal;
      protocolFeeOwedB := Wrap64(protocolFeeOwedB + u.nextProtocolFee);
    }

    /** perform_swap. */
    method PerformSwap(amountA: u64, amountB: u64, aToB: bool) returns (r: Result<()>)
      modifies this`vaultA, this`vaultB
      ensures Outcome(r, View(), PoolState.PerformSwap(old(View()), (amountA, amountB), aToB))
    {
      if aToB {
        vaultA :- Deposit(vaultA, amountA);
        vaultB :- Withdraw(vaultB, amountB);
      } else {
        vaultB :- Deposit(vaultB, amountB);
        vaultA :- Withdraw(vaultA, amountA);
      }
      return Ok(());
    }

    // -------------------------------------------------------------- opening and configuring

    method InitializeTickArray(start: int) returns (r: Result<()>)
      requires tickSpacing > 0
      modifies this`arrays
      ensures Outcome(r, View(), StepInitializeTickArray(old(View()), start))
    {
      if start in arrays || !IsValidStartTick(start, tickSpacing) { return Err(InvalidStartTick); }
      arrays := arrays + {start};
      return Ok(());
    }

    method OpenPosition(lower: int, upper: int) returns (r: Result<()>)
      requires tickSpacing > 0
      modifies this`positions, this`since
      ensures Outcome(r, View(), StepOpenPosition(old(View()), lower, upper))
    {
      if !IsUsableTick(lower, tickSpacing) || !IsUsableTick(upper, tickSpacing)
          || lower >= upper { return Err(InvalidTickIndex); }
      var none := PositionRewardInfo(0, 0);
      positions := positions + [Position(0, lower, upper, 0, 0, 0, 0, [none, none, none])];
      since := since + [|history|];
      return Ok(());
    }

    method InitializeReward(index: nat) returns (r: Result<()>)
      modifies this`rewardInfos
      ensures Outcome(r, View(), StepInitializeReward(old(View()), index))
    {
      if index >= NUM_REWARDS { return Err(InvalidRewardIndex); }
      var lowest := 0;
      while lowest < NUM_REWARDS && rewardInfos[lowest].initialized
        invariant 0 <= lowest <= NUM_REWARDS
        invariant forall k :: 0 <= k < lowest ==> rewardInfos[k].initialized
      {
        lowest := lowest + 1;
      }
      if lowest != index { return Err(InvalidRewardIndex); }
      rewardInfos := rewardInfos[index := rewardInfos[index].(initialized := true)];
      return Ok(());
    }

    method SetRewardEmissions(index: nat, emissions: u128, available: u64, now: u64) returns (r: Result<()>)
      modifies this`rewardInfos, this`rewardLastUpdated, this`history
      ensures Outcome(r, View(), StepSetRewardEmissions(old(View()), index, emissions, available, now))
    {
      if index >= NUM_REWARDS { return Err(InvalidRewardIndex); }
      var perDay :- CheckedMulShiftRight(DAY_IN_SECONDS, emissions);
      if available < perDay { return Err(RewardVaultAmountInsufficient); }
      var rewards :- NextWhirlpoolRewardInfos(now);
      UpdateRewards(rewards, now);
      rewardInfos := rewardInfos[index := rewardInfos[index].(emissionsPerSecondX64 := emissions)];
      return Ok(());
    }

    method SetFeeRate(rate: u16) returns (r: Result<()>)
      modifies this`feeRate
      ensures Outcome(r, View(), StepSetFeeRate(old(View()), rate))
    {
      if rate > MAX_FEE_RATE { return Err(FeeRateMaxExceeded); }
      feeRate := rate;
      return Ok(());
    }

    method SetProtocolFeeRate(rate: u16) returns (r: Result<()>)
      modifies this`protocolFeeRate
      ensures Outcome(r, View(), StepSetProtocolFeeRate(old(View()), rate))
    {
      if rate > MAX_PROTOCOL_FEE_RATE { return Err(ProtocolFeeRateMaxExceeded); }
      protocolFeeRate := rate;
      return Ok(());
    }

    // -------------------------------------------------------------- the runtime

    method Dispatch(op: Op) returns (r: Result<()>)
      requires Sound(price, View())
      modifies this
      ensures Outcome(r, View(), Step(price, old(View()), op))
    {
      match op
      case InitializeTickArray(start) => r := InitializeTickArray(start);
      case OpenPosition(lower, upper) => r := OpenPosition(lower, upper);
      case IncreaseLiquidity(id, amount, maxA, maxB, ls, us, now) => r :=
          IncreaseLiquidity(id, amount, maxA, maxB, ls, us, now);
      case DecreaseLiquidity(id, amount, minA, minB, ls, us, now) => r :=
          DecreaseLiquidity(id, amount, minA, minB, ls, us, now);
      case UpdateFeesAndRewards(id, ls, us, now) => r := UpdateFeesAndRewards(id, ls, us, now);
      case CollectFees(id) => r := CollectFees(id);
      case CollectReward(id, index, available) =>
        var paid;
        r, paid := CollectReward(id, index, available);
      case ClosePosition(id) => r := ClosePosition(id);
      case CollectProtocolFees => r := CollectProtocolFees();
      case Swap(amount, threshold, limit, isInput, aToB, starts, now) => r :=
          Swap(amount, threshold, limit, isInput, aToB, starts, now);
      case SetFeeRate(rate) => r := SetFeeRate(rate);
      case SetProtocolFeeRate(rate) => r := SetProtocolFeeRate(rate);
      case InitializeReward(index) => r := InitializeReward(index);
      case SetRewardEmissions(index, emissions, available, now) => r :=
          SetRewardEmissions(index, emissions, available, now);
    }

    /** One transaction: a failed instruction's writes to any account are undone. */
    method Execute(op: Op) returns (r: Result<()>)
      requires Invariant(price, View())
      modifies this
      ensures Invariant(price, View())
      ensures View() == Apply(price, old(View()), op)
      ensures r.Ok? <==> Step(price, old(View()), op).Ok?
    {
      hide Invariant, Step;
      ghost var before := View();
      var rates, pool, globals := (feeRate, protocolFeeRate), (liquidity, sqrtPrice, tickIndex),
          (feeGrowthGlobalA, feeGrowthGlobalB);
      var owed, rewards, vaults := (protocolFeeOwedA, protocolFeeOwedB), (rewardInfos, rewardLastUpdated),
          (vaultA, vaultB);
      var accounts := (ticks, arrays, positions);
      SpacingPositive(price, before);
      ApplyKeeps(price, before, op);
      r := Dispatch(op);
      if r.Err? {
        RestorePool(rates, pool, globals, owed);
        RestoreAccounts(rewards, accounts, vaults, before.history, before.since);
      }
    }

    method RestorePool(rates: (FeeRate, ProtocolFeeRate), pool: (u128, u128, int), globals: (u128, u128),
                       owed: (u64, u64))
      modifies this`feeRate, this`protocolFeeRate, this`liquidity, this`sqrtPrice, this`tickIndex,
          this`feeGrowthGlobalA,
               this`feeGrowthGlobalB, this`protocolFeeOwedA, this`protocolFeeOwedB
      ensures (feeRate, protocolFeeRate) == rates && (liquidity, sqrtPrice, tickIndex) == pool
      ensures (feeGrowthGlobalA, feeGrowthGlobalB) == globals && (protocolFeeOwedA, protocolFeeOwedB) == owed
    {
      feeRate, protocolFeeRate := rates.0, rates.1;
      liquidity, sqrtPrice, tickIndex := pool.0, pool.1, pool.2;
      feeGrowthGlobalA, feeGrowthGlobalB := globals.0, globals.1;
      protocolFeeOwedA, protocolFeeOwedB := owed.0, owed.1;
    }

    method RestoreAccounts(rewards: (RewardInfos, u64), accounts: (Ticks, set<int>, seq<Position>), vaults: (u64, u64),
                           ghost history: seq<Accrual>, ghost since: seq<nat>)
      modifies this`rewardInfos, this`rewardLastUpdated, this`ticks, this`arrays, this`positions, this`vaultA,
          this`vaultB,
               this`history, this`since
      ensures (rewardInfos, rewardLastUpdated) == rewards && (ticks, arrays, positions) == accounts
          && (vaultA, vaultB) == vaults
      ensures this.history == history && this.since == since
    {
      rewardInfos, rewardLastUpdated := rewards.0, rewards.1;
      ticks, arrays, positions := accounts.0, accounts.1, accounts.2;
      vaultA, vaultB := vaults.0, vaults.1;
      this.history, this.since := history, since;
    }
  }

  /** The specified loop, one iteration at a time. */
  lemma LoopUnrolls(e: SwapEnv, st: SwapState)
    requires Ready(e, st)
    ensures !Running(e, st) ==> SwapLoop(e, st) == Ok(st)
    ensures Running(e, st) && SwapStep(e, st).Err? ==> SwapLoop(e, st) == Err(SwapStep(e, st).error)
    ensures Running(e, st) && SwapStep(e, st).Ok? ==>
              var next := SwapStep(e, st).value;
              Ready(e, next) && SwapLoop(e, st) == SwapLoop(e, next) && 0 <= Remaining(e, next) < Remaining(e, st)
  {
    hide SwapStep;
    if Running(e, st) && SwapStep(e, st).Ok? {
      StepProgresses(e, st);
    }
  }

  lemma SpendsNoMore(e: SwapEnv, st: SwapState)
    requires e.tickSpacing > 0 && SwapStep(e, st).Ok?
    ensures SwapStep(e, st).value.amountRemaining <= st.amountRemaining
  {
    hide MovePrice;
    var o := Open(e, st);
    MovePriceKeepsBooks(e, o.booked, o.c.nextPrice, o.at, o.next);
  }

  /** Where an iteration can stop before it moves the price. */
  lemma StepStops(e: SwapEnv, st: SwapState)
    requires e.tickSpacing > 0
    ensures Search(e, st).Err? ==> SwapStep(e, st) == Err(Search(e, st).error)
    ensures Search(e, st).Ok? ==>
              var index := Search(e, st).value.1;
              && (Compute(e, st, index).Err? ==> SwapStep(e, st) == Err(Compute(e, st, index).error))
              && (Compute(e, st, index).Ok? ==>
                    var amounts := NextAmounts(e.isInput, st.amountRemaining, st.amountCalculated,
                                               Compute(e, st, index).value);
                    amounts.Err? ==> SwapStep(e, st) == Err(amounts.error))
  {
    hide Search, Compute, NextAmounts, MovePrice;
  }

  /** Once amounts and fees are known, the iteration is the move from the booked state. */
  lemma StepLands(e: SwapEnv, st: SwapState, at: nat, index: int, c: SwapStepComputation, amounts: (u64, u64),
                  fees: (u64, u128))
    requires e.tickSpacing > 0 && Search(e, st) == Ok((at, index)) && Compute(e, st, index) == Ok(c)
    requires NextAmounts(e.isInput, st.amountRemaining, st.amountCalculated, c) == Ok(amounts)
    requires CalculateFees(c.feeAmount, e.protocolFeeRate, st.liquidity, st.protocolFee, st.feeGrowthInput) == fees
    ensures Book(e, st, c).Ok?
    ensures var booked := Book(e, st, c).value;
            && VarsOf(booked) == LoopVars(amounts.0, amounts.1, st.sqrtPrice, st.tickIndex, st.liquidity, fees.0,
                                          st.arrayIndex, fees.1)
            && booked.ticks == st.ticks
            && SwapStep(e, st) == MovePrice(e, booked, c.nextPrice, at, index)
            && (SwapStep(e, st).Ok? ==>
                  var s := SwapStep(e, st).value;
                  && s.sqrtPrice == c.nextPrice && s.amountRemaining == amounts.0 && s.amountCalculated == amounts.1
                  && s.protocolFee == fees.0 && s.feeGrowthInput == fees.1)
  {
    hide Search, Compute, NextAmounts, CalculateFees, CrossLiquidity, CrossUpdate, TickIndexFromSqrtPrice,
        HoldsInitialized;
  }

  lemma ReportsAmounts(amount: u64, isInput: bool, aToB: bool, s: SwapState, rewards: RewardInfos)
    requires s.amountRemaining <= amount
    ensures var u, amounts := SwapUpdate(amount, isInput, aToB, VarsOf(s), rewards),
        SwapAmounts(amount, isInput, aToB, s);
            && u.amountA == amounts.0 && u.amountB == amounts.1 && amounts == (u.amountA, u.amountB)
            && u.nextLiquidity == s.liquidity && u.nextTickIndex == s.tickIndex && u.nextSqrtPrice == s.sqrtPrice
            && u.nextFeeGrowthGlobal == s.feeGrowthInput && u.nextProtocolFee == s.protocolFee
  {
  }

  lemma TicksAlreadyCrossed(p: Pool, aToB: bool, r: SwapState)
    ensures PoolState.UpdateAfterSwap(p.(ticks := r.ticks), aToB, r) == PoolState.UpdateAfterSwap(p, aToB, r)
  {
  }

  /** A liquidity change leaves alone everything that the amounts to charge or pay depend on. */
  lemma ModifyKeeps(price: int -> u128, p: Pool, id: nat, amount: u128, delta: i128, ls: int, us: int, now: u64)
    requires p.tickSpacing > 0 && id < |p.positions|
    ensures var r := PoolState.ModifyLiquidity(p, id, delta, ls, us, now);
            r.Ok? ==>
              && r.value.tickIndex == p.tickIndex && r.value.sqrtPrice == p.sqrtPrice
              && r.value.vaultA == p.vaultA && r.value.vaultB == p.vaultB && |r.value.positions| == |p.positions|
              && forall up :: LiquidityTokenDeltas(price, p.tickIndex, p.sqrtPrice, r.value.positions[id], amount, up)
                              == LiquidityTokenDeltas(price, p.tickIndex, p.sqrtPrice, p.positions[id], amount, up)
  {
    hide GetTick, NextTickModifyLiquidityUpdate, GrowthsInside, RewardAccrual, NextWhirlpoolLiquidity, GetAmountDeltaA,
        GetAmountDeltaB;
  }

  /** A reward that cannot accrue is left as it is. */
  lemma RewardsUnmoved(p: Pool, now: u64)
    requires p.rewardLastUpdated <= now && (p.liquidity == 0 || now == p.rewardLastUpdated)
    ensures NextRewardInfos(p, now) == Ok(p.rewardInfos)
  {
    forall k: RewardIndex
      ensures GrownReward(p.rewardInfos[k], now - p.rewardLastUpdated, p.liquidity) == p.rewardInfos[k]
    {
      WrapSmall(p.rewardInfos[k].growthGlobalX64);
      MulIsProduct(0, p.rewardInfos[k].emissionsPerSecondX64);
    }
    assert NextRewardInfos(p, now).value == p.rewardInfos;
  }
}
