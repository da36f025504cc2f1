/**
 * A pool with its tick arrays, positions and vaults, and every instruction as a step on it:
 * programs/whirlpool/src/instructions, manager/liquidity_manager.rs, manager/whirlpool_manager.rs and
 * state/whirlpool.rs.
 */
module PoolState {
  import opened Numbers
  import opened TickManager
  import opened PositionManager
  import opened TickSearch
  import opened Ledger
  import opened TM = TokenMath
  import opened SwapManager
  import opened SwapProgress
  import opened SwapBooks
  import opened SwapClaims
  import opened SwapGrowth

  /**
   * The accounts of one pool. The last two fields are the record the proofs are about: every growth accrual ever made,
   * and for each position the length of that record when its growth was last settled.
   */
  datatype Pool = Pool(
    tickSpacing: nat,
    feeRate: FeeRate,
    protocolFeeRate: ProtocolFeeRate,
    liquidity: u128,
    sqrtPrice: u128,
    tickIndex: int,
    protocolFeeOwedA: u64,
    protocolFeeOwedB: u64,
    feeGrowthGlobalA: u128,
    feeGrowthGlobalB: u128,
    rewardInfos: RewardInfos,
    rewardLastUpdated: u64,
    ticks: Ticks,
    arrays: set<int>,
    positions: seq<Position>,
    vaultA: u64,
    vaultB: u64,
    history: seq<Accrual>,
    since: seq<nat>)

  function PoolGrowths(p: Pool): Growths { Growths(p.feeGrowthGlobalA, p.feeGrowthGlobalB, p.rewardInfos) }

  function Vault(p: Pool, token: Token): u64 { if token.TokenA? then p.vaultA else p.vaultB }

  function ProtocolOwed(p: Pool, token: Token): u64 { if token.TokenA? then p.protocolFeeOwedA else p.protocolFeeOwedB }

  const NO_REWARD := RewardInfo(false, 0, 0)

  /** Whirlpool::initialize. */
  function NewPool(price: int -> u128, spacing: nat, sqrtPrice: u128, feeRate: FeeRate,
                   protocolFeeRate: ProtocolFeeRate): Result<Pool> {
    if sqrtPrice < MIN_SQRT_PRICE_X64 || sqrtPrice > MAX_SQRT_PRICE_X64 then Err(SqrtPriceOutOfBounds)
    else Ok(Pool(spacing, feeRate, protocolFeeRate, 0, sqrtPrice, TickIndexFromSqrtPrice(price, sqrtPrice), 0, 0, 0, 0,
                 [NO_REWARD, NO_REWARD, NO_REWARD], 0, map[], {}, [], 0, 0, [], []))
  }

  // ---------------------------------------------------------------- transfers

  /** A transfer into a vault: the token program keeps balances below 2^64. */
  function Deposit(vault: u64, amount: nat): Result<u64> {
    if vault + amount < TWO_64 then Ok(vault + amount) else Err(TransferOverflow)
  }

  function Withdraw(vault: u64, amount: nat): Result<u64> {
    if amount <= vault then Ok(vault - amount) else Err(InsufficientFunds)
  }

  // ---------------------------------------------------------------- rewards

  function OrZero128(r: Result<u128>): u128 { if r.Ok? then r.value else 0 }

  function RewardDelta(r: RewardInfo, elapsed: u128, liquidity: u128): u128 {
    if !r.initialized || liquidity == 0 then 0
    else OrZero128(CheckedMulDivRoundUpIf(elapsed, r.emissionsPerSecondX64, liquidity, false))
  }

  function GrownReward(r: RewardInfo, elapsed: u128, liquidity: u128): RewardInfo {
    r.(growthGlobalX64 := Wrap128(r.growthGlobalX64 + RewardDelta(r, elapsed, liquidity)))
  }

  function NextRewardInfos(p: Pool, now: u64): Result<RewardInfos> {
    if now < p.rewardLastUpdated then Err(InvalidTimestamp)
    else
      var elapsed := now - p.rewardLastUpdated;
      Ok([GrownReward(p.rewardInfos[0], elapsed, p.liquidity), GrownReward(p.rewardInfos[1], elapsed, p.liquidity),
          GrownReward(p.rewardInfos[2], elapsed, p.liquidity)])
  }

  function RewardAccrual(p: Pool, now: u64, i: RewardIndex): Accrual
    requires p.rewardLastUpdated <= now
  {
    Accrual(Reward(i), p.tickIndex, RewardDelta(p.rewardInfos[i], now - p.rewardLastUpdated, p.liquidity))
  }

  /** Whirlpool::update_rewards: reward growth up to `now`. */
  function AccrueRewards(p: Pool, now: u64): Result<Pool> {
    var rewards :- NextRewardInfos(p, now);
    Ok(p.(rewardInfos := rewards, rewardLastUpdated := now,
          history := p.history + [RewardAccrual(p, now, 0)] + [RewardAccrual(p, now, 1)] + [RewardAccrual(p, now, 2)]))
  }

  // ---------------------------------------------------------------- liquidity

  /** TickArray::get_tick through the array account that the caller names. */
  function GetTick(p: Pool, start: int, index: int): Result<Tick>
    requires p.tickSpacing > 0
  {
    if start !in p.arrays then Err(MissingAccount)
    else if !InSearchRange(start, index, p.tickSpacing, false)
        || !IsUsableTick(index, p.tickSpacing) then Err(TickNotFound)
    else Ok(TickAt(p.ticks, index))
  }

  function NextWhirlpoolLiquidity(p: Pool, position: Position, delta: int): Result<u128> {
    if position.tickLowerIndex <= p.tickIndex < position.tickUpperIndex then AddLiquidityDelta(p.liquidity, delta)
    else Ok(p.liquidity)
  }

  function GrowthsInside(p: Pool, lower: Tick, lowerIndex: int, upper: Tick, upperIndex: int): InsideGrowths {
    var fees := NextFeeGrowthsInside(p.tickIndex, lower, lowerIndex, upper, upperIndex, p.feeGrowthGlobalA,
                                     p.feeGrowthGlobalB);
    InsideGrowths(fees.0, fees.1, RewardGrowthsInside(p.tickIndex, lower, lowerIndex, upper, upperIndex, p.rewardInfos))
  }

  datatype ModifyLiquidityUpdate = ModifyLiquidityUpdate(
    liquidity: u128, lower: Tick, upper: Tick, position: Position)

  /** _calculate_modify_liquidity, on a pool whose rewards have been accrued. */
  function CalculateModifyLiquidity(p: Pool, position: Position, lower: Tick, upper: Tick,
                                    delta: i128): Result<ModifyLiquidityUpdate> {
    var liquidity :- NextWhirlpoolLiquidity(p, position, delta);
    var nextLower :- NextTickModifyLiquidityUpdate(lower, position.tickLowerIndex, p.tickIndex, PoolGrowths(p), delta,
                                                   false);
    var nextUpper :- NextTickModifyLiquidityUpdate(upper, position.tickUpperIndex, p.tickIndex, PoolGrowths(p), delta,
                                                   true);
    var inside := GrowthsInside(p, lower, position.tickLowerIndex, upper, position.tickUpperIndex);
    var next :- PositionManager.ModifyLiquidityUpdate(position, delta, inside);
    Ok(ModifyLiquidityUpdate(liquidity, nextLower, nextUpper, next))
  }

  /** sync_modify_liquidity_values: the position, its two ticks and the pool's liquidity. */
  function Sync(p: Pool, id: nat, u: ModifyLiquidityUpdate): Pool
    requires id < |p.positions|
  {
    var q := p.positions[id];
    p.(positions := p.positions[id := u.position],
       since := if |p.since| == |p.positions| then p.since[id := |p.history|] else p.since,
       ticks := p.ticks[q.tickLowerIndex := u.lower][q.tickUpperIndex := u.upper],
       liquidity := u.liquidity)
  }

  /** Everything that increasing and decreasing liquidity share: from looking up the ticks to syncing the accounts. */
  function ModifyLiquidity(p: Pool, id: nat, delta: i128, lowerStart: int, upperStart: int, now: u64): Result<Pool>
    requires p.tickSpacing > 0 && id < |p.positions|
  {
    var q := p.positions[id];
    var lower :- GetTick(p, lowerStart, q.tickLowerIndex);
    var upper :- GetTick(p, upperStart, q.tickUpperIndex);
    var accrued :- AccrueRewards(p, now);
    var update :- CalculateModifyLiquidity(accrued, q, lower, upper, delta);
    Ok(Sync(accrued, id, update))
  }

  function AmountOf(p0: u128, p1: u128, liquidity: u128, token: Token, roundUp: bool): Result<u64> {
    if token.TokenA? then GetAmountDeltaA(p0, p1, liquidity, roundUp) else GetAmountDeltaB(p0, p1, liquidity, roundUp)
  }

  /** calculate_liquidity_token_deltas. */
  function LiquidityTokenDeltas(price: int -> u128, tickIndex: int, sqrtPrice: u128, q: Position, liquidity: u128,
                                roundUp: bool): Result<(u64, u64)> {
    var lower, upper := price(q.tickLowerIndex), price(q.tickUpperIndex);
    if tickIndex < q.tickLowerIndex then
      var a :- GetAmountDeltaA(lower, upper, liquidity, roundUp);
      Ok((a, 0))
    else if tickIndex < q.tickUpperIndex then
      var a :- GetAmountDeltaA(sqrtPrice, upper, liquidity, roundUp);
      var b :- GetAmountDeltaB(lower, sqrtPrice, liquidity, roundUp);
      Ok((a, b))
    else
      var b :- GetAmountDeltaB(lower, upper, liquidity, roundUp);
      Ok((0, b))
  }

  // ---------------------------------------------------------------- the instructions

  datatype Op =
    | InitializeTickArray(start: int)
    | OpenPosition(lower: int, upper: int)
    | IncreaseLiquidity(id: nat, amount: u128, maxA: u64, maxB: u64, lowerStart: int, upperStart: int, now: u64)
    | DecreaseLiquidity(id: nat, amount: u128, minA: u64, minB: u64, lowerStart: int, upperStart: int, now: u64)
    | UpdateFeesAndRewards(id: nat, lowerStart: int, upperStart: int, now: u64)
    | CollectFees(id: nat)
    | CollectReward(id: nat, index: nat, available: u64)
    | ClosePosition(id: nat)
    | CollectProtocolFees
    | Swap(specified: u64, threshold: u64, limit: u128, isInput: bool, aToB: bool, starts: seq<int>, now: u64)
    | SetFeeRate(rate: u16)
    | SetProtocolFeeRate(rate: u16)
    | InitializeReward(index: nat)
    | SetRewardEmissions(index: nat, emissions: u128, available: u64, now: u64)

  function StepInitializeTickArray(p: Pool, start: int): Result<Pool>
    requires p.tickSpacing > 0
  {
    if start in p.arrays || !IsValidStartTick(start, p.tickSpacing) then Err(InvalidStartTick)
    else Ok(p.(arrays := p.arrays + {start}))
  }

  function StepOpenPosition(p: Pool, lower: int, upper: int): Result<Pool>
    requires p.tickSpacing > 0
  {
    if !IsUsableTick(lower, p.tickSpacing) || !IsUsableTick(upper, p.tickSpacing)
        || lower >= upper then Err(InvalidTickIndex)
    else
      var none := PositionRewardInfo(0, 0);
      Ok(p.(positions := p.positions + [Position(0, lower, upper, 0, 0, 0, 0, [none, none, none])],
            since := p.since + [|p.history|]))
  }

  function StepIncreaseLiquidity(price: int -> u128, p: Pool, id: nat, amount: u128, maxA: u64, maxB: u64,
                                 lowerStart: int, upperStart: int, now: u64): Result<Pool>
    requires p.tickSpacing > 0
  {
    if id >= |p.positions| then Err(MissingAccount)
    else if amount == 0 then Err(LiquidityZero)
    else
      var delta :- ConvertToLiquidityDelta(amount, true);
      var synced :- ModifyLiquidity(p, id, delta, lowerStart, upperStart, now);
      var deltas :- LiquidityTokenDeltas(price, p.tickIndex, p.sqrtPrice, p.positions[id], amount, true);
      if deltas.0 > maxA || deltas.1 > maxB then Err(TokenMaxExceeded)
      else
        var vaultA :- Deposit(p.vaultA, deltas.0);
        var vaultB :- Deposit(p.vaultB, deltas.1);
        Ok(synced.(vaultA := vaultA, vaultB := vaultB))
  }

  function StepDecreaseLiquidity(price: int -> u128, p: Pool, id: nat, amount: u128, minA: u64, minB: u64,
                                 lowerStart: int, upperStart: int, now: u64): Result<Pool>
    requires p.tickSpacing > 0
  {
    if id >= |p.positions| then Err(MissingAccount)
    else if amount == 0 then Err(LiquidityZero)
    else
      var delta :- ConvertToLiquidityDelta(amount, false);
      var synced :- ModifyLiquidity(p, id, delta, lowerStart, upperStart, now);
      var deltas :- LiquidityTokenDeltas(price, p.tickIndex, p.sqrtPrice, p.positions[id], amount, false);
      if deltas.0 < minA || deltas.1 < minB then Err(TokenMinSubceeded)
      else
        var vaultA :- Withdraw(p.vaultA, deltas.0);
        var vaultB :- Withdraw(p.vaultB, deltas.1);
        Ok(synced.(vaultA := vaultA, vaultB := vaultB))
  }

  /** calculate_fee_and_reward_growths: the same calculation with a zero delta, of which only the position is kept. */
  function StepUpdateFeesAndRewards(p: Pool, id: nat, lowerStart: int, upperStart: int, now: u64): Result<Pool>
    requires p.tickSpacing > 0
  {
    if id >= |p.positions| then Err(MissingAccount)
    else
      var q := p.positions[id];
      var lower :- GetTick(p, lowerStart, q.tickLowerIndex);
      var upper :- GetTick(p, upperStart, q.tickUpperIndex);
      if q.liquidity == 0 then Err(LiquidityZero)
      else
        var accrued :- AccrueRewards(p, now);
        var update :- CalculateModifyLiquidity(accrued, q, lower, upper, 0);
        Ok(accrued.(positions := p.positions[id := update.position],
                    since := if |p.since| == |p.positions| then p.since[id := |accrued.history|] else p.since))
  }

  function StepCollectFees(p: Pool, id: nat): Result<Pool> {
    if id >= |p.positions| then Err(MissingAccount)
    else
      var q := p.positions[id];
      var vaultA :- Withdraw(p.vaultA, q.feeOwedA);
      var vaultB :- Withdraw(p.vaultB, q.feeOwedB);
      Ok(p.(positions := p.positions[id := q.(feeOwedA := 0, feeOwedB := 0)], vaultA := vaultA, vaultB := vaultB))
  }

  /** calculate_collect_reward: as much of what is owed as the reward's vault has available; the rest remains owed. */
  function CollectableReward(owed: u64, available: u64): (u64, u64) {
    if owed > available then
      var rest: u64 := owed - available;
      (available, rest)
    else (owed, 0)
  }

  function StepCollectReward(p: Pool, id: nat, index: nat, available: u64): Result<Pool> {
    if id >= |p.positions| || index >= NUM_REWARDS || !p.rewardInfos[index].initialized then Err(MissingAccount)
    else
      var q := p.positions[id];
      var info := q.rewardInfos[index];
      var rest := CollectableReward(info.amountOwed, available).1;
      Ok(p.(positions := p.positions[id := q.(rewardInfos := q.rewardInfos[index := info.(amountOwed := rest)])]))
  }

  /** Position::is_position_empty. */
  predicate IsPositionEmpty(q: Position) {
    && q.liquidity == 0 && q.feeOwedA == 0 && q.feeOwedB == 0
    && forall i: RewardIndex :: q.rewardInfos[i].amountOwed == 0
  }

  function StepClosePosition(p: Pool, id: nat): Result<Pool> {
    if id >= |p.positions| then Err(MissingAccount)
    else if !IsPositionEmpty(p.positions[id]) then Err(ClosePositionNotEmpty)
    else Ok(p.(positions := Removed(p.positions, id),
               since := if |p.since| == |p.positions| then Removed(p.since, id) else p.since))
  }

  function StepCollectProtocolFees(p: Pool): Result<Pool> {
    var vaultA :- Withdraw(p.vaultA, p.protocolFeeOwedA);
    var vaultB :- Withdraw(p.vaultB, p.protocolFeeOwedB);
    Ok(p.(protocolFeeOwedA := 0, protocolFeeOwedB := 0, vaultA := vaultA, vaultB := vaultB))
  }

  function EnvOf(price: int -> u128, p: Pool, limit: u128, isInput: bool, aToB: bool, starts: seq<int>): SwapEnv {
    SwapEnv(price, p.tickSpacing, p.feeRate, p.protocolFeeRate, starts, limit, isInput, aToB,
            if aToB then p.feeGrowthGlobalB else p.feeGrowthGlobalA, p.rewardInfos)
  }

  function SwapStart(p: Pool, amount: u64, aToB: bool): SwapState {
    SwapState(amount, 0, p.sqrtPrice, p.tickIndex, p.liquidity, 0, 0,
              if aToB then p.feeGrowthGlobalA else p.feeGrowthGlobalB, p.ticks, p.history, [], [])
  }

  /** The amounts of A and B that a finished loop reports. */
  function SwapAmounts(amount: u64, isInput: bool, aToB: bool, r: SwapState): (int, int) {
    if aToB == isInput then (amount - r.amountRemaining, r.amountCalculated)
    else (r.amountCalculated, amount - r.amountRemaining)
  }

  /** Whirlpool::update_after_swap. The protocol fee is added with the release profile's wrapping `+=`. */
  function UpdateAfterSwap(p: Pool, aToB: bool, r: SwapState): Pool {
    p.(liquidity := r.liquidity, tickIndex := r.tickIndex, sqrtPrice := r.sqrtPrice, ticks := r.ticks,
       history := r.history,
       feeGrowthGlobalA := if aToB then r.feeGrowthInput else p.feeGrowthGlobalA,
       feeGrowthGlobalB := if aToB then p.feeGrowthGlobalB else r.feeGrowthInput,
       protocolFeeOwedA := if aToB then Wrap64(p.protocolFeeOwedA + r.protocolFee) else p.protocolFeeOwedA,
       protocolFeeOwedB := if aToB then p.protocolFeeOwedB else Wrap64(p.protocolFeeOwedB + r.protocolFee))
  }

  /** The handler's slippage check on the side that was not specified. */
  function CheckThreshold(amounts: (int, int), threshold: u64, isInput: bool, aToB: bool): Result<()> {
    if isInput then
      if threshold > (if aToB then amounts.1 else amounts.0) then Err(AmountOutBelowMinimum) else Ok(())
    else
      if threshold < (if aToB then amounts.0 else amounts.1) then Err(AmountInAboveMaximum) else Ok(())
  }

  function CheckSwap(p: Pool, amount: u64, limit: u128, aToB: bool): Result<()> {
    if limit < MIN_SQRT_PRICE_X64 || limit > MAX_SQRT_PRICE_X64 then Err(SqrtPriceOutOfBounds)
    else if (aToB && limit > p.sqrtPrice) || (!aToB && limit < p.sqrtPrice) then Err(InvalidSqrtPriceLimitDirection)
    else if amount == 0 then Err(ZeroTradableAmount)
    else Ok(())
  }

  /** perform_swap: the input arrives in its vault, then the output leaves its own. */
  function PerformSwap(p: Pool, amounts: (int, int), aToB: bool): Result<Pool>
    requires 0 <= amounts.0 && 0 <= amounts.1
  {
    if aToB then
      var vaultA :- Deposit(p.vaultA, amounts.0);
      var vaultB :- Withdraw(p.vaultB, amounts.1);
      Ok(p.(vaultA := vaultA, vaultB := vaultB))
    else
      var vaultB :- Deposit(p.vaultB, amounts.1);
      var vaultA :- Withdraw(p.vaultA, amounts.0);
      Ok(p.(vaultA := vaultA, vaultB := vaultB))
  }

  ghost function StepSwap(price: int -> u128, p: Pool, amount: u64, threshold: u64, limit: u128, isInput: bool,
                          aToB: bool,
                          starts: seq<int>, now: u64): Result<Pool>
    requires Sound(price, p)
  {
    if exists s :: s in starts && s !in p.arrays then Err(MissingAccount)
    else
      var _ :- CheckSwap(p, amount, limit, aToB);
      var accrued :- AccrueRewards(p, now);
      var e, st := EnvOf(price, accrued, limit, isInput, aToB, starts), SwapStart(accrued, amount, aToB);
      SoundIsReady(price, p, amount, limit, isInput, aToB, starts, now);
      var r :- SwapLoop(e, st);
      var amounts := SwapAmounts(amount, isInput, aToB, r);
      AmountsNonNegative(e, st, amount);
      var _ :- CheckThreshold(amounts, threshold, isInput, aToB);
      PerformSwap(UpdateAfterSwap(accrued, aToB, r), amounts, aToB)
  }

  /** The part of the pool invariant that the swap loop needs in order to run at all. */
  ghost predicate Sound(price: int -> u128, p: Pool) {
    && p.tickSpacing > 0
    && IsPriceTable(price)
    && (forall s :: s in p.arrays ==> IsValidStartTick(s, p.tickSpacing))
    && InitializedAreUsable(p.ticks, p.tickSpacing)
    && Coherent(price, p.sqrtPrice, p.tickIndex)
  }

  lemma SoundIsReady(price: int -> u128, p: Pool, amount: u64, limit: u128, isInput: bool, aToB: bool,
                     starts: seq<int>, now: u64)
    requires Sound(price, p) && CheckSwap(p, amount, limit, aToB).Ok? && AccrueRewards(p, now).Ok?
    requires forall s :: s in starts ==> s in p.arrays
    ensures var accrued := AccrueRewards(p, now).value;
            Ready(EnvOf(price, accrued, limit, isInput, aToB, starts), SwapStart(accrued, amount, aToB))
  {
    forall i | 0 <= i < |starts|
      ensures Remainder(starts[i], TicksInArray(p.tickSpacing)) == 0 && starts[i] <= MAX_TICK_INDEX
    {
      assert starts[i] in starts;
      ValidStartIsAligned(starts[i], p.tickSpacing);
    }
  }

  lemma AmountsNonNegative(e: SwapEnv, st: SwapState, amount: u64)
    requires Ready(e, st) && SwapLoop(e, st).Ok? && st.amountRemaining == amount && st.amountCalculated == 0
    requires st.steps == [] && st.protocolFee == 0
    ensures Accounted(e, amount, SwapLoop(e, st).value)
  {
    SwapLoopAccounted(e, amount, st);
  }

  function StepSetFeeRate(p: Pool, rate: u16): Result<Pool> {
    if rate > MAX_FEE_RATE then Err(FeeRateMaxExceeded) else Ok(p.(feeRate := rate))
  }

  function StepSetProtocolFeeRate(p: Pool, rate: u16): Result<Pool> {
    if rate > MAX_PROTOCOL_FEE_RATE then Err(ProtocolFeeRateMaxExceeded) else Ok(p.(protocolFeeRate := rate))
  }

  /** Rewards are initialised in order; one whose vault exists stays initialised. */
  function StepInitializeReward(p: Pool, index: nat): Result<Pool> {
    if index >= NUM_REWARDS || p.rewardInfos[index].initialized
       || (exists k :: 0 <= k < index && !p.rewardInfos[k].initialized) then Err(InvalidRewardIndex)
    else Ok(p.(rewardInfos := p.rewardInfos[index := p.rewardInfos[index].(initialized := true)]))
  }

  const DAY_IN_SECONDS: u128 := 86400

  /** The reward's vault must hold a day's emissions. */
  function StepSetRewardEmissions(p: Pool, index: nat, emissions: u128, available: u64, now: u64): Result<Pool> {
    if index >= NUM_REWARDS then Err(InvalidRewardIndex)
    else
      var perDay :- CheckedMulShiftRight(DAY_IN_SECONDS, emissions);
      if available < perDay then Err(RewardVaultAmountInsufficient)
      else
        var accrued :- AccrueRewards(p, now);
        Ok(accrued.(rewardInfos := accrued.rewardInfos[index :=
            accrued.rewardInfos[index].(emissionsPerSecondX64 := emissions)]))
  }

  /** One instruction. A failed instruction reports its error; the runtime then rolls every account back. */
  ghost function Step(price: int -> u128, p: Pool, op: Op): Result<Pool>
    requires Sound(price, p)
  {
    match op
    case InitializeTickArray(start) => StepInitializeTickArray(p, start)
    case OpenPosition(lower, upper) => StepOpenPosition(p, lower, upper)
    case IncreaseLiquidity(id, amount, maxA, maxB, ls, us, now) =>
      StepIncreaseLiquidity(price, p, id, amount, maxA, maxB, ls, us, now)
    case DecreaseLiquidity(id, amount, minA, minB, ls, us, now) =>
      StepDecreaseLiquidity(price, p, id, amount, minA, minB, ls, us, now)
    case UpdateFeesAndRewards(id, ls, us, now) => StepUpdateFeesAndRewards(p, id, ls, us, now)
    case CollectFees(id) => StepCollectFees(p, id)
    case CollectReward(id, index, available) => StepCollectReward(p, id, index, available)
    case ClosePosition(id) => StepClosePosition(p, id)
    case CollectProtocolFees => StepCollectProtocolFees(p)
    case Swap(amount, threshold, limit, isInput, aToB, starts, now) =>
      StepSwap(price, p, amount, threshold, limit, isInput, aToB, starts, now)
    case SetFeeRate(rate) => StepSetFeeRate(p, rate)
    case SetProtocolFeeRate(rate) => StepSetProtocolFeeRate(p, rate)
    case InitializeReward(index) => StepInitializeReward(p, index)
    case SetRewardEmissions(index, emissions, available, now) => StepSetRewardEmissions(p, index, emissions, available,
        now)
  }
}
