/** programs/whirlpool/src/manager/position_manager.rs: growth since the last checkpoint becomes amounts owed. */
module PositionManager {
  import opened Numbers
  import opened TickManager
  import TM = TokenMath

  datatype PositionRewardInfo = PositionRewardInfo(growthInsideCheckpoint: u128, amountOwed: u64)

  type PositionRewardInfos = s: seq<PositionRewardInfo> | |s| == 3
    witness [PositionRewardInfo(0, 0), PositionRewardInfo(0, 0), PositionRewardInfo(0, 0)]

  datatype Position = Position(
    liquidity: u128,
    tickLowerIndex: int,
    tickUpperIndex: int,
    feeGrowthCheckpointA: u128,
    feeOwedA: u64,
    feeGrowthCheckpointB: u128,
    feeOwedB: u64,
    rewardInfos: PositionRewardInfos)

  /** The growth inside a position's range, as the tick manager reports it. */
  datatype InsideGrowths = InsideGrowths(feeA: u128, feeB: u128, rewards: RewardGrowths) {
    function At(c: Channel): u128 {
      match c
      case FeeA => feeA
      case FeeB => feeB
      case Reward(i) => rewards[i]
    }
  }

  function Checkpoint(p: Position, c: Channel): u128 {
    match c
    case FeeA => p.feeGrowthCheckpointA
    case FeeB => p.feeGrowthCheckpointB
    case Reward(i) => p.rewardInfos[i].growthInsideCheckpoint
  }

  function Owed(p: Position, c: Channel): u64 {
    match c
    case FeeA => p.feeOwedA
    case FeeB => p.feeOwedB
    case Reward(i) => p.rewardInfos[i].amountOwed
  }

  function OrZero(r: Result<u64>): u64 {
    if r.Ok? then r.value else 0
  }

  /** The amount credited for growth from `checkpoint` to `inside`; nothing at all if the product overflows. */
  function Credit(liquidity: u128, inside: u128, checkpoint: u128): u64 {
    OrZero(TM.CheckedMulShiftRight(liquidity, Wrap128(inside - checkpoint)))
  }

  function NextReward(p: Position, inside: InsideGrowths, i: RewardIndex): PositionRewardInfo {
    PositionRewardInfo(
      inside.rewards[i],
      Wrap64(p.rewardInfos[i].amountOwed
             + Credit(p.liquidity, inside.rewards[i], p.rewardInfos[i].growthInsideCheckpoint)))
  }

  /** The position with its growth settled: checkpoints at `inside` and every credit added to the amounts owed. */
  function Settled(p: Position, inside: InsideGrowths): Position {
    p.(feeGrowthCheckpointA := inside.feeA,
       feeGrowthCheckpointB := inside.feeB,
       feeOwedA := Wrap64(p.feeOwedA + Credit(p.liquidity, inside.feeA, p.feeGrowthCheckpointA)),
       feeOwedB := Wrap64(p.feeOwedB + Credit(p.liquidity, inside.feeB, p.feeGrowthCheckpointB)),
       rewardInfos := [NextReward(p, inside, 0), NextReward(p, inside, 1), NextReward(p, inside, 2)])
  }

  function ModifyLiquidityUpdate(p: Position, delta: int, inside: InsideGrowths): Result<Position> {
    var liquidity :- AddLiquidityDelta(p.liquidity, delta);
    Ok(Settled(p, inside).(liquidity := liquidity))
  }

  method NextPositionModifyLiquidityUpdate(p: Position, delta: int, inside: InsideGrowths)
    returns (r: Result<Position>)
    ensures r == ModifyLiquidityUpdate(p, delta, inside)
  {
    hide Wrap64, Wrap128, TM.CheckedMulShiftRight, OrZero;
    var update := p;
    var growthDeltaA := Wrap128(inside.feeA - p.feeGrowthCheckpointA);
    var feeDeltaA := OrZero(TM.CheckedMulShiftRight(p.liquidity, growthDeltaA));
    var growthDeltaB := Wrap128(inside.feeB - p.feeGrowthCheckpointB);
    var feeDeltaB := OrZero(TM.CheckedMulShiftRight(p.liquidity, growthDeltaB));

    update := update.(feeGrowthCheckpointA := inside.feeA);
    update := update.(feeGrowthCheckpointB := inside.feeB);
    update := update.(feeOwedA := Wrap64(p.feeOwedA + feeDeltaA));
    update := update.(feeOwedB := Wrap64(p.feeOwedB + feeDeltaB));

    for i := 0 to NUM_REWARDS
      invariant update == Settled(p, inside).(rewardInfos := update.rewardInfos)
      invariant forall k: RewardIndex ::
        update.rewardInfos[k] == if k < i then NextReward(p, inside, k) else p.rewardInfos[k]
    {
      var curr := p.rewardInfos[i];
      var growthDelta := Wrap128(inside.rewards[i] - curr.growthInsideCheckpoint);
      var owedDelta := OrZero(TM.CheckedMulShiftRight(p.liquidity, growthDelta));
      update := update.(rewardInfos :=
        update.rewardInfos[i := PositionRewardInfo(inside.rewards[i], Wrap64(curr.amountOwed + owedDelta))]);
    }

    assert update == Settled(p, inside);
    var liquidity := AddLiquidityDelta(p.liquidity, delta);
    if liquidity.Err? {
      return Err(liquidity.error);
    }
    return Ok(update.(liquidity := liquidity.value));
  }

  /**
   * What a credit is worth: never more than liquidity times the true growth, even if the growth is so large that the
   * 128-bit accumulators wrapped; and exactly its floor when liquidity times growth stays below 2^128.
   */
  lemma CreditBound(liquidity: u128, inside: u128, checkpoint: u128, growth: nat)
    requires Wrap128(inside - checkpoint) == Wrap128(growth)
    ensures Credit(liquidity, inside, checkpoint) * TWO_64 <= liquidity * growth
    ensures liquidity * growth < TWO_128 ==> Credit(liquidity, inside, checkpoint) == (liquidity * growth) / TWO_64
  {
    hide Mul;
    var w: int := Wrap128(growth);
    var credit := Credit(liquidity, inside, checkpoint);
    MulIsProduct(liquidity, w);
    assert credit == if liquidity * w < TWO_128 then liquidity * w / TWO_64 else 0;
    hide Credit;
    WrapWithin(growth);
    MulMono(w, growth, liquidity);
    if liquidity > 0 && liquidity * growth < TWO_128 {
      MulMono(1, liquidity, growth);
      WrapSmall(growth);
    }
  }

  lemma WrapWithin(x: nat)
    ensures Wrap128(x) <= x
  {
  }
}
