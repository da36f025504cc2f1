/**
 * programs/whirlpool/src/manager/tick_manager.rs and math/liquidity_math.rs: what a tick remembers, and how inside
 * growth is recovered from it by 128-bit wrapping subtraction.
 */
module TickManager {
  import opened Numbers

  const NUM_REWARDS: nat := 3

  type RewardIndex = i: nat | i < 3
  type RewardGrowths = s: seq<u128> | |s| == 3 witness [0, 0, 0]

  datatype Tick = Tick(
    initialized: bool,
    liquidityNet: i128,
    liquidityGross: u128,
    feeGrowthOutsideA: u128,
    feeGrowthOutsideB: u128,
    rewardGrowthsOutside: RewardGrowths)

  const DEFAULT_TICK := Tick(false, 0, 0, 0, 0, [0, 0, 0])

  datatype RewardInfo = RewardInfo(initialized: bool, emissionsPerSecondX64: u128, growthGlobalX64: u128)

  type RewardInfos = s: seq<RewardInfo> | |s| == 3
    witness [RewardInfo(false, 0, 0), RewardInfo(false, 0, 0), RewardInfo(false, 0, 0)]

  // ---------------------------------------------------------------- liquidity_math.rs

  function AddLiquidityDelta(liquidity: u128, delta: int): Result<u128> {
    if delta == 0 then Ok(liquidity)
    else if delta > 0 then
      if liquidity + delta < TWO_128 then Ok(liquidity + delta) else Err(LiquidityOverflow)
    else
      if -delta <= liquidity then Ok(liquidity + delta) else Err(LiquidityUnderflow)
  }

  function ConvertToLiquidityDelta(amount: u128, positive: bool): Result<i128> {
    if amount > I128_MAX then Err(LiquidityTooHigh)
    else
      var magnitude: int := amount;
      Ok(if positive then magnitude else -magnitude)
  }

  /** Adding exactly undoes subtracting, and each fails precisely when the true sum leaves the unsigned range. */
  lemma LiquidityDeltaRoundTrip(liquidity: u128, amount: u128)
    requires ConvertToLiquidityDelta(amount, true).Ok?
    ensures ConvertToLiquidityDelta(amount, false).Ok?
    ensures var up := ConvertToLiquidityDelta(amount, true).value;
            var down := ConvertToLiquidityDelta(amount, false).value;
            && (AddLiquidityDelta(liquidity, up).Ok? <==> liquidity + amount < TWO_128)
            && (AddLiquidityDelta(liquidity, down).Ok? <==> amount <= liquidity)
            && (AddLiquidityDelta(liquidity, up).Ok?
                ==> AddLiquidityDelta(AddLiquidityDelta(liquidity, up).value, down) == Ok(liquidity))
  {
  }

  // ---------------------------------------------------------------- growth channels

  /** The five growth accumulators a pool keeps: two fees and three rewards. */
  datatype Channel = FeeA | FeeB | Reward(index: RewardIndex)

  /** A snapshot of the five global accumulators. */
  datatype Growths = Growths(feeA: u128, feeB: u128, rewardInfos: RewardInfos) {
    function At(c: Channel): u128 {
      match c
      case FeeA => feeA
      case FeeB => feeB
      case Reward(i) => rewardInfos[i].growthGlobalX64
    }
    /** Fee channels always count; a reward counts once it has been initialised. */
    predicate Active(c: Channel) {
      c.Reward? ==> rewardInfos[c.index].initialized
    }
  }

  function Outside(tick: Tick, c: Channel): u128 {
    match c
    case FeeA => tick.feeGrowthOutsideA
    case FeeB => tick.feeGrowthOutsideB
    case Reward(i) => tick.rewardGrowthsOutside[i]
  }

  /** Growth below a tick. By convention all growth before the tick was initialised lies below it. */
  function GrowthBelow(current: int, index: int, initialized: bool, outside: u128, global: u128): u128 {
    if !initialized then global
    else if current < index then Wrap128(global - outside)
    else outside
  }

  /** Growth above a tick. By convention none of the growth before the tick was initialised lies above it. */
  function GrowthAbove(current: int, index: int, initialized: bool, outside: u128, global: u128): u128 {
    if !initialized then 0
    else if current < index then outside
    else Wrap128(global - outside)
  }

  function GrowthInside(current: int, lower: Tick, lowerIndex: int, upper: Tick, upperIndex: int,
                        c: Channel, global: u128): u128
  {
    var below := GrowthBelow(current, lowerIndex, lower.initialized, Outside(lower, c), global);
    var above := GrowthAbove(current, upperIndex, upper.initialized, Outside(upper, c), global);
    Wrap128(Wrap128(global - below) - above)
  }

  function NextFeeGrowthsInside(current: int, lower: Tick, lowerIndex: int, upper: Tick, upperIndex: int,
                                globalA: u128, globalB: u128): (u128, u128)
  {
    (GrowthInside(current, lower, lowerIndex, upper, upperIndex, FeeA, globalA),
     GrowthInside(current, lower, lowerIndex, upper, upperIndex, FeeB, globalB))
  }

  function RewardGrowthInside(current: int, lower: Tick, lowerIndex: int, upper: Tick, upperIndex: int,
                              rewards: RewardInfos, i: RewardIndex): u128
  {
    if !rewards[i].initialized then 0
    else GrowthInside(current, lower, lowerIndex, upper, upperIndex, Reward(i), rewards[i].growthGlobalX64)
  }

  function RewardGrowthsInside(current: int, lower: Tick, lowerIndex: int, upper: Tick, upperIndex: int,
                               rewards: RewardInfos): RewardGrowths
  {
    [RewardGrowthInside(current, lower, lowerIndex, upper, upperIndex, rewards, 0),
     RewardGrowthInside(current, lower, lowerIndex, upper, upperIndex, rewards, 1),
     RewardGrowthInside(current, lower, lowerIndex, upper, upperIndex, rewards, 2)]
  }

  method NextRewardGrowthsInside(current: int, lower: Tick, lowerIndex: int, upper: Tick, upperIndex: int,
                                 rewards: RewardInfos)
    returns (inside: RewardGrowths)
    ensures inside == RewardGrowthsInside(current, lower, lowerIndex, upper, upperIndex, rewards)
  {
    hide Wrap128;
    inside := [0, 0, 0];
    for i := 0 to NUM_REWARDS
      invariant forall k: RewardIndex ::
        inside[k] == if k < i then RewardGrowthInside(current, lower, lowerIndex, upper, upperIndex, rewards, k) else 0
    {
      if !rewards[i].initialized {
        continue;
      }
      var global := rewards[i].growthGlobalX64;
      var below := if !lower.initialized then global
                   else if current < lowerIndex then Wrap128(global - lower.rewardGrowthsOutside[i])
                   else lower.rewardGrowthsOutside[i];
      var above := if !upper.initialized then 0
                   else if current < upperIndex then upper.rewardGrowthsOutside[i]
                   else Wrap128(global - upper.rewardGrowthsOutside[i]);
      inside := inside[i := Wrap128(Wrap128(global - below) - above)];
    }
  }

  // ---------------------------------------------------------------- crossing

  function CrossedReward(tick: Tick, rewards: RewardInfos, i: RewardIndex): u128 {
    if !rewards[i].initialized then tick.rewardGrowthsOutside[i]
    else Wrap128(rewards[i].growthGlobalX64 - tick.rewardGrowthsOutside[i])
  }

  /** The tick after the price crosses it: outside becomes the growth on its other side. */
  function CrossUpdate(tick: Tick, g: Growths): Tick {
    tick.(feeGrowthOutsideA := Wrap128(g.feeA - tick.feeGrowthOutsideA),
          feeGrowthOutsideB := Wrap128(g.feeB - tick.feeGrowthOutsideB),
          rewardGrowthsOutside := [CrossedReward(tick, g.rewardInfos, 0), CrossedReward(tick, g.rewardInfos, 1),
                                   CrossedReward(tick, g.rewardInfos, 2)])
  }

  method NextTickCrossUpdate(tick: Tick, globalA: u128, globalB: u128, rewards: RewardInfos) returns (update: Tick)
    ensures update == CrossUpdate(tick, Growths(globalA, globalB, rewards))
  {
    update := tick;
    update := update.(feeGrowthOutsideA := Wrap128(globalA - tick.feeGrowthOutsideA));
    update := update.(feeGrowthOutsideB := Wrap128(globalB - tick.feeGrowthOutsideB));
    for i := 0 to NUM_REWARDS
      invariant update == CrossUpdate(tick, Growths(globalA, globalB, rewards))
                          .(rewardGrowthsOutside := update.rewardGrowthsOutside)
      invariant forall k: RewardIndex ::
        update.rewardGrowthsOutside[k] == if k < i then CrossedReward(tick, rewards, k)
            else tick.rewardGrowthsOutside[k]
    {
      if !rewards[i].initialized {
        continue;
      }
      update := update.(rewardGrowthsOutside :=
        update.rewardGrowthsOutside[i := Wrap128(rewards[i].growthGlobalX64 - tick.rewardGrowthsOutside[i])]);
    }
  }

  // ---------------------------------------------------------------- changing a tick's liquidity

  function ToRewardGrowths(rewards: RewardInfos): RewardGrowths {
    [rewards[0].growthGlobalX64, rewards[1].growthGlobalX64, rewards[2].growthGlobalX64]
  }

  function CheckedNet(net: int): Result<i128> {
    if I128_MIN <= net <= I128_MAX then Ok(net) else Err(LiquidityNetError)
  }

  function NextTickModifyLiquidityUpdate(tick: Tick, index: int, current: int, g: Growths,
                                         delta: i128, isUpper: bool): Result<Tick>
  {
    if delta == 0 then Ok(tick)
    else
      var gross :- AddLiquidityDelta(tick.liquidityGross, delta);
      if gross == 0 then Ok(DEFAULT_TICK)
      else
        var isNew := tick.liquidityGross == 0;
        var below := current >= index;
        var net :- CheckedNet(if isUpper then tick.liquidityNet - delta else tick.liquidityNet + delta);
        Ok(Tick(true, net, gross,
                if !isNew then tick.feeGrowthOutsideA else if below then g.feeA else 0,
                if !isNew then tick.feeGrowthOutsideB else if below then g.feeB else 0,
                if !isNew then tick.rewardGrowthsOutside else if below then ToRewardGrowths(g.rewardInfos)
                    else [0, 0, 0]))
  }

  // ---------------------------------------------------------------- what wrapping subtraction computes

  lemma WrapTelescope(g: int, b: int, bu: int)
    ensures Wrap128(Wrap128(g - b) - Wrap128(g - bu)) == Wrap128(bu - b)
  {
    var w: int := Wrap128(g - bu);
    WrapAdd(g - b, -w);
    WrapAdd(g - bu, g - b);
  }

  /** Below and above always split the global growth. */
  lemma AboveIsTheRest(current: int, index: int, initialized: bool, outside: u128, global: u128)
    ensures GrowthAbove(current, index, initialized, outside, global)
         == Wrap128(global - GrowthBelow(current, index, initialized, outside, global))
  {
    var g: int, o: int := global, outside;
    WrapAdd(g - o, g);
    WrapSmall(outside);
    WrapSmall(0);
  }

  /** Inside is what lies below the upper tick less what lies below the lower one. */
  lemma InsideIsDifference(current: int, lower: Tick, lowerIndex: int, upper: Tick, upperIndex: int,
                           c: Channel, global: u128)
    ensures GrowthInside(current, lower, lowerIndex, upper, upperIndex, c, global)
         == Wrap128(GrowthBelow(current, upperIndex, upper.initialized, Outside(upper, c), global)
                    - GrowthBelow(current, lowerIndex, lower.initialized, Outside(lower, c), global))
  {
    AboveIsTheRest(current, upperIndex, upper.initialized, Outside(upper, c), global);
    WrapTelescope(global, GrowthBelow(current, lowerIndex, lower.initialized, Outside(lower, c), global),
                  GrowthBelow(current, upperIndex, upper.initialized, Outside(upper, c), global));
  }

  /** Adjacent ranges add up. */
  lemma AdjacentRangesAdd(current: int, a: Tick, i: int, b: Tick, j: int, d: Tick, k: int, c: Channel, global: u128)
    ensures GrowthInside(current, a, i, d, k, c, global)
         == Wrap128(GrowthInside(current, a, i, b, j, c, global) + GrowthInside(current, b, j, d, k, c, global))
  {
    InsideIsDifference(current, a, i, d, k, c, global);
    InsideIsDifference(current, a, i, b, j, c, global);
    InsideIsDifference(current, b, j, d, k, c, global);
    var x: int := GrowthBelow(current, i, a.initialized, Outside(a, c), global);
    var y: int := GrowthBelow(current, j, b.initialized, Outside(b, c), global);
    var z: int := GrowthBelow(current, k, d.initialized, Outside(d, c), global);
    WrapAdd(y - x, Wrap128(z - y));
    WrapAdd(z - y, y - x);
  }

  /** A channel that has never grown: its global accumulator and a tick's record of it are both zero. */
  predicate Quiet(tick: Tick, c: Channel, g: Growths) {
    !g.Active(c) ==> g.At(c) == 0 && Outside(tick, c) == 0
  }

  /** Subtracting twice from the same number gives back what was subtracted. */
  lemma WrapInvolution(g: int, o: u128)
    ensures Wrap128(g - Wrap128(g - o)) == o
  {
    var x: int := o;
    WrapAdd(g - x, g);
    WrapSmall(x);
  }

  lemma CrossedOutside(tick: Tick, c: Channel, g: Growths)
    ensures Outside(CrossUpdate(tick, g), c)
         == if g.Active(c) then Wrap128(g.At(c) - Outside(tick, c)) else Outside(tick, c)
  {
    match c
    case FeeA =>
    case FeeB =>
    case Reward(i) =>
      assert Outside(CrossUpdate(tick, g), c) == CrossedReward(tick, g.rewardInfos, i);
  }

  /** Crossing a tick leaves the growth below it unchanged, whichever way the price goes. */
  lemma CrossingKeepsBelow(tick: Tick, index: int, c: Channel, g: Growths, from: int, to: int)
    requires tick.initialized && Quiet(tick, c, g)
    requires from < index <= to || to < index <= from
    ensures var crossed := CrossUpdate(tick, g);
            GrowthBelow(to, index, crossed.initialized, Outside(crossed, c), g.At(c))
            == GrowthBelow(from, index, tick.initialized, Outside(tick, c), g.At(c))
    ensures Quiet(CrossUpdate(tick, g), c, g)
  {
    CrossedOutside(tick, c, g);
    WrapInvolution(g.At(c), Outside(tick, c));
  }

  /**
   * Initialising a tick, or changing the liquidity of one that stays initialised, leaves the growth below it unchanged
   * for fees and rewards alike, wherever the price stands: the convention for uninitialised ticks is consistent.
   */
  lemma ModifyKeepsBelow(tick: Tick, index: int, current: int, g: Growths, delta: i128, isUpper: bool, c: Channel)
    requires tick.initialized <==> tick.liquidityGross > 0
    requires Quiet(tick, c, g)
    requires NextTickModifyLiquidityUpdate(tick, index, current, g, delta, isUpper).Ok?
    ensures var next := NextTickModifyLiquidityUpdate(tick, index, current, g, delta, isUpper).value;
            && Quiet(next, c, g)
            && (next.initialized ==>
                  GrowthBelow(current, index, next.initialized, Outside(next, c), g.At(c))
                  == GrowthBelow(current, index, tick.initialized, Outside(tick, c), g.At(c)))
  {
    WrapSmall(g.At(c));
    match c
    case FeeA =>
    case FeeB =>
    case Reward(i) =>
      assert ToRewardGrowths(g.rewardInfos)[i] == g.At(c);
  }

  /** Growth at `current` is counted below exactly the initialised ticks that lie above `current`. */
  lemma AccrualMovesBelow(tick: Tick, index: int, current: int, c: Channel, global: u128, delta: nat)
    requires tick.initialized
    ensures GrowthBelow(current, index, true, Outside(tick, c), Wrap128(global + delta))
         == Wrap128(GrowthBelow(current, index, true, Outside(tick, c), global) + if current < index then delta else 0)
  {
    var o: int := Outside(tick, c);
    WrapAdd(global + delta, -o);
    WrapAdd(global - o, delta);
    WrapSmall(o);
  }
}
