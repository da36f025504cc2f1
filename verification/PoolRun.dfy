/** Whole runs of a pool: any sequence of instructions, in which a failed one changes nothing. */
module PoolRun {
  import opened Numbers
  import opened TickManager
  import opened PositionManager
  import opened TickSearch
  import opened Ledger
  import opened TM = TokenMath
  import opened SwapManager
  import opened SwapProgress
  import opened SwapBooks
  import opened SwapClaims
  import opened SwapGrowth
  import opened PoolState
  import opened PoolInvariant
  import opened PoolLiquidity
  import opened PoolSteps
  import opened PoolPayouts
  import opened PoolSwap

  /** Every instruction keeps the invariant. */
  lemma StepKeeps(price: int -> u128, p: Pool, op: Op)
    requires Invariant(price, p) && Step(price, p, op).Ok?
    ensures Invariant(price, Step(price, p, op).value)
  {
    hide Invariant, Sound, StepIncreaseLiquidity, StepDecreaseLiquidity, StepUpdateFeesAndRewards, StepCollectFees,
         StepCollectProtocolFees, StepSwap, StepInitializeTickArray, StepOpenPosition;
    SpacingPositive(price, p);
    match op
    case InitializeTickArray(start) => InitializeTickArrayKeeps(price, p, start);
    case OpenPosition(lower, upper) => OpenPositionKeeps(price, p, lower, upper);
    case IncreaseLiquidity(id, amount, maxA, maxB, ls, us, now) => IncreaseKeeps(price, p, id, amount, maxA, maxB, ls,
        us, now);
    case DecreaseLiquidity(id, amount, minA, minB, ls, us, now) => DecreaseKeeps(price, p, id, amount, minA, minB, ls,
        us, now);
    case UpdateFeesAndRewards(id, ls, us, now) => UpdateFeesKeeps(price, p, id, ls, us, now);
    case CollectFees(id) => CollectFeesKeeps(price, p, id);
    case CollectReward(id, index, available) => CollectRewardKeeps(price, p, id, index, available);
    case ClosePosition(id) => ClosePositionKeeps(price, p, id);
    case CollectProtocolFees => CollectProtocolFeesKeeps(price, p);
    case Swap(amount, threshold, limit, isInput, aToB, starts, now) => SwapKeeps(price, p, amount, threshold, limit,
        isInput, aToB, starts, now);
    case SetFeeRate(rate) => RatesKeep(price, p, Step(price, p, op).value);
    case SetProtocolFeeRate(rate) => RatesKeep(price, p, Step(price, p, op).value);
    case InitializeReward(index) => RewardConfigKeeps(price, p, index, Step(price, p, op).value);
    case SetRewardEmissions(index, emissions, available, now) =>
      RewardsAccrue(price, p, now);
      RewardConfigKeeps(price, AccrueRewards(p, now).value, index, Step(price, p, op).value);
  }

  /** The pool after one instruction, successful or not. */
  ghost function Apply(price: int -> u128, p: Pool, op: Op): Pool
    requires Invariant(price, p)
  {
    match Step(price, p, op)
    case Ok(q) => q
    case Err(_) => p
  }

  lemma ApplyKeeps(price: int -> u128, p: Pool, op: Op)
    requires Invariant(price, p)
    ensures Invariant(price, Apply(price, p, op))
  {
    hide Step;
    if Step(price, p, op).Ok? {
      StepKeeps(price, p, op);
    }
  }

  /** The pool after a whole run. Every run keeps the invariant. */
  ghost function Run(price: int -> u128, p: Pool, ops: seq<Op>): (r: Pool)
    requires Invariant(price, p)
    ensures Invariant(price, r)
  {
    if |ops| == 0 then p
    else
      var before := Run(price, p, ops[..|ops| - 1]);
      ApplyKeeps(price, before, ops[|ops| - 1]);
      Apply(price, before, ops[|ops| - 1])
  }
}
