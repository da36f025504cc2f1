/** Where every token in a vault came from: the transfers of every instruction, and their sum over a run. */
module PoolVaults {
  import opened Numbers
  import opened TickManager
  import opened PositionManager
  import opened TickSearch
  import opened Ledger
  import opened TM = TokenMath
  import opened SwapManager
  import opened SwapProgress
  import opened SwapBooks
  import opened SwapClaims
  import opened PoolState
  import opened PoolInvariant
  import opened PoolSteps
  import opened PoolPayouts
  import opened PoolSwap
  import opened PoolRun
  import opened PoolSafety
  import opened PoolAmounts

  /** What enters and leaves one vault, and the protocol's part of it: fees set aside for it and paid to it. */
  datatype Transfers = Transfers(paidIn: nat, paidOut: nat, setAside: nat, collected: nat)

  const NO_TRANSFER := Transfers(0, 0, 0, 0)

  /** The steps of a successful swap. */
  ghost function SwapSteps(price: int -> u128, p: Pool, amount: u64, threshold: u64, limit: u128, isInput: bool,
                           aToB: bool, starts: seq<int>, now: u64): seq<SwapStepComputation>
    requires Sound(price, p) && StepSwap(price, p, amount, threshold, limit, isInput, aToB, starts, now).Ok?
  {
    var accrued := AccrueRewards(p, now).value;
    SoundIsReady(price, p, amount, limit, isInput, aToB, starts, now);
    SwapLoop(EnvOf(price, accrued, limit, isInput, aToB, starts), SwapStart(accrued, amount, aToB)).value.steps
  }

  function SwapTransfers(steps: seq<SwapStepComputation>, rate: ProtocolFeeRate, aToB: bool, token: Token): Transfers {
    if token == InputToken(aToB) then Transfers(TotalIn(steps), 0, TotalProtocolFee(steps, rate), 0)
    else Transfers(0, TotalOut(steps), 0, 0)
  }

  /** The worth of a deposit or withdrawal, rounded for the pool. */
  function PartOf(price: int -> u128, p: Pool, id: nat, amount: nat, token: Token, roundUp: bool): nat {
    if id < |p.positions| && 0 < p.sqrtPrice
       && 0 < price(p.positions[id].tickLowerIndex) <= price(p.positions[id].tickUpperIndex)
    then PartAmount(price, p, p.positions[id], amount, token, roundUp)
    else 0
  }

  /** The transfers that each instruction is supposed to make. */
  ghost function TransfersOf(price: int -> u128, p: Pool, op: Op, token: Token): Transfers
    requires Sound(price, p) && Step(price, p, op).Ok?
  {
    match op
    case IncreaseLiquidity(id, amount, _, _, _, _, _) =>
      Transfers(PartOf(price, p, id, amount, token, true), 0, 0, 0)
    case DecreaseLiquidity(id, amount, _, _, _, _, _) =>
      Transfers(0, PartOf(price, p, id, amount, token, false), 0, 0)
    case CollectFees(id) => Transfers(0, Owed(p.positions[id], FeeChannel(token)), 0, 0)
    case CollectProtocolFees => Transfers(0, ProtocolOwed(p, token), 0, ProtocolOwed(p, token))
    case Swap(amount, threshold, limit, isInput, aToB, starts, now) =>
      SwapTransfers(SwapSteps(price, p, amount, threshold, limit, isInput, aToB, starts, now), p.protocolFeeRate, aToB,
                    token)
    case _ => NO_TRANSFER
  }

  /** Between p and r exactly these transfers were made. */
  predicate Made(p: Pool, r: Pool, token: Token, t: Transfers) {
    && Vault(r, token) == Vault(p, token) + t.paidIn - t.paidOut
    && ProtocolOwed(r, token) == ProtocolOwed(p, token) + t.setAside - t.collected
  }

  lemma SwapTransfersExactly(price: int -> u128, p: Pool, amount: u64, threshold: u64, limit: u128, isInput: bool,
                             aToB: bool, starts: seq<int>, now: u64, token: Token)
    requires Invariant(price, p) && Sound(price, p)
        && StepSwap(price, p, amount, threshold, limit, isInput, aToB, starts, now).Ok?
    ensures Made(p, StepSwap(price, p, amount, threshold, limit, isInput, aToB, starts, now).value, token,
                        SwapTransfers(SwapSteps(price, p, amount, threshold, limit, isInput, aToB, starts, now),
                                      p.protocolFeeRate, aToB, token))
  {
    hide Invariant, Sound, Ready, SwapLoop, SwapAmounts, NextRewardInfos, RewardAccrual, Accounted, Consistent,
        Solvent, CheckThreshold, UpdateAfterSwap, PerformSwap, TotalIn, TotalOut, TotalProtocolFee;
    var accrued := AccrueRewards(p, now).value;
    var e, st := EnvOf(price, accrued, limit, isInput, aToB, starts), SwapStart(accrued, amount, aToB);
    SoundIsReady(price, p, amount, limit, isInput, aToB, starts, now);
    RewardsAccrue(price, p, now);
    AmountsNonNegative(e, st, amount);
    InvariantIsConsistent(price, accrued);
    assert Entered(price, accrued, amount, e, st);
    FinishedSwap(price, accrued, amount, e, st, SwapLoop(e, st).value);
  }

  /** Instructions that make no transfer leave both vaults and the protocol's fees alone. */
  lemma NothingTransferred(price: int -> u128, p: Pool, op: Op, token: Token)
    requires Sound(price, p) && Step(price, p, op).Ok?
    requires !op.IncreaseLiquidity? && !op.DecreaseLiquidity? && !op.CollectFees? && !op.CollectProtocolFees?
        && !op.Swap?
    ensures Made(p, Step(price, p, op).value, token, NO_TRANSFER)
  {
    hide Sound, GrowthsInside, Settled, NextRewardInfos, RewardAccrual, NextTickModifyLiquidityUpdate, Removed,
        IsUsableTick, IsValidStartTick;
  }

  lemma ModifyTransfersNothing(p: Pool, id: nat, delta: i128, ls: int, us: int, now: u64)
    requires p.tickSpacing > 0 && id < |p.positions| && ModifyLiquidity(p, id, delta, ls, us, now).Ok?
    ensures forall token :: ProtocolOwed(ModifyLiquidity(p, id, delta, ls, us, now).value, token)
                            == ProtocolOwed(p, token)
  {
    hide NextRewardInfos, RewardAccrual, CalculateModifyLiquidity;
  }

  /** Every instruction makes exactly its transfers, in either token. */
  lemma StepTransfers(price: int -> u128, p: Pool, op: Op, token: Token)
    requires Invariant(price, p) && Sound(price, p) && Step(price, p, op).Ok?
    ensures Made(p, Step(price, p, op).value, token, TransfersOf(price, p, op, token))
  {
    hide Invariant, Sound, ModifyLiquidity, LiquidityTokenDeltas, StepSwap, StepCollectFees, StepCollectProtocolFees,
        StepUpdateFeesAndRewards, Vault, PartAmount, StepOpenPosition, StepInitializeTickArray, StepClosePosition,
        StepCollectReward, StepInitializeReward, StepSetRewardEmissions;
    SpacingPositive(price, p);
    match op
    case IncreaseLiquidity(id, amount, maxA, maxB, ls, us, now) =>
      DepositChargesExactly(price, p, id, amount, maxA, maxB, ls, us, now, token);
      ModifyTransfersNothing(p, id, ConvertToLiquidityDelta(amount, true).value, ls, us, now);
    case DecreaseLiquidity(id, amount, minA, minB, ls, us, now) =>
      WithdrawalPaysExactly(price, p, id, amount, minA, minB, ls, us, now, token);
      ModifyTransfersNothing(p, id, ConvertToLiquidityDelta(amount, false).value, ls, us, now);
    case CollectFees(id) =>
      CollectFeesKeeps(price, p, id);
      CollectFeesPaysExactly(price, p, id);
    case CollectProtocolFees => CollectProtocolFeesPaysExactly(price, p);
    case Swap(amount, threshold, limit, isInput, aToB, starts, now) =>
      SwapTransfersExactly(price, p, amount, threshold, limit, isInput, aToB, starts, now, token);
    case _ => NothingTransferred(price, p, op, token);
  }

  // ---------------------------------------------------------------- whole runs

  function AddTransfers(s: Transfers, t: Transfers): Transfers {
    Transfers(s.paidIn + t.paidIn, s.paidOut + t.paidOut, s.setAside + t.setAside, s.collected + t.collected)
  }

  /** The transfers of all successful instructions of a run. */
  ghost function RunTransfers(price: int -> u128, p: Pool, ops: seq<Op>, token: Token): Transfers
    requires Invariant(price, p)
  {
    if |ops| == 0 then NO_TRANSFER
    else
      var before, op := Run(price, p, ops[..|ops| - 1]), ops[|ops| - 1];
      AddTransfers(RunTransfers(price, p, ops[..|ops| - 1], token),
                   if Step(price, before, op).Ok? then TransfersOf(price, before, op, token) else NO_TRANSFER)
  }

  /**
   * Conservation over every run: a vault holds what it held, plus exactly the worth of all deposits, rounded up, and
   * all that swaps took in, less the worth of all withdrawals, rounded down, all that swaps paid out and all fees
   * collected by positions and the protocol; and what the protocol is owed is what swaps set aside less what it
   * collected.
   */
  lemma {:induction false} VaultsBalance(price: int -> u128, p: Pool, ops: seq<Op>, token: Token)
    requires Invariant(price, p)
    ensures Made(p, Run(price, p, ops), token, RunTransfers(price, p, ops, token))
  {
    hide Invariant, Step, TransfersOf, Vault, ProtocolOwed;
    if |ops| > 0 {
      var before, op := Run(price, p, ops[..|ops| - 1]), ops[|ops| - 1];
      VaultsBalance(price, p, ops[..|ops| - 1], token);
      SpacingPositive(price, before);
      if Step(price, before, op).Ok? {
        StepTransfers(price, before, op, token);
      }
    }
  }
}
