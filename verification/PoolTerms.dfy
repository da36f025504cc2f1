/** What an instruction does for the caller who sent it: prices, limits and amounts are honoured. */
module PoolTerms {
  import opened Numbers
  import opened TickManager
  import opened PositionManager
  import opened TickSearch
  import opened Ledger
  import opened TM = TokenMath
  import opened SwapManager
  import opened SwapProgress
  import opened SwapBooks
  import opened SwapClaims
  import opened SwapGrowth
  import opened PoolState
  import opened PoolInvariant
  import opened PoolLiquidity
  import opened PoolSteps
  import opened PoolSwap

  // ---------------------------------------------------------------- swaps

  /** What a swap brought in and paid out, by the vaults. */
  function Paid(p: Pool, r: Pool, aToB: bool): int { Vault(r, InputToken(aToB)) - Vault(p, InputToken(aToB)) }

  function Received(p: Pool, r: Pool, aToB: bool): int { Vault(p, OutputToken(aToB)) - Vault(r, OutputToken(aToB)) }

  /**
   * The terms of a swap: the specified side is met unless the limit price was reached, and never exceeded; the other
   * side is within the threshold; the price moved towards the limit and not past it.
   */
  ghost predicate HonoursSwap(p: Pool, r: Pool, amount: u64, threshold: u64, limit: u128, isInput: bool, aToB: bool) {
    var specified := if isInput then Paid(p, r, aToB) else Received(p, r, aToB);
    && 0 <= specified <= amount
    && (specified == amount || r.sqrtPrice == limit)
    && (if isInput then Received(p, r, aToB) >= threshold else 0 <= Paid(p, r, aToB) <= threshold)
    && Between(p.sqrtPrice, r.sqrtPrice, limit, aToB)
  }

  /** What a finished loop and a passed threshold mean for the transfers. */
  lemma LoopHonours(p: Pool, amount: u64, threshold: u64, e: SwapEnv, r: SwapState, r': Pool)
    requires Accounted(e, amount, r) && Transferred(p, e, r, r') && r'.sqrtPrice == r.sqrtPrice
    requires CheckThreshold(SwapAmounts(amount, e.isInput, e.aToB, r), threshold, e.isInput, e.aToB).Ok?
    requires (r.amountRemaining == 0 || r.sqrtPrice == e.limit) && Between(p.sqrtPrice, r.sqrtPrice, e.limit, e.aToB)
    ensures HonoursSwap(p, r', amount, threshold, e.limit, e.isInput, e.aToB)
  {
    hide TotalIn, TotalOut, TotalProtocolFee;
    AmountsAreTotals(e, amount, r);
  }

  lemma SwapHonoursTerms(price: int -> u128, p: Pool, amount: u64, threshold: u64, limit: u128, isInput: bool,
                         aToB: bool,
                         starts: seq<int>, now: u64)
    requires Invariant(price, p) && Sound(price, p)
        && StepSwap(price, p, amount, threshold, limit, isInput, aToB, starts, now).Ok?
    ensures HonoursSwap(p, StepSwap(price, p, amount, threshold, limit, isInput, aToB, starts, now).value, amount,
                        threshold, limit, isInput, aToB)
  {
    hide Invariant, Sound, Ready, SwapLoop, SwapAmounts, NextRewardInfos, RewardAccrual, Accounted, Consistent,
        Solvent, Transferred,
         CheckThreshold, HonoursSwap, UpdateAfterSwap, PerformSwap;
    var accrued := AccrueRewards(p, now).value;
    var e, st := EnvOf(price, accrued, limit, isInput, aToB, starts), SwapStart(accrued, amount, aToB);
    SoundIsReady(price, p, amount, limit, isInput, aToB, starts, now);
    RewardsAccrue(price, p, now);
    AmountsNonNegative(e, st, amount);
    InvariantIsConsistent(price, accrued);
    var r := SwapLoop(e, st).value;
    SwapLoopEnds(e, st);
    assert Entered(price, accrued, amount, e, st);
    FinishedSwap(price, accrued, amount, e, st, r);
    var done := StepSwap(price, p, amount, threshold, limit, isInput, aToB, starts, now).value;
    AmountsAreTotals(e, amount, r);
    AfterSwapPrice(accrued, aToB, r, SwapAmounts(amount, isInput, aToB, r));
    LoopHonours(accrued, amount, threshold, e, r, done);
    SameVaults(p, accrued, done, amount, threshold, limit, isInput, aToB);
  }

  lemma AfterSwapPrice(p: Pool, aToB: bool, r: SwapState, amounts: (int, int))
    requires 0 <= amounts.0 && 0 <= amounts.1
    ensures var done := PerformSwap(UpdateAfterSwap(p, aToB, r), amounts, aToB);
            done.Ok? ==> done.value.sqrtPrice == r.sqrtPrice
  {
  }

  lemma SameVaults(p: Pool, q: Pool, r: Pool, amount: u64, threshold: u64, limit: u128, isInput: bool, aToB: bool)
    requires q.vaultA == p.vaultA && q.vaultB == p.vaultB && q.sqrtPrice == p.sqrtPrice
    requires HonoursSwap(q, r, amount, threshold, limit, isInput, aToB)
    ensures HonoursSwap(p, r, amount, threshold, limit, isInput, aToB)
  {
  }

  // ---------------------------------------------------------------- deposits and withdrawals

  /** A deposit charges at most the maxima, at least what the liquidity is worth, and concerns no other position. */
  lemma IncreaseHonoursTerms(price: int -> u128, p: Pool, id: nat, amount: u128, maxA: u64, maxB: u64, ls: int,
                             us: int, now: u64)
    requires Invariant(price, p) && p.tickSpacing > 0
        && StepIncreaseLiquidity(price, p, id, amount, maxA, maxB, ls, us, now).Ok?
    ensures var r := StepIncreaseLiquidity(price, p, id, amount, maxA, maxB, ls, us, now).value;
            && id < |p.positions| == |r.positions| && Changed(p, r, id, amount)
            && (forall token ::
                  Worth(price, p, p.positions[id], amount, token) <= Q * ((Vault(r, token) - Vault(p, token)) as real))
            && 0 <= r.vaultA - p.vaultA <= maxA && 0 <= r.vaultB - p.vaultB <= maxB
  {
    hide Invariant, Consistent, Solvent, LiquidityTokenDeltas, Worth, ModifyLiquidity, Changed;
    InvariantIsConsistent(price, p);
    DeltasWorth(price, p, id, amount, true);
    ModifyChanges(p, id, ConvertToLiquidityDelta(amount, true).value, ls, us, now);
    VaultsDoNotChange(p, ModifyLiquidity(p, id, ConvertToLiquidityDelta(amount, true).value, ls, us, now).value,
                      StepIncreaseLiquidity(price, p, id, amount, maxA, maxB, ls, us, now).value,
                      id, ConvertToLiquidityDelta(amount, true).value);
  }

  /** A withdrawal pays at least the minima, at most what the liquidity is worth, and concerns no other position. */
  lemma DecreaseHonoursTerms(price: int -> u128, p: Pool, id: nat, amount: u128, minA: u64, minB: u64, ls: int,
                             us: int, now: u64)
    requires Invariant(price, p) && p.tickSpacing > 0
        && StepDecreaseLiquidity(price, p, id, amount, minA, minB, ls, us, now).Ok?
    ensures var r := StepDecreaseLiquidity(price, p, id, amount, minA, minB, ls, us, now).value;
            && id < |p.positions| == |r.positions| && Changed(p, r, id, -(amount as int))
            && (forall token ::
                  Q * ((Vault(p, token) - Vault(r, token)) as real) <= Worth(price, p, p.positions[id], amount, token))
            && p.vaultA - r.vaultA >= minA && p.vaultB - r.vaultB >= minB
  {
    hide Invariant, Consistent, Solvent, LiquidityTokenDeltas, Worth, ModifyLiquidity, Changed;
    InvariantIsConsistent(price, p);
    DeltasWorth(price, p, id, amount, false);
    ModifyChanges(p, id, ConvertToLiquidityDelta(amount, false).value, ls, us, now);
    VaultsDoNotChange(p, ModifyLiquidity(p, id, ConvertToLiquidityDelta(amount, false).value, ls, us, now).value,
                      StepDecreaseLiquidity(price, p, id, amount, minA, minB, ls, us, now).value,
                      id, ConvertToLiquidityDelta(amount, false).value);
  }

  /**
   * One position's liquidity changed by delta, and the pool's with it if that position is in range; price and tick did
   * not move.
   */
  ghost predicate Changed(p: Pool, r: Pool, id: nat, delta: int)
    requires id < |p.positions| == |r.positions|
  {
    && (forall i :: 0 <= i < |p.positions| && i != id ==> r.positions[i] == p.positions[i])
    && r.positions[id].liquidity == p.positions[id].liquidity + delta
    && r.positions[id].tickLowerIndex == p.positions[id].tickLowerIndex
        && r.positions[id].tickUpperIndex == p.positions[id].tickUpperIndex
    && r.liquidity == p.liquidity + (if InRange(p.positions[id], p.tickIndex) then delta else 0)
    && r.sqrtPrice == p.sqrtPrice && r.tickIndex == p.tickIndex
    && forall t :: t != p.positions[id].tickLowerIndex && t != p.positions[id].tickUpperIndex ==>
        TickAt(r.ticks, t) == TickAt(p.ticks, t)
  }

  lemma ModifyChanges(p: Pool, id: nat, delta: i128, ls: int, us: int, now: u64)
    requires p.tickSpacing > 0 && id < |p.positions| && ModifyLiquidity(p, id, delta, ls, us, now).Ok?
    ensures var r := ModifyLiquidity(p, id, delta, ls, us, now).value;
            && |r.positions| == |p.positions| && Changed(p, r, id, delta) && r.vaultA == p.vaultA
                && r.vaultB == p.vaultB
  {
    hide NextRewardInfos, RewardAccrual, NextTickModifyLiquidityUpdate, GrowthsInside, Settled;
    SettledKeepsRange(p.positions[id], InsideOf(AccrueRewards(p, now).value, p.positions[id]));
  }

  lemma VaultsDoNotChange(p: Pool, synced: Pool, r: Pool, id: nat, delta: int)
    requires id < |p.positions| == |synced.positions| && Changed(p, synced, id, delta)
    requires r == synced.(vaultA := r.vaultA, vaultB := r.vaultB)
    ensures Changed(p, r, id, delta)
  {
  }

  /** The exact value of an amount of liquidity in a position's range at the pool's price, scaled by 2^64. */
  ghost function Worth(price: int -> u128, p: Pool, q: Position, amount: nat, token: Token): real {
    Value(token, amount, LowCoord(price, token, q), HighCoord(price, token, q), Coord(token, p.sqrtPrice))
  }

  lemma DeltasWorth(price: int -> u128, p: Pool, id: nat, amount: u128, roundUp: bool)
    requires Consistent(price, p) && id < |p.positions|
    requires LiquidityTokenDeltas(price, p.tickIndex, p.sqrtPrice, p.positions[id], amount, roundUp).Ok?
    ensures var deltas := LiquidityTokenDeltas(price, p.tickIndex, p.sqrtPrice, p.positions[id], amount, roundUp).value;
            forall token :: if roundUp then Worth(price, p, p.positions[id], amount, token)
                <= Q * (DeltaOf(deltas, token) as real)
                            else Q * (DeltaOf(deltas, token) as real) <= Worth(price, p, p.positions[id], amount, token)
  {
    hide AllCoupled, AllQuiet, LiquidityBooked, LiquidityTokenDeltas, Value, Coord, IsPriceTable;
    var deltas := LiquidityTokenDeltas(price, p.tickIndex, p.sqrtPrice, p.positions[id], amount, roundUp).value;
    forall token: Token
      ensures if roundUp then Worth(price, p, p.positions[id], amount, token) <= Q * (DeltaOf(deltas, token) as real)
              else Q * (DeltaOf(deltas, token) as real) <= Worth(price, p, p.positions[id], amount, token)
    {
      DeltasAgainstValue(price, p.tickIndex, p.sqrtPrice, p.positions[id], amount, roundUp, token);
    }
  }

  /** Depositing liquidity and taking it out again at the same price never pays back more than it cost. */
  lemma DepositThenWithdraw(price: int -> u128, p: Pool, id: nat, amount: u128, token: Token)
    requires Consistent(price, p) && id < |p.positions|
    requires LiquidityTokenDeltas(price, p.tickIndex, p.sqrtPrice, p.positions[id], amount, true).Ok?
    requires LiquidityTokenDeltas(price, p.tickIndex, p.sqrtPrice, p.positions[id], amount, false).Ok?
    ensures DeltaOf(LiquidityTokenDeltas(price, p.tickIndex, p.sqrtPrice, p.positions[id], amount, false).value, token)
            <= DeltaOf(LiquidityTokenDeltas(price, p.tickIndex, p.sqrtPrice, p.positions[id], amount, true).value,
                       token)
  {
    hide Consistent, LiquidityTokenDeltas, Worth, DeltaOf;
    DeltasWorth(price, p, id, amount, true);
    DeltasWorth(price, p, id, amount, false);
    WholeTokens(DeltaOf(LiquidityTokenDeltas(price, p.tickIndex, p.sqrtPrice, p.positions[id], amount, false).value,
                        token),
                DeltaOf(LiquidityTokenDeltas(price, p.tickIndex, p.sqrtPrice, p.positions[id], amount, true).value,
                        token));
  }

  // ---------------------------------------------------------------- rewards

  /**
   * Reward growth, shared by all active liquidity, is worth at most what was emitted in the elapsed time; none if it is
   * not initialised.
   */
  lemma RewardWithinEmissions(r: RewardInfo, elapsed: u64, liquidity: u128)
    ensures liquidity * RewardDelta(r, elapsed, liquidity) <= elapsed * r.emissionsPerSecondX64
    ensures !r.initialized ==> RewardDelta(r, elapsed, liquidity) == 0
  {
    var n := Mul(elapsed, r.emissionsPerSecondX64);
    MulIsProduct(elapsed, r.emissionsPerSecondX64);
    MulMono(0, r.emissionsPerSecondX64, elapsed);
    if liquidity > 0 {
      RoundedQuotIsRounded(n, liquidity, false);
      hide Mul, RoundedQuot;
      FloorGalois(n, liquidity, n / liquidity);
    }
  }

  /**
   * And exactly: growth is the emissions of the elapsed time per unit of active liquidity, rounded down. It is zero for
   * a reward that is not initialised, without liquidity, when the product overflows, and if it rounds to zero.
   */
  lemma RewardIsFloor(r: RewardInfo, elapsed: u64, liquidity: u128)
    ensures var d, emitted := RewardDelta(r, elapsed, liquidity), elapsed * r.emissionsPerSecondX64;
            if r.initialized && liquidity > 0 && emitted < TWO_128
            then d * liquidity <= emitted < (d + 1) * liquidity else d == 0
    ensures RewardDelta(r, elapsed, liquidity) == 0
            <==> || !r.initialized || liquidity == 0 || elapsed * r.emissionsPerSecondX64 >= TWO_128
                 || elapsed * r.emissionsPerSecondX64 < liquidity
  {
    var n := Mul(elapsed, r.emissionsPerSecondX64);
    MulIsProduct(elapsed, r.emissionsPerSecondX64);
    if liquidity > 0 {
      RoundedQuotIsRounded(n, liquidity, false);
      hide Mul, RoundedQuot;
      FloorGalois(n, liquidity, n / liquidity);
      FloorGalois(n, liquidity, n / liquidity + 1);
      FloorGalois(n, liquidity, 1);
    }
  }
}
