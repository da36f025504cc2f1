# Whirlpools: a verified model of the concentrated-liquidity pool and its router

This project models the Whirlpool program (the on-chain pool) and the parts of its SDK that price trades and split them
over routes, and proves what they are for.

**The pool.** A pool keeps several redundant views of the same facts: the liquidity of each position, gross and net
liquidity per tick, the liquidity active at the current price, the current tick and square-root price, global growth of
fees and rewards, and what each tick remembers of the growth outside it. `PoolState` states every instruction as a step
on these views. Beside them the model keeps a plain record that the program does not: the history of every growth
accrual with the tick the pool stood at, and when each position was last settled. The main results are about every run,
that is, every sequence of instructions from a new pool in which a failed instruction changes nothing:

- each vault covers everything that all positions together could withdraw, all fees owed to them and all protocol fees,
  under every rounding (`PoolSafety.VaultsCoverEverything`), and no instruction ever fails because a vault holds too
  little (`PoolSafety.NoPaymentFails`); who holds liquidity can always take it out, and the exact conditions are stated
  (`PoolExit.WithdrawalSucceeds`), as they are for deposits and swaps (`PoolSuccess`); what the caller asked for is
  honoured (`PoolTerms`);
- every token in a vault is accounted for: each instruction moves exactly the amount it stands for, to the token
  (`PoolAmounts`), and a vault's balance is the sum of those amounts over the run (`PoolVaults.VaultsBalance`);
- every step of every swap charges exactly the fee that its rate asks for (`SwapTrace.EveryStepIsExact`); all fees
  credited to positions, with all still to be credited, are all fees charged less the protocol's share, to a stated
  rounding (`PoolFees.CreditsMatchCharges`), and each credit is exactly the floor of what history shows, although growth
  wraps, owed amounts wrap and an overflowing product counts as zero (`PoolSafety.SettlingIsExact`);
- rewards paid, owed and still to be credited are at most what was emitted and, to a stated rounding, all that was
  distributed to liquidity in range (`PoolRewards.RewardsMatchEmissions`);
- the views agree (`PoolSafety.ViewsAgree`); the price lies between its tick and the next, and on the next only where a
  leftward arrival left it (`PoolBoundary.EdgeIsLeftwardArrival`), a state that the swap's guard against recomputing the
  tick of an unmoved price preserves (`PoolBoundary.GuardKeepsLiquidity`); and the growth that the tick manager reports
  between two ticks is the growth that history shows between them (`PoolHistory.RunRefinesHistory`);
- a swap crosses exactly the initialised ticks between its start and end, each once and in order
  (`SwapBooks.SwapLoopCrosses`), ends with the amount spent or the limit reached (`SwapProgress.SwapLoopEnds`), reports
  the sums of its steps, and its protocol fees never wrap (`SwapBooks.SwapLoopAccounted`).

The class `Whirlpools.Whirlpool` is the pool in the program's own form: fields that managers and handlers update in
place, with the swap loop as a loop. Each handler is proved to be one step of the specification, and `Execute`, which adds
the runtime's rollback, to keep the invariant.

**The prices.** `PriceMath` holds the SDK's closed formulas over unbounded integers, `TokenMath` the program's, with their
widths and error returns, and the two are proved to agree. The next price is exactly optimal in all four quadrants;
splitting a trade or moving a price there and back never helps the trader.

**The router.** `Router` proves the backtracking search sound, complete and free of repetition: it emits each way of
splitting a trade over the quoted paths exactly once. `QuoteMap` and `QuoteTable` prove that quotes are chained hop by
hop in both directions, that an incomplete path holds exactly one failed hop, and that filling the map in rounds gives
each path exactly the quote it would get alone; `SplitAmounts`, that the parts of a route of k quotes miss the traded
amount by at most k - 1 units; `QuoteTable.FilledRoutesAddUp` takes that from the filled map to the routes.

**Reading order.** `Numbers`, `PriceMath`, `TokenMath`; `TickManager`, `PositionManager`, `TickSearch`; `Ledger` (sums over
positions, history, claims on the vaults); `SwapManager`, `SwapProgress`, `SwapBooks`, `SwapClaims`, `SwapGrowth`,
`SwapTrace` (the swap loop, what it keeps and what each iteration settles); `PoolState`, `PoolInvariant`,
`PoolLiquidity`, `PoolSteps`, `PoolPayouts`, `PoolSwap`, `PoolRun` (the instructions and what they keep); `PoolSafety`,
`PoolBoundary`, `PoolTerms`, `PoolAmounts`, `PoolVaults`, `PoolExit`, `PoolSuccess`, `PoolFees`, `PoolRewards`,
`PoolHistory` (what follows for every instruction and every run); `Whirlpools` (the class); `Router`, `SplitAmounts`,
`QuoteMap`, `QuoteTable`.

**Conventions.** Checked arithmetic, Rust panics, missing accounts and refused transfers are error results. Wrapping
arithmetic is written out (`Wrap64`, `Wrap128`). A claim on a vault is a real number scaled by 2^64: the value of the
position's liquidity in one token at the current price, plus its liquidity times its pending growth, plus 2^64 times what
it is already owed. In a coordinate that is the square-root price for token B and its negated inverse for token A, every
exact amount is linear, so that one argument serves both tokens. Products in claims are repeated addition (`Times`),
proved equal to multiplication. The program's own multiplications and divisions are counted out the same way (`Mul`,
`Quot`, `Remainder`) and proved equal to the operators, which keeps reasoning about the steps linear.

**Where code and comments disagree.** The comment in `quote-map.ts` (line 286) says that a route that failed holds one
failure; a path without hops never gets a row at all (`QuoteMap.EmptyPathHasNoRow`), and reading it fails.
`update_after_swap` (state/whirlpool.rs:225-250) adds the protocol fee with an operator that wraps in a release build of
this workspace; the model lets it wrap and proves that it never does after a successful swap.

## Model

| member | source | states |
|---|---|---|
| PriceMath.NextPriceIsOptimal | sdk/src/utils/position-util.ts:191-207 | In all four quadrants the next price is exactly optimal: a price ahead is reached by the amount if and only if it is not beyond the computed one; input prices are the farthest whose rounded-up cost fits, output prices the nearest whose rounded-down yield suffices. |
| PriceMath.NextPriceMovesAhead | sdk/src/utils/swap-utils.ts:4-28 | The next price lies on the trade's side of the current one. |
| PriceMath.SplitTokenA | sdk/src/utils/position-util.ts:209-224 | Splitting a range: rounded-up amounts of A over both parts are at least the whole and at most one more, rounded-down ones at most the whole and at least one less. |
| PriceMath.SplitTokenB | sdk/src/utils/position-util.ts:226-240 | The same for B. |
| PriceMath.NoProfitThereAndBack | sdk/src/utils/position-util.ts:143-189 | Moving the price to another and back pays out no more of either token than it took in. |
| PriceMath.LiquidityFromTokenBIsLargest | sdk/src/utils/position-util.ts:128-141 | Liquidity rounded down from an amount of B is the largest whose cost, rounded up, stays within that amount. |
| PriceMath.LiquidityFromTokenAIsLargest | sdk/src/utils/position-util.ts:111-126 | Liquidity rounded down from an amount of A, too, is the largest whose cost, rounded up, stays within that amount: a liquidity fits the amount if and only if it is at most that. |
| PriceMath.LiquidityRoundedUpPaysOut | sdk/src/utils/position-util.ts:128-141 | Liquidity rounded up from an amount of B is the least that yields at least that amount when paid back rounded down. |
| PriceMath.LiquidityRoundedUpFromA | sdk/src/utils/position-util.ts:111-126 | For A, whose formula floors before it rounds up, the liquidity yields the amount again if and only if no fraction is lost on a multiple of 2^64, and otherwise one unit less. |
| PriceMath.RoundedUpFromAFallsShort | sdk/src/utils/position-util.ts:111-126 | An amount for which a fraction is lost. |
| TokenMath.AmountDeltaAAgrees | programs/whirlpool/src/math/token_math.rs:41-79 | The program's amount of A is the SDK's formula, and it fails exactly when that does not fit its widths. |
| TokenMath.AmountDeltaBAgrees | programs/whirlpool/src/math/token_math.rs:81-92 | The same for B. |
| TokenMath.NextSqrtPriceAgrees | programs/whirlpool/src/math/token_math.rs:119-207 | The program's next price is the SDK's, and the program fails exactly when there is none, it lies outside the program's bounds or an intermediate product does not fit. |
| TokenMath.FixedDeltaAgrees | programs/whirlpool/src/math/swap_math.rs:106-150 | The fixed and the unfixed amount of a step are the SDK's, and fail exactly when the amount or its product does not fit the program's widths. |
| TokenMath.ComputeSwapSettles | programs/whirlpool/src/math/swap_math.rs:45-85 | One computed step: the price stays between current and target, the specified side never exceeds what remains, and stopping short of the target means that it is spent; without liquidity nothing but the price moves. The amounts and the fee are given exactly by ComputeSwapIsExact. |
| TokenMath.TriedIsGreatest | programs/whirlpool/src/math/swap_math.rs:36-43 | What a step tries of a specified input is the greatest x with x * 1000000 <= remaining * (1000000 - rate); of a specified output, all. |
| TokenMath.FeeIsLeast | programs/whirlpool/src/math/swap_math.rs:87-96 | A fee that is not the rest of the input is the least f with f * (1000000 - rate) >= amountIn * rate, and always fits. |
| TokenMath.ComputeSwapIsExact | programs/whirlpool/src/math/swap_math.rs:14-104 | Everything a successful step returns: it goes to its target if what is tried pays for all of the way, else to the price that the amount tried buys; it charges that move rounded up and pays it rounded down, capped by a specified output; its fee is the rest of an input that stops short, and otherwise the least that pays. |
| TokenMath.ComputeSwapSucceeds | programs/whirlpool/src/math/swap_math.rs:14-104 | A step succeeds if and only if the amounts to its target, its next price and the amounts of its move fit the widths they are computed in; the fee never fails it. |
| TickManager.NextTickCrossUpdate | programs/whirlpool/src/manager/tick_manager.rs:7-28 | Crossing replaces each remembered outside growth by the rest of the global growth, rewards that are not initialised excepted. |
| TickManager.NextRewardGrowthsInside | programs/whirlpool/src/manager/tick_manager.rs:145-191 | The loop computes the inside growth of every initialised reward and zero for the others. |
| TickManager.InsideIsDifference | programs/whirlpool/src/manager/tick_manager.rs:94-141 | Growth inside a range is growth below its upper end minus growth below its lower end, modulo 2^128, wherever the current tick is. |
| TickManager.AdjacentRangesAdd | programs/whirlpool/src/manager/tick_manager.rs:94-141 | Growth inside adjacent ranges adds up. |
| TickManager.CrossingKeepsBelow | programs/whirlpool/src/manager/tick_manager.rs:7-28 | Crossing a tick, together with the current tick changing sides, leaves the growth below it unchanged. |
| TickManager.ModifyKeepsBelow | programs/whirlpool/src/manager/tick_manager.rs:30-90 | The convention for an uninitialised tick agrees with what initialising it records, for fees and every reward: growth below it is the same before and after. |
| TickManager.AccrualMovesBelow | programs/whirlpool/src/manager/tick_manager.rs:94-141 | A growth accrual raises the growth below exactly the ticks above the current one. |
| TickManager.LiquidityDeltaRoundTrip | programs/whirlpool/src/math/liquidity_math.rs:5-36 | Adding an amount fails exactly on overflow, removing it exactly on underflow, and removing what was added restores the liquidity. |
| PositionManager.NextPositionModifyLiquidityUpdate | programs/whirlpool/src/manager/position_manager.rs:7-58 | The in-place update settles both fees and all three rewards and then applies the liquidity change. |
| PositionManager.CreditBound | programs/whirlpool/src/manager/position_manager.rs:14-31 | A credit is never worth more than liquidity times true growth, whatever wrapped or overflowed, and is exactly its floor when the product fits. |
| TickSearch.GetNextInitTickIndex | programs/whirlpool/src/state/tick.rs:176-221 | The scan of one tick array finds what the specification finds, or fails out of range. |
| TickSearch.GetNextInitializedTickIndex | programs/whirlpool/src/util/swap_tick_sequence.rs:106-168 | The loop over the tick arrays returns what the specification returns. |
| TickSearch.ValidStartIsAligned | programs/whirlpool/src/state/tick.rs:73-90 | A valid start index is a multiple of the array's width, the minimum array included. |
| TickSearch.ValidStartExactly | programs/whirlpool/src/state/tick.rs:73-90 | A start index is valid if and only if it is a multiple of the array width and the array holds ticks of the tick range. |
| TickSearch.SearchLeft | programs/whirlpool/src/util/swap_tick_sequence.rs:106-168 | Going left, the result is at or below the search index, no initialised tick lies in between, and an initialised result can be loaded. |
| TickSearch.SearchRight | programs/whirlpool/src/util/swap_tick_sequence.rs:106-168 | Going right, the result is strictly above the search index and no initialised tick is skipped. |
| TickSearch.SearchStops | programs/whirlpool/src/util/swap_tick_sequence.rs:106-168 | In either direction a search stops only at an initialised tick, at an end of the tick range or at the end of the last array, and in the array that it returns. |
| TickSearch.SearchSucceeds | programs/whirlpool/src/util/swap_tick_sequence.rs:106-168 | Through contiguous arrays, begun in one that covers the index, a search fails if and only if no array is left, and then with that error. |
| SwapManager.TickOfPriceIsFloorInverse | programs/whirlpool/src/math/tick_math.rs:37-96 | The tick of a price is the greatest tick whose price is not above it. |
| SwapManager.PriceTablesExist | programs/whirlpool/src/math/tick_math.rs:21-33 | The contract asked of the tick-to-price function can be met. |
| SwapManager.SearchRegion | programs/whirlpool/src/manager/swap_manager.rs:68-75 | At every loop head the search succeeds only with a next tick on the trade's side, no initialised tick before it. |
| SwapManager.ProtocolShareIsFloor | programs/whirlpool/src/manager/swap_manager.rs:235-239 | The protocol's share s of a fee is its rate rounded down: s * 10000 <= fee * rate < (s + 1) * 10000. |
| SwapManager.GrowthIsFloor | programs/whirlpool/src/manager/swap_manager.rs:228-232 | The growth g per unit of liquidity L is the rest of the fee rounded down: g * L <= (fee - s) * 2^64 < (g + 1) * L, and zero without liquidity. |
| SwapManager.FeesAreShared | programs/whirlpool/src/manager/swap_manager.rs:212-233 | The running protocol fee and global growth advance by exactly those two, modulo their widths, at every rate and liquidity. |
| SwapProgress.StepSettles | programs/whirlpool/src/manager/swap_manager.rs:68-88 | An iteration moves the price towards the limit and no further than the next tick, and settles within what remains. What it settles exactly is SwapTrace.StepIsExact. |
| SwapProgress.StepTick | programs/whirlpool/src/manager/swap_manager.rs:124-182 | Price and tick agree after every iteration; the tick index moves in the trade's direction and never past the next tick. When the upper bound is attained is stated by StepEdge. |
| SwapProgress.StepEdge | programs/whirlpool/src/manager/swap_manager.rs:124-182 | An iteration ends with the price on the tick above the current one if and only if it arrived there going left, or began there and moved neither price nor tick. |
| SwapProgress.StepProgresses | programs/whirlpool/src/manager/swap_manager.rs:68-183 | The loop invariant is kept and a measure of the ticks left falls. |
| SwapProgress.RemainingNeverOverflows | programs/whirlpool/src/manager/swap_manager.rs:90-111 | The amount remaining always covers a step's input and fee: that overflow check never fires. |
| SwapProgress.SwapLoopEnds | programs/whirlpool/src/manager/swap_manager.rs:68-183 | The loop ends with the amount spent or the limit reached, the price moved only in the trade's direction and never past the limit, and price and tick in agreement. |
| SwapProgress.LoopEdge | programs/whirlpool/src/manager/swap_manager.rs:68-183 | A swap ends in that state only if price and tick ended where they began, or one of its iterations arrived there going left and nothing moved them afterwards. |
| SwapBooks.StepBooked | programs/whirlpool/src/manager/swap_manager.rs:124-182 | Pool liquidity remains the total of the positions in range through every iteration. |
| SwapBooks.SwapLoopBooked | programs/whirlpool/src/manager/swap_manager.rs:68-183 | The same for the whole swap, with every tick's gross and net. |
| SwapBooks.ActiveIsNetUpTo | programs/whirlpool/src/manager/swap_manager.rs:241-264 | The liquidity active at a tick is the sum of net liquidity at or below it. |
| SwapBooks.SwapLoopCrosses | programs/whirlpool/src/manager/swap_manager.rs:124-177 | A swap crosses exactly the initialised ticks between its first and last tick index, each once and in order, across arrays, also when it starts where a leftward swap arrived. |
| SwapBooks.ProtocolShareWithinFee | programs/whirlpool/src/manager/swap_manager.rs:235-239 | The protocol's share of a fee is at most the fee. |
| SwapBooks.SwapLoopAccounted | programs/whirlpool/src/manager/swap_manager.rs:90-122 | The reported amounts are the sums over all steps, the specified side stays within the amount, and the wrapping sum of protocol fees is the true sum. |
| SwapTrace.StepIsExact | programs/whirlpool/src/manager/swap_manager.rs:68-88 | Every iteration of a swap settles exactly what ComputeSwapIsExact says of its remaining amount, liquidity, price and target. |
| SwapTrace.EveryStepIsExact | programs/whirlpool/src/manager/swap_manager.rs:68-122 | A swap records one computation and one growth entry for each loop head, in order, each exact: the fee of every step is the least that pays or the rest of the input, and the growth is the rest of it over the liquidity active there, rounded down. |
| SwapTrace.HeadsAreTheRun | programs/whirlpool/src/manager/swap_manager.rs:68-183 | Those heads are the states that the loop goes through, each one iteration from the last. |
| SwapTrace.StepPositioned | programs/whirlpool/src/manager/swap_manager.rs:154-177 | While the loop runs on, the array index it keeps names the contiguous array that covers the current tick, or there is no array left. |
| SwapTrace.IterationSucceeds | programs/whirlpool/src/manager/swap_manager.rs:68-152 | An iteration succeeds if and only if its search does, its step fits, the running sum of the unspecified side stays below 2^64, and so does, below 2^128, the liquidity beyond a tick it crosses. |
| SwapTrace.SwapLoopSucceeds | programs/whirlpool/src/manager/swap_manager.rs:68-183 | Through contiguous arrays the loop succeeds if and only if at each of its heads an array is left and the next iteration fits. |
| SwapClaims.GrowthWithinFee | programs/whirlpool/src/manager/swap_manager.rs:212-233 | Growth per unit, shared by all active liquidity, is worth at most the fee less the protocol's share, as a claim; the other side of the bound is GrowthUsesFee. |
| SwapClaims.GrowthUsesFee | programs/whirlpool/src/manager/swap_manager.rs:212-233 | And it is worth at least that, less one unit of growth for each unit of liquidity. |
| SwapClaims.SwapLoopCovered | programs/whirlpool/src/manager/swap_manager.rs:68-183 | Through the whole loop the vaults, with what came in and less what went out, cover all claims and protocol fees. |
| SwapGrowth.SwapRefinesHistory | programs/whirlpool/src/manager/swap_manager.rs:114-152 | Over a swap, growth inside any two initialised ticks changes, modulo 2^128, by exactly the growth accrued while lower <= current tick < upper. |
| Ledger.NetWithinGross | programs/whirlpool/src/manager/tick_manager.rs:44-50 | A tick's net liquidity is within plus or minus its gross, so that resetting it at zero gross discards only a zero net. |
| Ledger.ActiveStep | programs/whirlpool/src/manager/swap_manager.rs:241-264 | Stepping over a tick changes the active liquidity by its net. |
| Ledger.HistoryAdjacent | programs/whirlpool/src/manager/tick_manager.rs:94-141 | Adjacent ranges add up in the history as they do in the tick manager. |
| Ledger.ClaimsMove | programs/whirlpool/src/manager/swap_manager.rs:77-88 | While no range is entered or left, a price move changes all claims together by what the active liquidity gains or loses. |
| Ledger.ClaimsAccrue | programs/whirlpool/src/manager/swap_manager.rs:228-232 | An accrual adds to all claims together its growth times the active liquidity. |
| Ledger.AmountCoversExact | sdk/src/utils/position-util.ts:209-240 | Amounts rounded up cover the exact real amount, amounts rounded down stay within it, for both tokens. |
| Ledger.AmountIsRounded | sdk/src/utils/position-util.ts:209-240 | Both are less than one token from it. |
| PoolState.SoundIsReady | programs/whirlpool/src/manager/swap_manager.rs:36-66 | A sound pool and checked arguments put the loop into a state that its invariant admits. |
| PoolInvariant.NewPoolInvariant | programs/whirlpool/src/state/whirlpool.rs:104-154 | A newly initialised pool satisfies the invariant. |
| PoolInvariant.RewardsAccrue | programs/whirlpool/src/manager/whirlpool_manager.rs:7-46 | Accruing rewards up to a time keeps the invariant. |
| PoolLiquidity.TicksStillMatch | programs/whirlpool/src/manager/tick_manager.rs:30-90 | After a liquidity change every tick's gross, net and flag are those of the changed positions. |
| PoolLiquidity.SettlingShrinksClaim | programs/whirlpool/src/manager/position_manager.rs:7-58 | Settling trades pending growth for an amount owed that is worth no more. |
| PoolLiquidity.DeltasArePartAmounts | programs/whirlpool/src/manager/liquidity_manager.rs:168-200 | The case split on the current tick charges exactly the parts of the range above and below the current price. |
| PoolLiquidity.DeltasAgainstValue | programs/whirlpool/src/manager/liquidity_manager.rs:168-200 | A deposit pays at least, and a withdrawal yields at most, what the liquidity is worth at the current price. |
| PoolSteps.SyncReplaces | programs/whirlpool/src/manager/liquidity_manager.rs:202-233 | Calculating and syncing a change replaces one position, settled, and keeps growth below every tick that stays initialised. |
| PoolSteps.IncreaseKeeps | programs/whirlpool/src/instructions/increase_liquidity.rs:46-113 | A successful deposit keeps the invariant. |
| PoolSteps.DecreaseKeeps | programs/whirlpool/src/instructions/decrease_liquidity.rs:15-82 | A successful withdrawal keeps the invariant. |
| PoolPayouts.DecreaseNeverShort | programs/whirlpool/src/instructions/decrease_liquidity.rs:61-79 | A withdrawal never fails in the transfer. |
| PoolPayouts.UpdateIsSettling | programs/whirlpool/src/instructions/update_fees_and_rewards.rs:21-39 | A checkpoint accrues rewards, settles exactly one position at the growth inside its range and changes nothing else. |
| PoolPayouts.UpdateFeesKeeps | programs/whirlpool/src/instructions/update_fees_and_rewards.rs:21-39 | Checkpointing fees and rewards keeps the invariant. |
| PoolPayouts.CollectFeesKeeps | programs/whirlpool/src/instructions/collect_fees.rs:37-68 | Collecting fees succeeds exactly when the position exists, and keeps the invariant. What it pays is PoolAmounts.CollectFeesPaysExactly. |
| PoolPayouts.CollectRewardKeeps | programs/whirlpool/src/instructions/collect_reward.rs:49-83 | Collecting as much of a reward as its vault has keeps the invariant. |
| PoolPayouts.ClosePositionKeeps | programs/whirlpool/src/instructions/close_position.rs:35-52 | Closing an empty position keeps the invariant. |
| PoolPayouts.CollectProtocolFeesKeeps | programs/whirlpool/src/instructions/collect_protocol_fees.rs:31-51 | Collecting protocol fees always succeeds, and keeps the invariant. |
| PoolPayouts.OpenPositionKeeps | programs/whirlpool/src/state/position.rs:58-78 | Opening a position keeps the invariant. |
| PoolPayouts.InitializeTickArrayKeeps | programs/whirlpool/src/state/tick.rs:223-240 | Initialising a tick array keeps the invariant. |
| PoolPayouts.RewardConfigKeeps | programs/whirlpool/src/state/whirlpool.rs:189-223 | Initialising a reward or setting its emissions keeps the invariant. |
| PoolSwap.TransfersAreExact | programs/whirlpool/src/util/swap_utils.rs:8-99 | A swap's transfers and the protocol fee it books are true sums, without wrap-around. |
| PoolSwap.SwapKeeps | programs/whirlpool/src/instructions/swap.rs:45-99 | A successful swap keeps the invariant, and no swap fails for lack of funds in a vault. |
| PoolRun.StepKeeps | programs/whirlpool/src/lib.rs:226-349 | Every one of the fourteen instructions keeps the invariant: those on these lines, and opening positions, tick arrays, rates and reward configuration. |
| PoolRun.Run | programs/whirlpool/src/lib.rs:226-349 | Every sequence of these instructions, failed ones rolled back, ends in a pool that satisfies the invariant. |
| PoolSafety.VaultsCoverEverything | programs/whirlpool/src/instructions/decrease_liquidity.rs:34-79 | In every reachable pool, for both tokens: what all positions could withdraw, rounded down, plus all credited and uncredited fees plus protocol fees is at most the vault. |
| PoolSafety.WithdrawableIsPaid | programs/whirlpool/src/manager/liquidity_manager.rs:168-200 | That amount is what the withdrawal instruction computes for the whole liquidity; that it is paid is PoolAmounts.WithdrawalPaysExactly. |
| PoolSafety.DeltaIsPart | programs/whirlpool/src/manager/liquidity_manager.rs:168-200 | For any amount, in both roundings, the instruction computes the worth of the liquidity over the part of the range on each token's side of the price. |
| PoolSafety.PartIsWorthRounded | programs/whirlpool/src/manager/liquidity_manager.rs:168-200 | Which is the exact worth at the present price rounded to a whole token, up or down. |
| PoolSafety.SettlingIsExact | programs/whirlpool/src/manager/position_manager.rs:14-31 | In every reachable pool, settling credits exactly the floor of liquidity times the growth that history shows in range: no wrap is misread, no product overflows to zero, no owed amount wraps. |
| PoolSafety.ViewsAgree | programs/whirlpool/src/manager/swap_manager.rs:124-182 | In every reachable pool: each tick's gross and net are sums over positions, pool liquidity is the total in range and the sum of nets up to the current tick, and the price lies between the current tick and the next; EdgeIsLeftwardArrival says when it is the next. |
| PoolBoundary.EdgeStep | programs/whirlpool/src/manager/swap_manager.rs:124-182 | Every instruction that leaves the price on the tick above the current one found it there or is a leftward swap that arrived there. |
| PoolBoundary.RunEdge | programs/whirlpool/src/manager/swap_manager.rs:124-182 | A run that starts off that state and ends in it contains a leftward arrival at that tick, and price and tick index stayed the same ever since. |
| PoolBoundary.EdgeIsLeftwardArrival | programs/whirlpool/src/manager/swap_manager.rs:124-182 | So in every reachable pool the upper price bound is attained only in the state left by a leftward arrival, the last instruction that changed price or tick. |
| PoolBoundary.TickOfEdge | programs/whirlpool/src/manager/swap_manager.rs:178-180 | The floor tick of the price is the current tick, except in that state, where it is the one above. |
| PoolBoundary.GuardKeepsLiquidity | programs/whirlpool/src/manager/swap_manager.rs:178-180 | What the guard on an unmoved price is for: recomputing the tick would keep the pool liquidity right if and only if the pool is not in that state or the tick above has no net liquidity. |
| PoolSafety.NewPoolIsReachable | programs/whirlpool/src/state/whirlpool.rs:104-154 | Every new pool is reachable. |
| PoolSafety.ReachablePoolsExist | programs/whirlpool/src/state/whirlpool.rs:104-154 | There are reachable pools. |
| PoolTerms.SwapHonoursTerms | programs/whirlpool/src/instructions/swap.rs:45-99 | A successful swap's specified side is at most the amount and equals it unless the limit price was reached; the other side is within the threshold; the price moved towards the limit and not past it. |
| PoolTerms.IncreaseHonoursTerms | programs/whirlpool/src/instructions/increase_liquidity.rs:46-113 | A successful deposit charges at most both maxima and at least what the liquidity is worth, and changes one position, its two ticks and the pool liquidity accordingly. The exact charge is PoolAmounts.DepositChargesExactly. |
| PoolTerms.DecreaseHonoursTerms | programs/whirlpool/src/instructions/decrease_liquidity.rs:15-82 | A successful withdrawal pays at least both minima and at most what the liquidity is worth, and changes one position, its two ticks and the pool liquidity accordingly. The exact payment is PoolAmounts.WithdrawalPaysExactly. |
| PoolTerms.DepositThenWithdraw | programs/whirlpool/src/manager/liquidity_manager.rs:168-200 | Depositing liquidity and withdrawing it at the same price never pays back more than it cost. |
| PoolTerms.RewardWithinEmissions | programs/whirlpool/src/manager/whirlpool_manager.rs:7-46 | One accrual of a reward, shared by all active liquidity, is worth at most what was emitted in the time. RewardIsFloor gives it exactly. |
| PoolTerms.RewardIsFloor | programs/whirlpool/src/manager/whirlpool_manager.rs:26-43 | The growth d of an initialised reward with liquidity L and a product below 2^128 is its emissions rounded down: d * L <= elapsed * rate < (d + 1) * L; otherwise it is zero. It is zero if and only if the reward is not initialised, L is zero, the product overflows or the quotient is zero. |
| PoolAmounts.DepositChargesExactly | programs/whirlpool/src/instructions/increase_liquidity.rs:74-112 | A successful deposit raises each vault by exactly the worth of the liquidity in that token at the present price, rounded up to a whole token. |
| PoolAmounts.WithdrawalPaysExactly | programs/whirlpool/src/instructions/decrease_liquidity.rs:15-82 | A successful withdrawal lowers each vault by exactly the worth of the liquidity in that token, rounded down to a whole token; for the whole liquidity that is all that is withdrawable. |
| PoolAmounts.CollectFeesPaysExactly | programs/whirlpool/src/instructions/collect_fees.rs:37-68 | Collecting fees lowers each vault by exactly what the position was owed in that token; both amounts owed become zero and nothing else changes. |
| PoolAmounts.CollectProtocolFeesPaysExactly | programs/whirlpool/src/instructions/collect_protocol_fees.rs:31-51 | Collecting protocol fees lowers each vault by exactly what the protocol was owed; both become zero and nothing else changes. |
| PoolAmounts.CollectableIsAllThereIs | programs/whirlpool/src/instructions/collect_reward.rs:75-84 | Paid and rest add up to what is owed, the payment is within what is available, and something stays owed only if all that is available was paid. |
| PoolAmounts.CollectRewardPaysExactly | programs/whirlpool/src/instructions/collect_reward.rs:49-73 | Collecting succeeds for an existing position and an initialised reward, lowers what is owed of that reward by exactly that payment, and changes nothing else. |
| PoolAmounts.OpenPositionAddsExactly | programs/whirlpool/src/state/position.rs:58-78 | Opening succeeds if and only if both bounds are multiples of the spacing in the tick range, the lower one first; it appends an empty position with those bounds and changes nothing else. |
| PoolAmounts.ClosePositionRemovesExactly | programs/whirlpool/src/instructions/close_position.rs:35-52 | Closing succeeds if and only if the position exists, holds no liquidity and is owed nothing in any channel; it removes that one and keeps all others in order. |
| PoolAmounts.NewPoolIsEmpty | programs/whirlpool/src/state/whirlpool.rs:104-154 | A pool is initialised if and only if its price is within the bounds; it has the given price, its floor tick, the given rates and spacing, and nothing in it. |
| PoolAmounts.InitializeTickArrayAddsExactly | programs/whirlpool/src/state/tick.rs:223-240 | A tick array is added if and only if it is not there yet and its start is a multiple of the width whose array holds ticks of the range; nothing else changes. |
| PoolAmounts.InitializeRewardIsLowest | programs/whirlpool/src/state/whirlpool.rs:205-223 | A reward is initialised if and only if it is the lowest one that is not yet; nothing else changes. |
| PoolAmounts.RatesAreBounded | programs/whirlpool/src/state/whirlpool.rs:252-268 | Either rate is set if and only if it is within its maximum; nothing else changes. |
| PoolAmounts.EmissionsAreCovered | programs/whirlpool/src/instructions/set_reward_emissions.rs:25-48 | Emissions are set if and only if the reward exists, the vault holds a day of them and the clock is not behind; what accrued under the old ones is added first. |
| PoolAmounts.UpdateSucceeds | programs/whirlpool/src/instructions/update_fees_and_rewards.rs:21-39 | A checkpoint succeeds if and only if the position has liquidity, its arrays are the right ones and the clock is not behind. |
| PoolVaults.StepTransfers | programs/whirlpool/src/lib.rs:226-349 | Every instruction makes exactly the transfers it stands for, in either token, and moves the protocol's fees by exactly what a swap sets aside or a collection pays. |
| PoolVaults.VaultsBalance | programs/whirlpool/src/lib.rs:226-349 | Conservation over every run: each vault holds what it held plus the worth of all deposits, rounded up, and all that swaps took in, less the worth of all withdrawals, rounded down, all that swaps paid out and all fees collected; what the protocol is owed is what swaps set aside less what it collected. |
| PoolSafety.NoPaymentFails | programs/whirlpool/src/lib.rs:226-349 | No instruction on a reachable pool fails because a vault holds too little. |
| PoolExit.WithdrawalComputes | programs/whirlpool/src/math/token_math.rs:41-92 | Computing a withdrawal within the position's liquidity never overflows. |
| PoolExit.WithdrawalSucceeds | programs/whirlpool/src/instructions/decrease_liquidity.rs:15-82 | Exactly when a withdrawal succeeds: positive amount within the liquidity and the signed width, nets of both ticks within theirs, right arrays, clock not behind, and the worth in each token, rounded down, at least its minimum. |
| PoolExit.NetsFitBelowHalf | programs/whirlpool/src/manager/tick_manager.rs:72-80 | The condition on the nets holds whenever both ticks' gross liquidity is a signed 128-bit number. |
| PoolSuccess.DepositSucceeds | programs/whirlpool/src/instructions/increase_liquidity.rs:46-113 | Exactly when a deposit succeeds: positive amount within the signed width, room for it in the position, both ticks and, in range, the pool, right arrays, clock not behind, and a charge in each token that can be computed, is within its maximum and fits the vault. |
| PoolSuccess.SwapSucceeds | programs/whirlpool/src/instructions/swap.rs:45-99 | Exactly when a swap succeeds: existing arrays, a limit within the bounds and on the trade's side, a positive amount, clock not behind, a loop that finishes, the side not specified within the threshold, and room in the vault for the input. |
| PoolSuccess.ArraysDecide | programs/whirlpool/src/manager/swap_manager.rs:36-183 | Given contiguous arrays, the first covering the current tick, the loop finishes if and only if an array is left and the iteration fits at each of its heads. |
| PoolFees.SwapLoopFees | programs/whirlpool/src/manager/swap_manager.rs:212-233 | Through a swap, fee claims grow by at most the fees charged less the protocol's share, on the input token only. |
| PoolFees.SwapLoopFeesReach | programs/whirlpool/src/manager/swap_manager.rs:212-233 | And by at least that, less one unit of growth for each unit of liquidity active at each step. |
| PoolFees.RunFlows | programs/whirlpool/src/manager/position_manager.rs:14-31 | Over any run, amounts owed change by exactly what was credited less what was collected, which is what the vault let go; fee claims change by at most what was charged less what was collected, and by at least that less the rounding of each step and each settlement. |
| PoolFees.CreditsMatchCharges | programs/whirlpool/src/manager/swap_manager.rs:212-233 | From a new pool, fees ever credited plus fees still to be credited are at most all fees charged less the protocol's share, and at least that less the rounding: one unit of growth per unit of liquidity at each step, one token at each settlement and for each position yet to be settled. What was credited is what was collected plus what is owed. |
| PoolRewards.ReplacedWithin | programs/whirlpool/src/manager/position_manager.rs:33-56 | Settling a position takes nothing from what it may take of a reward but the rounding, less than one token, if and only if the amount owed and the true credit together stay below 2^64. |
| PoolRewards.OverflowIsLost | programs/whirlpool/src/manager/position_manager.rs:33-56 | A credit that does not is lost: an input on which 2^64 tokens are credited as none. |
| PoolRewards.StepWithin | programs/whirlpool/src/manager/position_manager.rs:33-56 | Every instruction: what positions may take of a reward, with what was paid out, grows by at most what was emitted; and if the settlement it makes counts in full, by at least what was distributed to liquidity in range, less one unit of growth per unit of liquidity and one token if it settles. |
| PoolRewards.EmittedIsElapsed | programs/whirlpool/src/state/whirlpool.rs:160-178 | What an instruction emits is the rate times the seconds by which it advances the time of the last update. |
| PoolRewards.RewardsMatchEmissions | programs/whirlpool/src/manager/whirlpool_manager.rs:7-46 | From a new pool, rewards paid out, owed and still to be credited are together at most what was emitted, however growth and amounts owed wrapped or overflowed; and if every settlement of the run counted in full, at least what was distributed, less the rounding. |
| PoolHistory.RunRefinesHistory | programs/whirlpool/src/manager/tick_manager.rs:94-141 | Through any run in which two ticks stay initialised, growth inside them changes by exactly the growth accrued in between while lower <= current tick < upper. |
| Whirlpools.ChargeFees | programs/whirlpool/src/manager/swap_manager.rs:212-233 | The running locals compute the specified fees: the protocol's share rounded down, and the rest of the fee per unit of liquidity, rounded down, as growth. |
| Whirlpools.TakeAmounts | programs/whirlpool/src/manager/swap_manager.rs:90-111 | The checked running amounts are the specified ones, or the same error. |
| Whirlpools.Whirlpool.Initialize | programs/whirlpool/src/state/whirlpool.rs:104-154 | The new object is the specified new pool. |
| Whirlpools.Whirlpool.NextWhirlpoolRewardInfos | programs/whirlpool/src/manager/whirlpool_manager.rs:7-46 | The loop over rewards, with its early exit, adds to each the growth that PoolTerms.RewardIsFloor gives exactly. |
| Whirlpools.Whirlpool.CalculateUpdate | programs/whirlpool/src/manager/liquidity_manager.rs:86-166 | Everything a liquidity change will write, or the specified error. |
| Whirlpools.Whirlpool.SyncModifyLiquidity | programs/whirlpool/src/manager/liquidity_manager.rs:202-233 | The accounts are written in place to the specified state. |
| Whirlpools.Whirlpool.RunSwapLoop | programs/whirlpool/src/manager/swap_manager.rs:68-210 | The loop with its running variables, crossing ticks in place, computes the specified loop. |
| Whirlpools.Whirlpool.IncreaseLiquidity | programs/whirlpool/src/instructions/increase_liquidity.rs:46-113 | The handler is the specified deposit. |
| Whirlpools.Whirlpool.DecreaseLiquidity | programs/whirlpool/src/instructions/decrease_liquidity.rs:15-82 | The handler is the specified withdrawal, whose payment PoolAmounts.WithdrawalPaysExactly gives. |
| Whirlpools.Whirlpool.UpdateFeesAndRewards | programs/whirlpool/src/instructions/update_fees_and_rewards.rs:21-39 | The handler is the specified checkpoint. |
| Whirlpools.Whirlpool.CollectFees | programs/whirlpool/src/instructions/collect_fees.rs:37-68 | The handler is the specified payout, which PoolAmounts.CollectFeesPaysExactly gives: read, reset, transfer. |
| Whirlpools.Whirlpool.CollectReward | programs/whirlpool/src/instructions/collect_reward.rs:49-83 | The handler is the specified payout: the lesser of what is owed and what the vault has leaves it, and exactly that is no longer owed. |
| Whirlpools.Whirlpool.IsEmpty | programs/whirlpool/src/state/position.rs:40-47 | The loop over rewards decides whether a position holds no liquidity and is owed nothing. |
| Whirlpools.Whirlpool.ClosePosition | programs/whirlpool/src/instructions/close_position.rs:35-52 | The handler removes an empty position and refuses any other. |
| Whirlpools.Whirlpool.CollectProtocolFees | programs/whirlpool/src/instructions/collect_protocol_fees.rs:31-51 | The handler is the specified payout: transfer, reset. |
| Whirlpools.Whirlpool.Swap | programs/whirlpool/src/instructions/swap.rs:45-99 | The handler is the specified swap. |
| Whirlpools.Whirlpool.UpdateAfterSwap | programs/whirlpool/src/state/whirlpool.rs:225-250 | The fields are written as specified. |
| Whirlpools.Whirlpool.PerformSwap | programs/whirlpool/src/util/swap_utils.rs:45-99 | Deposit first, then withdrawal, in the order of the direction. |
| Whirlpools.Whirlpool.Execute | programs/whirlpool/src/lib.rs:226-349 | One transaction: the specified step, or nothing at all; the invariant holds afterwards. |
| Router.BuildRoutes | sdk/src/router/convert-quote-map.ts:104-165 | The recursive loops over shrinking candidate lists push exactly the enumerated routes, in order. |
| Router.GenerateRoutes | sdk/src/router/convert-quote-map.ts:88-102 | The search from an empty route yields all enumerated routes. |
| Router.EnumerateExact | sdk/src/router/convert-quote-map.ts:104-165 | From any state of the search, a selection is emitted if and only if it is a split that extends the current one. |
| Router.SplitsExactlyOnce | sdk/src/router/convert-quote-map.ts:104-165 | The whole search emits each split exactly once and nothing else, for every limit on the number of parts. |
| Router.PartialAppend | sdk/src/router/convert-quote-map.ts:128-134 | The code's test for reused pools is exactly what keeps a selection free of conflicts. |
| Router.RoutesAreSplits | sdk/src/router/convert-quote-map.ts:138-150 | Every emitted route totals 100 percent in non-increasing parts, with totals equal to the sums of its quotes; none is missing or repeated. |
| SplitAmounts.GetSplitPercentageAmts | sdk/src/router/quote-map.ts:306-316 | For any step but zero, fractional or negative ones included: all multiples up to 100, each with the part of the trade that its truncated percentage comes to. |
| SplitAmounts.WholeSteps | sdk/src/router/quote-map.ts:306-316 | For a whole step there are 100 / step percentages and they are whole. |
| SplitAmounts.RouteAmountsAddUp | sdk/src/router/convert-quote-map.ts:138-150 | A generated route of k quotes that each carry their floored part has a specified-side total of at most the trade and at least the trade less k - 1. |
| QuoteMap.RowsAreChains | sdk/src/router/quote-map.ts:43-70 | After all rounds, in both trade modes: a complete path is a chain from the specified amount in which each hop passes on what the next takes, in amount and token; a path is incomplete if and only if a hop failed, and then exactly one did. |
| QuoteMap.RowsAreQuotes | sdk/src/router/quote-map.ts:43-70 | After all rounds each entry of a path's row is exactly what quoting that path alone, hop by hop from the answer of the last, reports there; the row is complete if and only if that gets to the end, and a failed hop holds the error that stopped it. |
| QuoteTable.QuoteTable.BuildQuoteUpdateRequests | sdk/src/router/quote-map.ts:162-241 | The nested loops initialise the rows that start in this round and list the requests that the last hops give rise to. |
| QuoteTable.QuoteTable.PopulateQuoteMap | sdk/src/router/quote-map.ts:97-142 | Every answer is written into its row. |
| QuoteTable.RequestsMakeRound | sdk/src/router/quote-map.ts:54-69 | Requesting a whole batch first and writing all answers afterwards is the same as going path by path. |
| QuoteTable.QuoteTable.FillQuoteMap | sdk/src/router/quote-map.ts:43-70 | After the last round every percentage and path holds the row that quoting it alone would give. |
| QuoteTable.FilledIsSettled | sdk/src/router/quote-map.ts:286-289 | In a filled map every incomplete row holds a failed hop, so that reading the first failure cannot fail. |
| QuoteTable.QuoteTable.SanitizeQuoteMap | sdk/src/router/quote-map.ts:249-289 | Complete rows become quotes in order, and the reported errors are exactly those of the incomplete rows. |
| QuoteTable.CleanQuotesAreChains | sdk/src/router/quote-map.ts:266-282 | Every sanitised quote carries exactly its percentage of the trade on the specified side, and its hops are chained. |
| QuoteTable.CleanQuotesAreOffers | sdk/src/router/quote-map.ts:249-284 | Sanitising a filled map yields exactly the quotes of walking each path on its own, in order, with the last pool's answer on the side not specified. |
| QuoteTable.FailuresAreRefusals | sdk/src/router/quote-map.ts:286-289 | A path is reported with an error if and only if walking it is refused with that error. |
| QuoteTable.FilledRoutesAddUp | sdk/src/router/convert-quote-map.ts:88-165 | From the filled map to the routes: buckets of any sanitised quotes in ascending percentage are what the search asks for, and every route it emits from them has a specified-side total between the trade less k - 1 and the trade. |
| QuoteMap.EmptyPathHasNoRow | sdk/src/router/quote-map.ts:260-289 | A path without hops never gets a row, in any round. |

## Left out

- The bit-constant computation of a tick's price and the logarithm approximation of a price's tick: every result holds for
  any strictly increasing table with the program's two bounds, and the tick of a price is its floor inverse.
- Word-level 256-bit arithmetic: products are exact integers with the program's overflow conditions written out.
- Token accounts of users, authorities, signers, account addresses, mints and memos: a transfer is a change of a vault
  balance, which the token program keeps below 2^64.
- The balances of reward vaults: what a vault has available is a parameter of each instruction that reads it.
- Position bundles, two-hop swaps and the instructions for token extensions.
- Passing the same tick array twice to a swap, which the runtime refuses; the model allows any list of initialised arrays.
- Tick spacing zero, for which the program divides by zero.
- Rolling back a failed instruction is the runtime's work; `Whirlpools.Whirlpool.Execute` models it by restoring the fields.
- Positions and ticks are values in a sequence and a map of the pool object, not objects of their own, so aliasing between
  accounts is not modelled.
- The fee-growth log message at the end of a swap.
- The router's ranking and pruning of quotes and routes by amount: the results hold for whatever quotes remain.
- The single-hop routes that the router adds to the ranked ones, and the conversion to its public types.
- Quoting one hop, which fetches accounts: it is a parameter that answers a request with an amount and a token or an error.
- Quote maps for a fractional percentage step, whose keys JavaScript orders by insertion; the split itself is modelled.
- PositionManager.CreditBound: for rewards, exactness needs the stated bound on the product, because nothing limits the
  emissions that an authority may set; for fees it always holds in a reachable pool.
- PoolRewards.StepWithin: the lower bound holds for instructions whose settlement counts in full, because emissions are not
  limited and the program drops a credit that overflows; `PoolRewards.ReplacedWithin` says exactly when that happens.
- PoolRewards.RewardsMatchEmissions: the lower bound is about runs whose settlements all count in full, for the same reason.
- SwapManager.TickOfPriceIsFloorInverse: about the modelled floor inverse, not about the approximation that computes it.
- SwapManager.PriceTablesExist: about the contract asked of the program's table, not about the table itself.
