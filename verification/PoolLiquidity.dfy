/** Changing a position's liquidity, settling its growth and paying its fees keep the pool invariant. */
module PoolLiquidity {
  import opened Numbers
  import opened TickManager
  import opened PositionManager
  import opened TickSearch
  import opened Ledger
  import opened TM = TokenMath
  import PM = PriceMath
  import opened SwapManager
  import opened SwapProgress
  import opened SwapBooks
  import opened SwapClaims
  import opened SwapGrowth
  import opened PoolState
  import opened PoolInvariant

  // ---------------------------------------------------------------- ticks and liquidity

  /** A tick that took part in a liquidity change: its gross and net moved by delta, and it was reset at zero gross. */
  lemma TickUpdateMatches(tick: Tick, index: int, current: int, g: Growths, delta: i128, isUpper: bool, gross: int,
                          net: int)
    requires delta != 0 && NextTickModifyLiquidityUpdate(tick, index, current, g, delta, isUpper).Ok?
    requires tick.liquidityGross + delta == gross
        && tick.liquidityNet + (if isUpper then -(delta as int) else delta) == net
    requires -gross <= net <= gross
    ensures var next := NextTickModifyLiquidityUpdate(tick, index, current, g, delta, isUpper).value;
            next.liquidityGross == gross && next.liquidityNet == net && (next.initialized <==> gross > 0)
  {
  }

  /** Every tick matches the positions again once both ends of the changed position have been updated. */
  lemma TicksStillMatch(ps: seq<Position>, ticks: Ticks, id: nat, q: Position, delta: i128, current: int, g: Growths,
                        lower: Tick, upper: Tick)
    requires TicksMatch(ticks, ps) && id < |ps| && delta != 0
    requires var o := ps[id]; o.tickLowerIndex < o.tickUpperIndex && q.tickLowerIndex == o.tickLowerIndex
                              && q.tickUpperIndex == o.tickUpperIndex && q.liquidity == o.liquidity + delta
    requires NextTickModifyLiquidityUpdate(TickAt(ticks, q.tickLowerIndex), q.tickLowerIndex, current, g, delta, false)
        == Ok(lower)
    requires NextTickModifyLiquidityUpdate(TickAt(ticks, q.tickUpperIndex), q.tickUpperIndex, current, g, delta, true)
        == Ok(upper)
    ensures TicksMatch(ticks[q.tickLowerIndex := lower][q.tickUpperIndex := upper], ps[id := q])
  {
    hide NextTickModifyLiquidityUpdate;
    var ps', l, u := ps[id := q], q.tickLowerIndex, q.tickUpperIndex;
    var ticks' := ticks[l := lower][u := upper];
    forall t: int
      ensures TickAt(ticks', t).liquidityGross == Sum(ps', GrossAt(t))
          && TickAt(ticks', t).liquidityNet == Sum(ps', NetAt(t))
      ensures TickAt(ticks', t).initialized <==> TickAt(ticks', t).liquidityGross > 0
    {
      SumUpdate(ps, GrossAt(t), id, q, |ps|);
      SumUpdate(ps, NetAt(t), id, q, |ps|);
      NetWithinGross(ps', t, |ps|);
      if t == l {
        TickUpdateMatches(TickAt(ticks, l), l, current, g, delta, false, Sum(ps', GrossAt(l)), Sum(ps', NetAt(l)));
      } else if t == u {
        TickUpdateMatches(TickAt(ticks, u), u, current, g, delta, true, Sum(ps', GrossAt(u)), Sum(ps', NetAt(u)));
      }
    }
  }

  /** One tick's part in a liquidity change, seen from the growth below any tick. */
  ghost predicate TickKept(before: Tick, after: Tick, t: int, current: int, g: Growths) {
    forall c: Channel ::
      && Quiet(after, c, g)
      && (after.initialized ==> GrowthBelow(current, t, after.initialized, Outside(after, c), g.At(c))
                                == GrowthBelow(current, t, before.initialized, Outside(before, c), g.At(c)))
  }

  /** Changing two ticks' liquidity leaves the growth below every tick that is initialised afterwards as it was. */
  lemma TicksKept(ticks: Ticks, ps: seq<Position>, l: int, u: int, current: int, g: Growths, delta: i128, lower: Tick,
                  upper: Tick)
    requires TicksMatch(ticks, ps) && AllQuiet(ticks, g) && l < u
    requires NextTickModifyLiquidityUpdate(TickAt(ticks, l), l, current, g, delta, false) == Ok(lower)
    requires NextTickModifyLiquidityUpdate(TickAt(ticks, u), u, current, g, delta, true) == Ok(upper)
    ensures var ticks' := ticks[l := lower][u := upper];
            && AllQuiet(ticks', g)
            && forall t: int :: TickKept(TickAt(ticks, t), TickAt(ticks', t), t, current, g)
  {
    var ticks' := ticks[l := lower][u := upper];
    forall t: int
      ensures TickKept(TickAt(ticks, t), TickAt(ticks', t), t, current, g)
    {
      forall c: Channel
        ensures Quiet(TickAt(ticks', t), c, g)
        ensures TickAt(ticks', t).initialized ==>
          GrowthBelow(current, t, TickAt(ticks', t).initialized, Outside(TickAt(ticks', t), c), g.At(c))
          == GrowthBelow(current, t, TickAt(ticks, t).initialized, Outside(TickAt(ticks, t), c), g.At(c))
      {
        assert Quiet(TickAt(ticks, t), c, g);
        if t == l {
          ModifyKeepsBelow(TickAt(ticks, l), l, current, g, delta, false, c);
        } else if t == u {
          ModifyKeepsBelow(TickAt(ticks, u), u, current, g, delta, true, c);
        }
      }
    }
    forall t: int, c: Channel
      ensures Quiet(TickAt(ticks', t), c, g)
    {
      assert TickKept(TickAt(ticks, t), TickAt(ticks', t), t, current, g);
    }
  }

  /** So the growth inside a range whose ends are both initialised afterwards is what it was. */
  lemma InsideKept(ticks: Ticks, ticks': Ticks, current: int, g: Growths, l: int, u: int, c: Channel)
    requires forall t: int :: TickKept(TickAt(ticks, t), TickAt(ticks', t), t, current, g)
    requires TickAt(ticks', l).initialized && TickAt(ticks', u).initialized
    ensures InsideAt(ticks', current, l, u, c, g) == InsideAt(ticks, current, l, u, c, g)
  {
    hide GrowthInside, GrowthBelow, Wrap128, Quiet;
    InsideIsDifference(current, TickAt(ticks, l), l, TickAt(ticks, u), u, c, g.At(c));
    InsideIsDifference(current, TickAt(ticks', l), l, TickAt(ticks', u), u, c, g.At(c));
    assert TickKept(TickAt(ticks, l), TickAt(ticks', l), l, current, g);
    assert TickKept(TickAt(ticks, u), TickAt(ticks', u), u, current, g);
  }

  // ---------------------------------------------------------------- settling a position

  /**
   * The growth that the instruction reports inside a range is the tick manager's, rewards not yet initialised included.
   */
  lemma ReportedInside(p: Pool, l: int, u: int, c: Channel)
    requires AllQuiet(p.ticks, PoolGrowths(p))
    ensures GrowthsInside(p, TickAt(p.ticks, l), l, TickAt(p.ticks, u), u).At(c)
            == InsideAt(p.ticks, p.tickIndex, l, u, c, PoolGrowths(p))
  {
    assert Quiet(TickAt(p.ticks, l), c, PoolGrowths(p)) && Quiet(TickAt(p.ticks, u), c, PoolGrowths(p));
    match c
    case FeeA =>
    case FeeB =>
    case Reward(i) =>
      assert RewardGrowthsInside(p.tickIndex, TickAt(p.ticks, l), l, TickAt(p.ticks, u), u, p.rewardInfos)[i]
          == RewardGrowthInside(p.tickIndex, TickAt(p.ticks, l), l, TickAt(p.ticks, u), u, p.rewardInfos, i);
  }

  lemma SettledCheckpoint(q: Position, inside: InsideGrowths, c: Channel)
    ensures Checkpoint(Settled(q, inside), c) == inside.At(c)
    ensures Owed(Settled(q, inside), c) == Wrap64(Owed(q, c) + Credit(q.liquidity, inside.At(c), Checkpoint(q, c)))
  {
    match c
    case FeeA =>
    case FeeB =>
    case Reward(i) =>
      assert Settled(q, inside).rewardInfos[i] == NextReward(q, inside, i);
  }

  /** A credit is never worth more than the growth that the history shows the position to be entitled to. */
  lemma CreditWithinPending(ticks: Ticks, current: int, g: Growths, q: Position, since: nat, h: seq<Accrual>,
                            c: Channel)
    requires since <= |h|
    requires q.liquidity > 0 ==> Coupled(ticks, current, g, q, since, h, c)
    ensures Q * (Credit(q.liquidity, InsideAt(ticks, current, q.tickLowerIndex, q.tickUpperIndex, c, g),
                        Checkpoint(q, c)) as real)
            <= Times(q.liquidity, Pending(q, since, h, c) as real)
  {
    hide InsideAt, InsideHistory;
    var inside, pending := InsideAt(ticks, current, q.tickLowerIndex, q.tickUpperIndex, c, g), Pending(q, since, h, c);
    if q.liquidity > 0 {
      CreditBound(q.liquidity, inside, Checkpoint(q, c), pending);
      CreditAsReal(q.liquidity, pending, Credit(q.liquidity, inside, Checkpoint(q, c)));
    }
  }

  lemma CreditAsReal(liquidity: nat, pending: nat, credit: nat)
    requires credit * TWO_64 <= liquidity * pending
    ensures Q * (credit as real) <= Times(liquidity, pending as real)
  {
    TimesIsProduct(liquidity, pending as real);
    CastProduct(liquidity, pending);
    CastProduct(credit, TWO_64);
  }

  lemma SettledKeepsRange(q: Position, inside: InsideGrowths)
    ensures Settled(q, inside).liquidity == q.liquidity && Settled(q, inside).tickLowerIndex == q.tickLowerIndex
            && Settled(q, inside).tickUpperIndex == q.tickUpperIndex
  {
  }

  /** Settling trades pending growth for an amount owed that is worth no more, whatever wraps or overflows. */
  lemma SettlingShrinksClaim(price: int -> u128, token: Token, ticks: Ticks, current: int, g: Growths, q: Position,
                             since: nat,
                             h: seq<Accrual>, inside: InsideGrowths, x: real)
    requires since <= |h|
    requires var c := FeeChannel(token);
             && (q.liquidity > 0 ==> Coupled(ticks, current, g, q, since, h, c))
             && inside.At(c) == InsideAt(ticks, current, q.tickLowerIndex, q.tickUpperIndex, c, g)
    ensures Claim(price, token, Settled(q, inside), 0, x)
            <= Claim(price, token, q, Pending(q, since, h, FeeChannel(token)), x)
  {
    hide InsideAt, Value, InsideHistory, Coupled, Credit, Settled, Coord;
    var c := FeeChannel(token);
    SettledCheckpoint(q, inside, c);
    CreditWithinPending(ticks, current, g, q, since, h, c);
    TimesZero(q.liquidity);
    assert Settled(q, inside).liquidity == q.liquidity && Settled(q, inside).tickLowerIndex == q.tickLowerIndex
        && Settled(q, inside).tickUpperIndex == q.tickUpperIndex by { SettledKeepsRange(q, inside); }
  }

  // ---------------------------------------------------------------- what a liquidity change costs

  lemma ValueAdd(token: Token, a: nat, b: nat, low: real, high: real, x: real)
    ensures Value(token, a + b, low, high, x) == Value(token, a, low, high, x) + Value(token, b, low, high, x)
  {
    TimesAdd(a, b, if token.TokenA? then high - Clamp(x, low, high) else Clamp(x, low, high) - low);
  }

  /** One token of a deposit or withdrawal over [low, high], from the checked amount. */
  lemma AmountIsTokenAmount(token: Token, low: u128, high: u128, liquidity: u128, roundUp: bool)
    requires 0 < low <= high
    ensures var r := AmountOf(low, high, liquidity, token, roundUp);
            r.Ok? ==> if roundUp then Times(liquidity, Coord(token, high) - Coord(token, low)) <= Q * (r.value as real)
                      else Q * (r.value as real) <= Times(liquidity, Coord(token, high) - Coord(token, low))
  {
    hide GetAmountDeltaA, GetAmountDeltaB, PM.GetTokenAFromLiquidity, PM.GetTokenBFromLiquidity, Times, Coord;
    AmountDeltaAAgrees(low, high, liquidity, roundUp);
    AmountDeltaBAgrees(low, high, liquidity, roundUp);
    AmountCoversExact(token, liquidity, low, high);
  }

  /** The part of [low, high] that holds one token at price s: above s for A, below s for B. */
  function TokenLow(token: Token, low: nat, high: nat, s: nat): nat {
    if token.TokenA? then PM.Min(PM.Max(s, low), high) else low
  }

  function TokenHigh(token: Token, low: nat, high: nat, s: nat): nat {
    if token.TokenA? then high else PM.Min(PM.Max(s, low), high)
  }

  lemma ValueOverPart(token: Token, liquidity: nat, low: nat, high: nat, s: nat)
    requires 0 < low <= high && 0 < s
    ensures Value(token, liquidity, Coord(token, low), Coord(token, high), Coord(token, s))
            == Times(liquidity, Coord(token, TokenHigh(token, low, high, s))
                     - Coord(token, TokenLow(token, low, high, s)))
  {
    hide Coord;
    CoordOrder(token, s, low);
    CoordOrder(token, s, high);
    CoordOrder(token, low, high);
  }

  function DeltaOf(deltas: (u64, u64), token: Token): u64 { if token.TokenA? then deltas.0 else deltas.1 }

  /** The tick-based case split of a deposit or withdrawal agrees with the price. */
  lemma DeltasArePartAmounts(price: int -> u128, tickIndex: int, s: u128, q: Position, liquidity: u128, roundUp: bool,
                             token: Token)
    requires IsPriceTable(price) && Coherent(price, s, tickIndex)
    requires MIN_TICK_INDEX <= q.tickLowerIndex < q.tickUpperIndex <= MAX_TICK_INDEX
    requires LiquidityTokenDeltas(price, tickIndex, s, q, liquidity, roundUp).Ok?
    ensures var low, high := price(q.tickLowerIndex), price(q.tickUpperIndex);
            var part0, part1 := TokenLow(token, low, high, s), TokenHigh(token, low, high, s);
            var delta := DeltaOf(LiquidityTokenDeltas(price, tickIndex, s, q, liquidity, roundUp).value, token);
            && 0 < low <= part0 <= part1 <= high
            && ((delta == 0 && part0 == part1) || AmountOf(part0, part1, liquidity, token, roundUp) == Ok(delta))
  {
    hide GetAmountDeltaA, GetAmountDeltaB;
    var l, u := q.tickLowerIndex, q.tickUpperIndex;
    PriceOrder(price, MIN_TICK_INDEX, l);
    PriceOrder(price, l, u);
    PriceOrder(price, tickIndex + 1, l);
    PriceOrder(price, tickIndex + 1, u);
    PriceOrder(price, l, tickIndex);
    PriceOrder(price, u, tickIndex);
  }

  /** A deposit pays for at least, and a withdrawal yields at most, what the liquidity is worth. */
  lemma DeltasAgainstValue(price: int -> u128, tickIndex: int, s: u128, q: Position, liquidity: u128, roundUp: bool,
                           token: Token)
    requires IsPriceTable(price) && Coherent(price, s, tickIndex)
    requires MIN_TICK_INDEX <= q.tickLowerIndex < q.tickUpperIndex <= MAX_TICK_INDEX
    requires LiquidityTokenDeltas(price, tickIndex, s, q, liquidity, roundUp).Ok?
    ensures var worth := Value(token, liquidity, LowCoord(price, token, q), HighCoord(price, token, q),
                               Coord(token, s));
            var delta := DeltaOf(LiquidityTokenDeltas(price, tickIndex, s, q, liquidity, roundUp).value, token);
            if roundUp then worth <= Q * (delta as real) else Q * (delta as real) <= worth
  {
    hide Value, Coord, AmountOf, LiquidityTokenDeltas;
    var low, high := price(q.tickLowerIndex), price(q.tickUpperIndex);
    DeltasArePartAmounts(price, tickIndex, s, q, liquidity, roundUp, token);
    ValueOverPart(token, liquidity, low, high, s);
    var part0, part1 := TokenLow(token, low, high, s), TokenHigh(token, low, high, s);
    AmountIsTokenAmount(token, part0, part1, liquidity, roundUp);
    TimesZero(liquidity);
  }
}
