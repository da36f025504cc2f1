/** Vault solvency through a swap: what comes in and goes out against what the positions may claim. */
module SwapClaims {
  import opened Numbers
  import opened TickManager
  import opened PositionManager
  import opened TickSearch
  import opened Ledger
  import opened TM = TokenMath
  import opened SwapManager
  import opened SwapProgress
  import opened SwapBooks

  function InputToken(aToB: bool): Token { if aToB then TokenA else TokenB }

  function OutputToken(aToB: bool): Token { if aToB then TokenB else TokenA }

  ghost function ClaimsAt(e: SwapEnv, token: Token, ps: seq<Position>, since: seq<nat>, st: SwapState): real
    requires Dated(ps, since, st.history)
  {
    Claims(e.price, token, ps, since, st.history, Coord(token, st.sqrtPrice))
  }

  /**
   * The vault balances that the swap will leave, vaultIn plus the input so far and vaultOut less the output so far,
   * cover all claims and all protocol fees, where owedIn and owedOut are the protocol fees from before the swap.
   */
  ghost predicate Covered(e: SwapEnv, ps: seq<Position>, since: seq<nat>, st: SwapState,
                          vaultIn: int, vaultOut: int, owedIn: int, owedOut: int)
  {
    && Dated(ps, since, st.history)
    && ClaimsAt(e, InputToken(e.aToB), ps, since, st)
       + Q * ((owedIn + TotalProtocolFee(st.steps, e.protocolFeeRate)) as real)
       <= Q * ((vaultIn + TotalIn(st.steps)) as real)
    && ClaimsAt(e, OutputToken(e.aToB), ps, since, st) + Q * (owedOut as real)
       <= Q * ((vaultOut - TotalOut(st.steps)) as real)
  }

  // ---------------------------------------------------------------- a step leaves every range unbroken

  /** Price bounds of one step, seen from a position. */
  lemma PositionUnbroken(e: SwapEnv, ps: seq<Position>, ticks: Ticks, t: int, s: u128, next: u128, nextTick: int,
                         i: nat, token: Token)
    requires GoodEnv(e) && Ranges(ps, e.tickSpacing) && TicksMatch(ticks, ps) && i < |ps|
    requires Region(e, ticks, t, nextTick) && Coherent(e.price, s, t) && next > 0
    requires Between(s, next, e.price(nextTick), e.aToB)
    ensures LowCoord(e.price, token, ps[i]) <= HighCoord(e.price, token, ps[i])
    ensures Unbroken(t, ps[i], LowCoord(e.price, token, ps[i]), HighCoord(e.price, token, ps[i]),
                     Coord(token, s), Coord(token, next))
  {
    var p := ps[i];
    var l, u := p.tickLowerIndex, p.tickUpperIndex;
    PriceOrder(e.price, l, u);
    PriceOrder(e.price, MIN_TICK_INDEX, l);
    CoordOrder(token, e.price(l), e.price(u));
    if p.liquidity > 0 {
      SumContains(ps, GrossAt(l), i, |ps|);
      SumContains(ps, GrossAt(u), i, |ps|);
      assert TickAt(ticks, l).initialized && TickAt(ticks, u).initialized;
      PositionPrices(e, t, s, next, nextTick, l, u);
      CoordOrder(token, e.price(l), s);
      CoordOrder(token, e.price(l), next);
      CoordOrder(token, e.price(u), s);
      CoordOrder(token, e.price(u), next);
    }
  }

  lemma CoordOrder(token: Token, a: nat, b: nat)
    requires 0 < a && 0 < b
    ensures a <= b ==> Coord(token, a) <= Coord(token, b)
    ensures b <= a ==> Coord(token, b) <= Coord(token, a)
  {
    if a <= b { CoordMonotone(token, a, b); }
    if b <= a { CoordMonotone(token, b, a); }
  }

  lemma PositionPrices(e: SwapEnv, t: int, s: u128, next: u128, nextTick: int, l: int, u: int)
    requires IsPriceTable(e.price) && Coherent(e.price, s, t)
    requires MIN_TICK_INDEX <= l < u <= MAX_TICK_INDEX && MIN_TICK_INDEX <= nextTick <= MAX_TICK_INDEX
    requires Between(s, next, e.price(nextTick), e.aToB)
    requires if e.aToB then nextTick <= t else t < nextTick
    requires if e.aToB then !(nextTick < l <= t) && !(nextTick < u <= t) else !(t < l < nextTick) && !(t < u < nextTick)
    ensures if l <= t < u then e.price(l) <= s <= e.price(u) && e.price(l) <= next <= e.price(u)
            else (s <= e.price(l) && next <= e.price(l)) || (e.price(u) <= s && e.price(u) <= next)
  {
    PriceOrder(e.price, l, nextTick);
    PriceOrder(e.price, nextTick, l);
    PriceOrder(e.price, u, nextTick);
    PriceOrder(e.price, nextTick, u);
    PriceOrder(e.price, t + 1, l);
    PriceOrder(e.price, t + 1, u);
    PriceOrder(e.price, l, t);
    PriceOrder(e.price, u, t);
  }

  // ---------------------------------------------------------------- the input side

  /** The claims on the input vault grow by at most what a price move and its fee bring in. */
  lemma MoveInput(price: int -> u128, ps: seq<Position>, since: seq<nat>, h: seq<Accrual>, entry: Accrual,
                  s: u128, next: u128, liquidity: u128, aToB: bool, charge: nat, fee: u64, share: nat)
    requires Dated(ps, since, h) && 0 < s && 0 < next && (if aToB then next <= s else s <= next)
    requires liquidity == Sum(ps, ActiveAt(entry.tick)) && entry.channel == InputChannel(aToB)
    requires AllUnbroken(price, InputToken(aToB), ps, entry.tick, Coord(InputToken(aToB), s),
                         Coord(InputToken(aToB), next))
    requires Times(liquidity, Gain(InputToken(aToB), Coord(InputToken(aToB), s), Coord(InputToken(aToB), next)))
        <= Q * (charge as real)
    requires Times(liquidity, entry.growth as real) <= Q * ((fee - share) as real)
    ensures var token := InputToken(aToB);
            && Dated(ps, since, h + [entry])
            && Claims(price, token, ps, since, h + [entry], Coord(token, next)) + Q * (share as real)
               <= Claims(price, token, ps, since, h, Coord(token, s)) + Q * ((charge + fee) as real)
  {
    var token := InputToken(aToB);
    var x, y := Coord(token, s), Coord(token, next);
    ClaimsAccrue(price, token, ps, since, h, x, entry);
    ClaimsMove(price, token, ps, since, h + [entry], entry.tick, x, y);
    SumInput(Claims(price, token, ps, since, h, x), Times(liquidity, entry.growth as real),
             Times(liquidity, Gain(token, x, y)),
             charge, fee, share);
  }

  lemma SumInput(claims: real, accrued: real, gained: real, charge: int, fee: int, share: int)
    requires accrued <= Q * ((fee - share) as real) && gained <= Q * (charge as real)
    ensures claims + accrued + gained + Q * (share as real) <= claims + Q * ((charge + fee) as real)
  {
  }

  /** What a swap step means for the claims, apart from how it was computed. */
  ghost predicate Account(e: SwapEnv, ps: seq<Position>, st: SwapState, c: SwapStepComputation, st': SwapState) {
    && 0 < st.sqrtPrice && 0 < c.nextPrice
    && (if e.aToB then c.nextPrice <= st.sqrtPrice else st.sqrtPrice <= c.nextPrice)
    && st.liquidity == Sum(ps, ActiveAt(st.tickIndex))
    && c.amountIn == Charge(st.liquidity, st.sqrtPrice, c.nextPrice, e.aToB)
    && c.amountOut <= Payout(st.liquidity, st.sqrtPrice, c.nextPrice, e.aToB)
    && st'.history == st.history + [StepAccrual(e, st, c)]
    && st'.steps == st.steps + [c]
    && st'.sqrtPrice == c.nextPrice
    && forall token: Token ::
         AllUnbroken(e.price, token, ps, st.tickIndex, Coord(token, st.sqrtPrice), Coord(token, c.nextPrice))
  }

  function StepAccrual(e: SwapEnv, st: SwapState, c: SwapStepComputation): Accrual {
    Accrual(InputChannel(e.aToB), st.tickIndex, GrowthDelta(c.feeAmount, e.protocolFeeRate, st.liquidity))
  }

  lemma StepHistory(e: SwapEnv, st: SwapState)
    requires e.tickSpacing > 0 && SwapStep(e, st).Ok?
    ensures var c := Open(e, st).c;
            var st' := SwapStep(e, st).value;
            && st'.history == st.history + [StepAccrual(e, st, c)]
            && st'.steps == st.steps + [c]
            && st'.sqrtPrice == c.nextPrice
  {
    var o := Open(e, st);
    MovePriceKeepsBooks(e, o.booked, o.c.nextPrice, o.at, o.next);
  }

  lemma StepAccount(e: SwapEnv, ps: seq<Position>, st: SwapState)
    requires Ready(e, st) && Running(e, st) && SwapStep(e, st).Ok?
    requires Ranges(ps, e.tickSpacing) && LiquidityBooked(ps, st.ticks, st.tickIndex, st.liquidity)
    ensures Account(e, ps, st, Open(e, st).c, SwapStep(e, st).value)
  {
    StepSettles(e, st);
    StepHistory(e, st);
    forall token: Token
      ensures AllUnbroken(e.price, token, ps, st.tickIndex, Coord(token, st.sqrtPrice),
                          Coord(token, Open(e, st).c.nextPrice))
    {
      StepUnbroken(e, ps, st, token);
    }
  }

  lemma StepUnbroken(e: SwapEnv, ps: seq<Position>, st: SwapState, token: Token)
    requires Ready(e, st) && Running(e, st) && SwapStep(e, st).Ok?
    requires Ranges(ps, e.tickSpacing) && LiquidityBooked(ps, st.ticks, st.tickIndex, st.liquidity)
    ensures AllUnbroken(e.price, token, ps, st.tickIndex, Coord(token, st.sqrtPrice),
                        Coord(token, Open(e, st).c.nextPrice))
  {
    var o := Open(e, st);
    StepSettles(e, st);
    forall i | 0 <= i < |ps|
      ensures LowCoord(e.price, token, ps[i]) <= HighCoord(e.price, token, ps[i])
      ensures Unbroken(st.tickIndex, ps[i], LowCoord(e.price, token, ps[i]), HighCoord(e.price, token, ps[i]),
                       Coord(token, st.sqrtPrice), Coord(token, o.c.nextPrice))
    {
      PositionUnbroken(e, ps, st.ticks, st.tickIndex, st.sqrtPrice, o.c.nextPrice, o.next, i, token);
    }
  }

  lemma StepInput(e: SwapEnv, ps: seq<Position>, since: seq<nat>, st: SwapState, c: SwapStepComputation, st': SwapState)
    requires Account(e, ps, st, c, st') && Dated(ps, since, st.history)
    ensures Dated(ps, since, st'.history)
    ensures ClaimsAt(e, InputToken(e.aToB), ps, since, st')
        + Q * (CalculateProtocolFee(c.feeAmount, e.protocolFeeRate) as real)
            <= ClaimsAt(e, InputToken(e.aToB), ps, since, st) + Q * ((c.amountIn + c.feeAmount) as real)
  {
    ChargeCovers(st.liquidity, st.sqrtPrice, c.nextPrice, e.aToB);
    GrowthWithinFee(c.feeAmount, e.protocolFeeRate, st.liquidity);
    MoveInput(e.price, ps, since, st.history, StepAccrual(e, st, c), st.sqrtPrice, c.nextPrice, st.liquidity, e.aToB,
              c.amountIn, c.feeAmount, CalculateProtocolFee(c.feeAmount, e.protocolFeeRate));
  }

  lemma StepOutput(e: SwapEnv, ps: seq<Position>, since: seq<nat>, st: SwapState, c: SwapStepComputation,
                   st': SwapState)
    requires Account(e, ps, st, c, st') && Dated(ps, since, st.history)
    ensures Dated(ps, since, st'.history)
    ensures ClaimsAt(e, OutputToken(e.aToB), ps, since, st') + Q * (c.amountOut as real)
            <= ClaimsAt(e, OutputToken(e.aToB), ps, since, st)
  {
    PayoutWithin(st.liquidity, st.sqrtPrice, c.nextPrice, e.aToB);
    MoveOutput(e.price, ps, since, st.history, StepAccrual(e, st, c), st.sqrtPrice, c.nextPrice, st.liquidity, e.aToB,
               c.amountOut);
  }

  /** Growth shared by all the active liquidity amounts to no more than the liquidity providers' part of the fee. */
  lemma GrowthWithinFee(fee: u64, rate: ProtocolFeeRate, liquidity: u128)
    ensures Times(liquidity, GrowthDelta(fee, rate, liquidity) as real)
        <= Q * ((fee - CalculateProtocolFee(fee, rate)) as real)
    ensures CalculateProtocolFee(fee, rate) <= fee
  {
    ProtocolShareWithinFee(fee, rate);
    if liquidity > 0 {
      var share := fee - CalculateProtocolFee(fee, rate);
      QuotIsQuotient(share * TWO_64, liquidity);
      var growth := (share * TWO_64) / liquidity;
      FloorGalois(share * TWO_64, liquidity, growth);
      TimesIsProduct(liquidity, growth as real);
      CastProduct(liquidity, growth);
      CastProduct(share, TWO_64);
      assert liquidity * growth == growth * liquidity;
    }
  }

  /** Nor does it fall short by as much as one unit of growth for each unit of active liquidity. */
  lemma GrowthUsesFee(fee: u64, rate: ProtocolFeeRate, liquidity: u128)
    requires liquidity == 0 ==> fee == 0
    ensures CalculateProtocolFee(fee, rate) <= fee
    ensures Q * ((fee - CalculateProtocolFee(fee, rate)) as real)
        <= Times(liquidity, GrowthDelta(fee, rate, liquidity) as real) + (liquidity as real)
  {
    ProtocolShareWithinFee(fee, rate);
    GrowthIsFloor(fee, rate, liquidity);
    var share, growth := fee - CalculateProtocolFee(fee, rate), GrowthDelta(fee, rate, liquidity);
    hide GrowthDelta, CalculateProtocolFee;
    Distribute(growth, 1, liquidity);
    TimesIsProduct(liquidity, growth as real);
    CastProduct(liquidity, growth);
    CastProduct(share, TWO_64);
    assert liquidity * growth == growth * liquidity;
  }

  /** The step's charge, rounded up, covers what the active liquidity gains in the input token. */
  lemma ChargeCovers(liquidity: nat, current: nat, next: nat, aToB: bool)
    requires 0 < current && 0 < next && (if aToB then next <= current else current <= next)
    ensures Times(liquidity, Gain(InputToken(aToB), Coord(InputToken(aToB), current), Coord(InputToken(aToB), next)))
            <= Q * (Charge(liquidity, current, next, aToB) as real)
  {
    if aToB {
      AmountCoversExact(TokenA, liquidity, next, current);
    } else {
      AmountCoversExact(TokenB, liquidity, current, next);
    }
  }

  // ---------------------------------------------------------------- the output side

  lemma {:induction false} TimesNegate(n: int, d: real)
    ensures Times(n, -d) == -Times(n, d)
  {
    TimesSum(n, d, -d);
    TimesZero(n);
  }

  lemma {:induction false} TimesZero(n: int)
    ensures Times(n, 0.0) == 0.0
    decreases if n < 0 then -n else n
  {
    if n > 0 { TimesZero(n - 1); } else if n < 0 { TimesZero(n + 1); }
  }

  /** The step's payout, rounded down, stays within what the active liquidity gives up in the output token. */
  lemma PayoutWithin(liquidity: nat, current: nat, next: nat, aToB: bool)
    requires 0 < current && 0 < next && (if aToB then next <= current else current <= next)
    ensures Times(liquidity, Gain(OutputToken(aToB), Coord(OutputToken(aToB), current), Coord(OutputToken(aToB), next)))
            + Q * (Payout(liquidity, current, next, aToB) as real) <= 0.0
  {
    if aToB {
      AmountCoversExact(TokenB, liquidity, next, current);
      TimesNegate(liquidity, Coord(TokenB, current) - Coord(TokenB, next));
      assert Gain(TokenB, Coord(TokenB, current), Coord(TokenB, next))
          == -(Coord(TokenB, current) - Coord(TokenB, next));
    } else {
      AmountCoversExact(TokenA, liquidity, current, next);
      TimesNegate(liquidity, Coord(TokenA, next) - Coord(TokenA, current));
      assert Gain(TokenA, Coord(TokenA, current), Coord(TokenA, next))
          == -(Coord(TokenA, next) - Coord(TokenA, current));
    }
  }

  /** The claims on the output vault fall by at least what a price move pays out. */
  lemma MoveOutput(price: int -> u128, ps: seq<Position>, since: seq<nat>, h: seq<Accrual>, entry: Accrual,
                   s: u128, next: u128, liquidity: u128, aToB: bool, out: nat)
    requires Dated(ps, since, h) && 0 < s && 0 < next && (if aToB then next <= s else s <= next)
    requires liquidity == Sum(ps, ActiveAt(entry.tick)) && entry.channel == InputChannel(aToB)
    requires AllUnbroken(price, OutputToken(aToB), ps, entry.tick, Coord(OutputToken(aToB), s),
                         Coord(OutputToken(aToB), next))
    requires Times(liquidity, Gain(OutputToken(aToB), Coord(OutputToken(aToB), s), Coord(OutputToken(aToB), next)))
        + Q * (out as real) <= 0.0
    ensures var token := OutputToken(aToB);
            && Dated(ps, since, h + [entry])
            && Claims(price, token, ps, since, h + [entry], Coord(token, next)) + Q * (out as real)
               <= Claims(price, token, ps, since, h, Coord(token, s))
  {
    var token := OutputToken(aToB);
    ClaimsIgnore(price, token, ps, since, h, Coord(token, s), entry);
    ClaimsMove(price, token, ps, since, h + [entry], entry.tick, Coord(token, s), Coord(token, next));
  }

  // ---------------------------------------------------------------- both sides, over the whole swap

  lemma StepCovered(e: SwapEnv, ps: seq<Position>, since: seq<nat>, st: SwapState, c: SwapStepComputation,
                    st': SwapState,
                    vaultIn: int, vaultOut: int, owedIn: int, owedOut: int)
    requires Account(e, ps, st, c, st')
    requires Covered(e, ps, since, st, vaultIn, vaultOut, owedIn, owedOut)
    ensures Covered(e, ps, since, st', vaultIn, vaultOut, owedIn, owedOut)
  {
    assert st'.steps == st.steps + [c];
    hide Account, ClaimsAt, CalculateProtocolFee;
    StepInput(e, ps, since, st, c, st');
    StepOutput(e, ps, since, st, c, st');
    TotalsAppend(st.steps, c, e.protocolFeeRate);
  }

  /** Solvency survives the whole loop: every rounding goes the pool's way. */
  lemma {:induction false} SwapLoopCovered(e: SwapEnv, ps: seq<Position>, since: seq<nat>, st: SwapState,
                                           vaultIn: int, vaultOut: int, owedIn: int, owedOut: int)
    requires Ready(e, st) && SwapLoop(e, st).Ok?
    requires Ranges(ps, e.tickSpacing) && LiquidityBooked(ps, st.ticks, st.tickIndex, st.liquidity)
    requires Covered(e, ps, since, st, vaultIn, vaultOut, owedIn, owedOut)
    ensures Covered(e, ps, since, SwapLoop(e, st).value, vaultIn, vaultOut, owedIn, owedOut)
    decreases Remaining(e, st)
  {
    if Running(e, st) {
      StepProgresses(e, st);
      StepBooked(e, ps, st);
      StepAccount(e, ps, st);
      StepCovered(e, ps, since, st, Open(e, st).c, SwapStep(e, st).value, vaultIn, vaultOut, owedIn, owedOut);
      SwapLoopCovered(e, ps, since, SwapStep(e, st).value, vaultIn, vaultOut, owedIn, owedOut);
    }
  }
}
