/**
 * sdk/src/router/quote-map.ts: quotes for every path and every part of a trade, filled in hop by hop, forwards from the
 * input amount or backwards from the output amount. The quoting of a single hop is a parameter.
 */
module QuoteMap {
  import opened Numbers
  import opened SplitAmounts
  import R = Router

  datatype Request = Request(whirlpool: string, tradeTokenMint: string, tokenAmount: nat, isInput: bool)

  /** What a pool answers: the amount and mint of the side that was not specified. */
  datatype Estimate = Estimate(amount: nat, mint: string) | NoEstimate(error: nat)

  datatype Hop =
    | Success(whirlpool: string, amountIn: nat, amountOut: nat, inputMint: string, outputMint: string)
    | Failure(error: nat)

  /** calculatedEdgeQuotes of one path: an entry for each hop, filled in or not. */
  type Row = seq<Option<Hop>>

  datatype Trade = Trade(tokenIn: string, tokenOut: string, amount: nat, isInput: bool)

  datatype QuoteRequest = QuoteRequest(splitPercent: nat, pathIndex: nat, edgeIndex: nat, quoteIndex: nat,
                                       request: Request)

  function Quoted(r: Request, e: Estimate): Hop {
    match e
    case NoEstimate(error) => Failure(error)
    case Estimate(amount, mint) =>
      if r.isInput then Success(r.whirlpool, r.tokenAmount, amount, r.tradeTokenMint, mint)
      else Success(r.whirlpool, amount, r.tokenAmount, mint, r.tradeTokenMint)
  }

  // ---------------------------------------------------------------- one path

  predicate Starts(path: seq<string>, hop: nat, isInput: bool) {
    hop < |path| && if isInput then hop == 0 else hop == |path| - 1
  }

  function Started(path: seq<string>, hop: nat, isInput: bool, row: Option<Row>): (r: Option<Row>)
    ensures (row.Some? ==> |row.value| == |path|) && r.Some? ==> |r.value| == |path|
  {
    if Starts(path, hop, isInput) then Some(seq(|path|, _ => None)) else row
  }

  /** The request for one hop: from the trade at the path's starting end, otherwise from the hop quoted before it. */
  function Wanted(t: Trade, path: seq<string>, amount: nat, hop: nat, row: Option<Row>): Option<Request> {
    if hop >= |path| then None
    else if Starts(path, hop, t.isInput) then
      Some(Request(path[hop], if t.isInput then t.tokenIn else t.tokenOut, amount, t.isInput))
    else
      var last: int := if t.isInput then hop - 1 else hop + 1;
      if row.None? || last >= |row.value| || row.value[last].None? then None
      else
        match row.value[last].value
        case Failure(_) => None
        case Success(_, amountIn, amountOut, inputMint, outputMint) =>
          Some(Request(path[hop], if t.isInput then outputMint else inputMint, if t.isInput then amountOut
                       else amountIn, t.isInput))
  }

  /** A path's row after one round of quoting. */
  function RowAfterHop(t: Trade, path: seq<string>, amount: nat, hop: nat, quoter: Request -> Estimate,
                       row: Option<Row>): (r: Option<Row>)
    requires row.Some? ==> |row.value| == |path|
    ensures r.Some? ==> |r.value| == |path|
  {
    var started := Started(path, hop, t.isInput, row);
    match Wanted(t, path, amount, hop, started)
    case None => started
    case Some(request) =>
      if started.None? then None else Some(started.value[hop := Some(Quoted(request, quoter(request)))])
  }

  /** The hop that round n visits, counting from the trade's specified end over the longest path. */
  function HopOfRound(isInput: bool, n: nat, rounds: nat): nat
    requires n < rounds
  {
    if isInput then n else rounds - 1 - n
  }

  /** A path's row after the first n of all rounds. */
  function RowAfter(t: Trade, path: seq<string>, amount: nat, rounds: nat, quoter: Request -> Estimate,
                    n: nat): (r: Option<Row>)
    requires n <= rounds
    ensures r.Some? ==> |r.value| == |path|
  {
    if n == 0 then None
    else RowAfterHop(t, path, amount, HopOfRound(t.isInput, n - 1, rounds), quoter,
                     RowAfter(t, path, amount, rounds, quoter, n - 1))
  }

  // ---------------------------------------------------------------- chaining

  /** The k-th hop to be quoted on a path of the given length. */
  function Nth(isInput: bool, length: nat, k: nat): nat
    requires k < length
  {
    if isInput then k else length - 1 - k
  }

  /** What the k-th hop to be quoted was asked for, which the (k-1)-th answered. */
  predicate Asked(t: Trade, row: Row, amount: nat, k: nat)
    requires k < |row| && row[Nth(t.isInput, |row|, k)].Some? && row[Nth(t.isInput, |row|, k)].value.Success?
    requires k > 0 ==> row[Nth(t.isInput, |row|, k - 1)].Some? && row[Nth(t.isInput, |row|, k - 1)].value.Success?
  {
    var hop := row[Nth(t.isInput, |row|, k)].value;
    var asked := if t.isInput then (hop.amountIn, hop.inputMint) else (hop.amountOut, hop.outputMint);
    if k == 0 then asked == (amount, if t.isInput then t.tokenIn else t.tokenOut)
    else
      var last := row[Nth(t.isInput, |row|, k - 1)].value;
      asked == if t.isInput then (last.amountOut, last.outputMint) else (last.amountIn, last.inputMint)
  }

  /** The first `good` hops in order of quoting succeeded, each asked for what the one before it answered. */
  ghost predicate Chained(t: Trade, row: Row, amount: nat, good: nat) {
    good <= |row|
    && (forall k :: 0 <= k < good ==>
          row[Nth(t.isInput, |row|, k)].Some? && row[Nth(t.isInput, |row|, k)].value.Success?)
    && (forall k :: 0 <= k < good ==> Asked(t, row, amount, k))
  }

  /** After `done` hops: a chain of successes, then at most one failure, then nothing. */
  ghost predicate Progress(t: Trade, row: Row, amount: nat, done: nat, good: nat) {
    && good <= done <= |row|
    && Chained(t, row, amount, good)
    && (good < done ==> row[Nth(t.isInput, |row|, good)].Some? && row[Nth(t.isInput, |row|, good)].value.Failure?)
    && (forall k :: good < k < |row| || k == good == done < |row| ==> row[Nth(t.isInput, |row|, k)].None?)
  }

  /** How many hops of a path the first n rounds have visited: backwards, short paths start late. */
  function Visited(isInput: bool, length: nat, rounds: nat, n: nat): nat
    requires length <= rounds && n <= rounds
  {
    if isInput then (if n <= length then n else length)
    else (if n <= rounds - length then 0 else n - (rounds - length))
  }

  lemma VisitedStep(isInput: bool, length: nat, rounds: nat, n: nat)
    requires 0 < length <= rounds && n < rounds
    ensures var hop, done := HopOfRound(isInput, n, rounds), Visited(isInput, length, rounds, n);
            && done <= length
            && Visited(isInput, length, rounds, n + 1) == (if hop < length then done + 1 else done)
            && (hop < length <==> done < length && if isInput then n == done else n >= rounds - length)
            && (hop < length ==> hop == Nth(isInput, length, done))
  {
  }

  /** A chain of successes extended by the answer to the request that its last hop gives rise to. */
  lemma ExtendsChain(t: Trade, row: Row, amount: nat, done: nat, request: Request, e: Estimate)
    requires done < |row| && Progress(t, row, amount, done, done)
    requires request.isInput == t.isInput
    requires if done == 0 then (request.tokenAmount, request.tradeTokenMint)
        == (amount, if t.isInput then t.tokenIn else t.tokenOut)
             else var last := row[Nth(t.isInput, |row|, done - 1)].value;
                  (request.tokenAmount, request.tradeTokenMint)
                  == if t.isInput then (last.amountOut, last.outputMint) else (last.amountIn, last.inputMint)
    ensures Progress(t, row[Nth(t.isInput, |row|, done) := Some(Quoted(request, e))], amount, done + 1, if e.Estimate?
                     then done + 1 else done)
  {
    var row', good := row[Nth(t.isInput, |row|, done) := Some(Quoted(request, e))], if e.Estimate? then done + 1
        else done;
    assert forall k :: 0 <= k < |row| && k != done ==> row'[Nth(t.isInput, |row|, k)] == row[Nth(t.isInput, |row|, k)];
    forall k | 0 <= k < good
      ensures row'[Nth(t.isInput, |row|, k)].Some? && row'[Nth(t.isInput, |row|, k)].value.Success?
    {
    }
    forall k | 0 <= k < good
      ensures Asked(t, row', amount, k)
    {
      if k < done { assert Asked(t, row, amount, k); }
    }
  }

  lemma FirstHop(t: Trade, path: seq<string>, amount: nat, hop: nat, quoter: Request -> Estimate, row: Option<Row>)
    returns (good: nat)
    requires row.None? && 0 < |path| && hop == Nth(t.isInput, |path|, 0)
    ensures var r := RowAfterHop(t, path, amount, hop, quoter, row);
            r.Some? && Progress(t, r.value, amount, 1, good)
  {
    var started := Started(path, hop, t.isInput, row);
    var request := Wanted(t, path, amount, hop, started).value;
    ExtendsChain(t, started.value, amount, 0, request, quoter(request));
    good := if quoter(request).Estimate? then 1 else 0;
  }

  lemma NextHop(t: Trade, path: seq<string>, amount: nat, hop: nat, quoter: Request -> Estimate, row: Row, done: nat,
                good: nat)
    returns (next: nat)
    requires |row| == |path| && 0 < done < |path| && hop == Nth(t.isInput, |path|, done)
        && Progress(t, row, amount, done, good)
    ensures var r := RowAfterHop(t, path, amount, hop, quoter, Some(row));
            r.Some? && Progress(t, r.value, amount, done + 1, next)
  {
    hide Chained, Asked;
    next := good;
    if good == done {
      LastSucceeded(t, row, amount, done);
      var request := Wanted(t, path, amount, hop, Some(row)).value;
      ExtendsChain(t, row, amount, done, request, quoter(request));
      next := if quoter(request).Estimate? then done + 1 else done;
    }
  }

  lemma LastSucceeded(t: Trade, row: Row, amount: nat, good: nat)
    requires 0 < good && Chained(t, row, amount, good)
    ensures row[Nth(t.isInput, |row|, good - 1)].Some? && row[Nth(t.isInput, |row|, good - 1)].value.Success?
  {
  }

  lemma {:induction false} RoundsProgress(t: Trade, path: seq<string>, amount: nat, rounds: nat,
                                          quoter: Request -> Estimate, n: nat)
    returns (good: nat)
    requires 0 < |path| <= rounds && n <= rounds
    ensures var done := Visited(t.isInput, |path|, rounds, n);
            var r := RowAfter(t, path, amount, rounds, quoter, n);
            && (r.Some? <==> done > 0)
            && (r.Some? ==> Progress(t, r.value, amount, done, good))
  {
    hide Progress;
    good := 0;
    if n > 0 {
      good := RoundsProgress(t, path, amount, rounds, quoter, n - 1);
      var before := RowAfter(t, path, amount, rounds, quoter, n - 1);
      var hop, done := HopOfRound(t.isInput, n - 1, rounds), Visited(t.isInput, |path|, rounds, n - 1);
      VisitedStep(t.isInput, |path|, rounds, n - 1);
      if hop < |path| && done == 0 {
        good := FirstHop(t, path, amount, hop, quoter, before);
      } else if hop < |path| {
        good := NextHop(t, path, amount, hop, quoter, before.value, done, good);
      }
    }
  }

  predicate Complete(row: Row) {
    forall i :: 0 <= i < |row| ==> row[i].Some? && row[i].value.Success?
  }

  predicate Failed(row: Row, i: nat) {
    i < |row| && row[i].Some? && row[i].value.Failure?
  }

  /** Every hop of a complete row passes on exactly what the next one takes, in amount and in token. */
  ghost predicate PassesOn(row: Row)
    requires Complete(row)
  {
    forall i :: 0 <= i < |row| - 1 ==>
      row[i].value.amountOut == row[i + 1].value.amountIn && row[i].value.outputMint == row[i + 1].value.inputMint
  }

  /**
   * After all rounds, in either direction: a complete row is a chain from the trade's specified amount, and a row that
   * is not complete holds exactly one failed hop.
   */
  lemma RowsAreChains(t: Trade, path: seq<string>, amount: nat, rounds: nat, quoter: Request -> Estimate)
    requires 0 < |path| <= rounds
    ensures var r := RowAfter(t, path, amount, rounds, quoter, rounds);
            && r.Some? && |r.value| == |path|
            && (Complete(r.value) ==>
                  && PassesOn(r.value)
                  && (if t.isInput then r.value[0].value.amountIn == amount && r.value[0].value.inputMint == t.tokenIn
                      else
                        var last := r.value[|path| - 1].value;
                        last.amountOut == amount && last.outputMint == t.tokenOut))
            && (!Complete(r.value) <==> exists i: nat :: Failed(r.value, i))
            && (forall i: nat, j: nat :: Failed(r.value, i) && Failed(r.value, j) ==> i == j)
  {
    var good := RoundsProgress(t, path, amount, rounds, quoter, rounds);
    var row := RowAfter(t, path, amount, rounds, quoter, rounds).value;
    forall i | 0 <= i < |row|
      ensures i == Nth(t.isInput, |row|, Nth(t.isInput, |row|, i))
    {
    }
    if good < |row| {
      assert Failed(row, Nth(t.isInput, |row|, good));
    } else {
      ChainPassesOn(t, row, amount);
    }
    forall i: nat | Failed(row, i)
      ensures good < |row| && i == Nth(t.isInput, |row|, good)
    {
      var k := Nth(t.isInput, |row|, i);
      assert row[Nth(t.isInput, |row|, k)].value.Failure?;
    }
  }

  lemma ChainPassesOn(t: Trade, row: Row, amount: nat)
    requires 0 < |row| && Chained(t, row, amount, |row|)
    ensures Complete(row) && PassesOn(row)
    ensures if t.isInput then row[0].value.amountIn == amount && row[0].value.inputMint == t.tokenIn
            else row[|row| - 1].value.amountOut == amount && row[|row| - 1].value.outputMint == t.tokenOut
  {
    forall i | 0 <= i < |row|
      ensures row[i].Some? && row[i].value.Success?
    {
      assert i == Nth(t.isInput, |row|, Nth(t.isInput, |row|, i));
    }
    forall i | 0 <= i < |row| - 1
      ensures row[i].value.amountOut == row[i + 1].value.amountIn
          && row[i].value.outputMint == row[i + 1].value.inputMint
    {
      assert Asked(t, row, amount, if t.isInput then i + 1 else |row| - 1 - i);
    }
    assert Asked(t, row, amount, 0);
  }

  // ---------------------------------------------------------------- quoting a path on its own

  /** Where quoting a path hop by hop gets: to an amount and a token, or to the first error. */
  datatype Walked = Offered(amount: nat, mint: string) | Refused(error: nat)

  /** What is given to the k-th hop to be quoted, or left after all of them: no map, no rounds, one path. */
  function Walk(t: Trade, path: seq<string>, amount: nat, quoter: Request -> Estimate, k: nat): Walked
    requires k <= |path|
  {
    if k == 0 then Offered(amount, if t.isInput then t.tokenIn else t.tokenOut)
    else
      match Walk(t, path, amount, quoter, k - 1)
      case Refused(error) => Refused(error)
      case Offered(given, mint) =>
        match quoter(Request(path[Nth(t.isInput, |path|, k - 1)], mint, given, t.isInput))
        case NoEstimate(error) => Refused(error)
        case Estimate(answer, other) => Offered(answer, other)
  }

  /** The entry of the k-th hop to be quoted says what it was given and what its pool answered. */
  predicate Reports(t: Trade, path: seq<string>, amount: nat, quoter: Request -> Estimate, k: nat, entry: Option<Hop>)
    requires k < |path|
  {
    match Walk(t, path, amount, quoter, k)
    case Refused(_) => entry.None?
    case Offered(given, mint) =>
      var pool := path[Nth(t.isInput, |path|, k)];
      match quoter(Request(pool, mint, given, t.isInput))
      case NoEstimate(error) => entry == Some(Failure(error))
      case Estimate(answer, other) =>
        entry == Some(if t.isInput then Success(pool, given, answer, mint, other)
                      else Success(pool, answer, given, other, mint))
  }

  /** The first `done` hops in order of quoting report, and nothing is known of the others. */
  ghost predicate Reported(t: Trade, path: seq<string>, amount: nat, quoter: Request -> Estimate, row: Row, done: nat) {
    && |row| == |path| && done <= |path|
    && (forall k :: 0 <= k < done ==> Reports(t, path, amount, quoter, k, row[Nth(t.isInput, |path|, k)]))
    && (forall k :: done <= k < |path| ==> row[Nth(t.isInput, |path|, k)].None?)
  }

  /** The request for the hop that is due is what the walk is given there, if it gets there. */
  lemma WantedIsWalked(t: Trade, path: seq<string>, amount: nat, hop: nat, quoter: Request -> Estimate, row: Row,
                       done: nat)
    requires done < |path| && hop == Nth(t.isInput, |path|, done)
    requires Reported(t, path, amount, quoter, row, done)
    ensures Wanted(t, path, amount, hop, Some(row))
            == match Walk(t, path, amount, quoter, done)
               case Refused(_) => None
               case Offered(given, mint) => Some(Request(path[hop], mint, given, t.isInput))
  {
    if done > 0 {
      assert Reports(t, path, amount, quoter, done - 1, row[Nth(t.isInput, |path|, done - 1)]);
    }
    hide Reported;
  }

  lemma ReportsOneMore(t: Trade, path: seq<string>, amount: nat, quoter: Request -> Estimate, row: Row, row': Row,
                       done: nat)
    requires done < |path| && Reported(t, path, amount, quoter, row, done)
    requires var hop := Nth(t.isInput, |path|, done);
             |row'| == |path| && row' == row[hop := row'[hop]] && Reports(t, path, amount, quoter, done, row'[hop])
    ensures Reported(t, path, amount, quoter, row', done + 1)
  {
    hide Reports;
    forall k | 0 <= k < |path| && k != done
      ensures row'[Nth(t.isInput, |path|, k)] == row[Nth(t.isInput, |path|, k)]
    {
    }
  }

  /** One more round at a hop that is due. */
  lemma ReportsNext(t: Trade, path: seq<string>, amount: nat, hop: nat, quoter: Request -> Estimate, row: Option<Row>,
                    done: nat)
    requires done < |path| && hop == Nth(t.isInput, |path|, done)
    requires if row.Some? then 0 < done && Reported(t, path, amount, quoter, row.value, done) else done == 0
    ensures var r := RowAfterHop(t, path, amount, hop, quoter, row);
            r.Some? && Reported(t, path, amount, quoter, r.value, done + 1)
  {
    var started := Started(path, hop, t.isInput, row);
    StartsBlank(t, path, amount, hop, quoter, row, done);
    hide Reported, Walk, Wanted;
    WantedIsWalked(t, path, amount, hop, quoter, started.value, done);
    var r := RowAfterHop(t, path, amount, hop, quoter, row).value;
    ReportedLength(t, path, amount, quoter, started.value, done);
    ReportsOneMore(t, path, amount, quoter, started.value, r, done);
  }

  /** What the hop that is due finds: nothing of it yet, and a fresh row if it is the first. */
  lemma StartsBlank(t: Trade, path: seq<string>, amount: nat, hop: nat, quoter: Request -> Estimate, row: Option<Row>,
                    done: nat)
    requires done < |path| && hop == Nth(t.isInput, |path|, done)
    requires if row.Some? then 0 < done && Reported(t, path, amount, quoter, row.value, done) else done == 0
    ensures var started := Started(path, hop, t.isInput, row);
            started.Some? && Reported(t, path, amount, quoter, started.value, done)
  {
  }

  lemma ReportedLength(t: Trade, path: seq<string>, amount: nat, quoter: Request -> Estimate, row: Row, done: nat)
    requires Reported(t, path, amount, quoter, row, done)
    ensures |row| == |path| && (done < |path| ==> row[Nth(t.isInput, |path|, done)].None?)
  {
  }

  lemma {:induction false} RoundsReport(t: Trade, path: seq<string>, amount: nat, rounds: nat,
                                        quoter: Request -> Estimate, n: nat)
    requires 0 < |path| <= rounds && n <= rounds
    ensures var done := Visited(t.isInput, |path|, rounds, n);
            var r := RowAfter(t, path, amount, rounds, quoter, n);
            && (r.Some? <==> done > 0)
            && (r.Some? ==> Reported(t, path, amount, quoter, r.value, done))
  {
    hide Reported, Walk;
    if n > 0 {
      RoundsReport(t, path, amount, rounds, quoter, n - 1);
      VisitedStep(t.isInput, |path|, rounds, n - 1);
      var hop := HopOfRound(t.isInput, n - 1, rounds);
      if hop < |path| {
        ReportsNext(t, path, amount, hop, quoter, RowAfter(t, path, amount, rounds, quoter, n - 1),
                    Visited(t.isInput, |path|, rounds, n - 1));
      }
    }
  }

  /**
   * After all rounds a path's row is exactly what quoting the path alone reports, hop by hop: it is complete if and
   * only if that gets to the end, and otherwise the error of its failed hop is the one that stopped it.
   */
  lemma RowsAreQuotes(t: Trade, path: seq<string>, amount: nat, rounds: nat, quoter: Request -> Estimate)
    requires 0 < |path| <= rounds
    ensures var r := RowAfter(t, path, amount, rounds, quoter, rounds);
            && r.Some? && |r.value| == |path|
            && (forall k :: 0 <= k < |path| ==>
                  Reports(t, path, amount, quoter, k, r.value[Nth(t.isInput, |path|, k)]))
            && (Complete(r.value) <==> Walk(t, path, amount, quoter, |path|).Offered?)
            && (forall i: nat :: Failed(r.value, i) ==>
                  Walk(t, path, amount, quoter, |path|) == Refused(r.value[i].value.error))
  {
    hide RowAfter, Walk, Reports;
    RoundsReport(t, path, amount, rounds, quoter, rounds);
    ReportedRow(t, path, amount, quoter, RowAfter(t, path, amount, rounds, quoter, rounds).value);
  }

  /** What an entry says of the walk one hop on. */
  lemma EntryDecides(t: Trade, path: seq<string>, amount: nat, quoter: Request -> Estimate, k: nat, entry: Option<Hop>)
    requires k < |path| && Reports(t, path, amount, quoter, k, entry)
    ensures entry.Some? && entry.value.Success? <==> Walk(t, path, amount, quoter, k + 1).Offered?
    ensures entry.Some? && entry.value.Failure? ==>
              Walk(t, path, amount, quoter, k + 1) == Refused(entry.value.error)
  {
  }

  lemma ReportedRow(t: Trade, path: seq<string>, amount: nat, quoter: Request -> Estimate, row: Row)
    requires 0 < |path| && Reported(t, path, amount, quoter, row, |path|)
    ensures Complete(row) <==> Walk(t, path, amount, quoter, |path|).Offered?
    ensures forall i: nat :: Failed(row, i) ==> Walk(t, path, amount, quoter, |path|) == Refused(row[i].value.error)
  {
    hide Walk, Reports;
    forall i | 0 <= i < |row|
      ensures Reports(t, path, amount, quoter, Nth(t.isInput, |path|, i), row[i])
    {
      assert i == Nth(t.isInput, |path|, Nth(t.isInput, |path|, i));
    }
    if Walk(t, path, amount, quoter, |path|).Offered? {
      forall i | 0 <= i < |row|
        ensures row[i].Some? && row[i].value.Success?
      {
        var k := Nth(t.isInput, |path|, i);
        OfferedBefore(t, path, amount, quoter, k + 1, |path|);
        EntryDecides(t, path, amount, quoter, k, row[i]);
      }
    } else {
      var last := Nth(t.isInput, |path|, |path| - 1);
      EntryDecides(t, path, amount, quoter, |path| - 1, row[last]);
    }
    forall i: nat | Failed(row, i)
      ensures Walk(t, path, amount, quoter, |path|) == Refused(row[i].value.error)
    {
      var k := Nth(t.isInput, |path|, i);
      EntryDecides(t, path, amount, quoter, k, row[i]);
      RefusedAfter(t, path, amount, quoter, k + 1, |path|);
    }
  }

  lemma {:induction false} OfferedBefore(t: Trade, path: seq<string>, amount: nat, quoter: Request -> Estimate, k: nat,
                                         n: nat)
    requires k <= n <= |path| && Walk(t, path, amount, quoter, n).Offered?
    ensures Walk(t, path, amount, quoter, k).Offered?
  {
    if k < n {
      OfferedBefore(t, path, amount, quoter, k, n - 1);
    }
  }

  lemma {:induction false} RefusedAfter(t: Trade, path: seq<string>, amount: nat, quoter: Request -> Estimate, k: nat,
                                        n: nat)
    requires k <= n <= |path| && Walk(t, path, amount, quoter, k).Refused?
    ensures Walk(t, path, amount, quoter, n) == Walk(t, path, amount, quoter, k)
  {
    if k < n {
      RefusedAfter(t, path, amount, quoter, k, n - 1);
    }
  }

  /** A path without hops never gets a row: there is no failed hop to report, and reading its row fails. */
  lemma {:induction false} EmptyPathHasNoRow(t: Trade, amount: nat, rounds: nat, quoter: Request -> Estimate, n: nat)
    requires n <= rounds
    ensures RowAfter(t, [], amount, rounds, quoter, n) == None
  {
    if n > 0 {
      EmptyPathHasNoRow(t, amount, rounds, quoter, n - 1);
    }
  }
}
