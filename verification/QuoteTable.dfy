/** The quote map of sdk/src/router/quote-map.ts as it is filled in place, round by round, and then sanitised. */
module QuoteTable {
  import opened Numbers
  import opened SplitAmounts
  import opened QuoteMap
  import R = Router

  type Cells = seq<Option<Row>>
  type Rows = map<nat, Cells>

  /** The entries of one percentage, all holes if it is new. */
  function CellsOf(rows: Rows, percent: nat, n: nat): Cells {
    if percent in rows then rows[percent] else seq(n, _ => None)
  }

  predicate CellsFit(paths: seq<seq<string>>, cells: Cells) {
    |cells| == |paths| && forall p :: 0 <= p < |paths| && cells[p].Some? ==> |cells[p].value| == |paths[p]|
  }

  predicate Fits(paths: seq<seq<string>>, rows: Rows) {
    forall percent :: percent in rows ==> CellsFit(paths, rows[percent])
  }

  // ---------------------------------------------------------------- one round, specified

  /**
   * The entries of one percentage once the first n paths have had their answers and the others their rows initialised.
   */
  function DoneCells(t: Trade, paths: seq<seq<string>>, percent: nat, hop: nat, quoter: Request -> Estimate,
                     cells: Cells, n: nat): (r: Cells)
    requires CellsFit(paths, cells)
    ensures CellsFit(paths, r)
  {
    seq(|paths|, p requires 0 <= p < |paths| =>
      if p < n then RowAfterHop(t, paths[p], SplitAmount(t.amount, percent), hop, quoter, cells[p])
      else Started(paths[p], hop, t.isInput, cells[p]))
  }

  function StartedCells(t: Trade, paths: seq<seq<string>>, hop: nat, cells: Cells, n: nat): (r: Cells)
    requires CellsFit(paths, cells)
    ensures CellsFit(paths, r)
  {
    seq(|paths|, p requires 0 <= p < |paths| => if p < n then Started(paths[p], hop, t.isInput, cells[p]) else cells[p])
  }

  function WantedOf(t: Trade, path: seq<string>, percent: nat, hop: nat, cell: Option<Row>): Option<Request>
    requires cell.Some? ==> |cell.value| == |path|
  {
    Wanted(t, path, SplitAmount(t.amount, percent), hop, Started(path, hop, t.isInput, cell))
  }

  /** The requests of one percentage for its first n paths, numbered from `base`. */
  function PathRequests(t: Trade, paths: seq<seq<string>>, percent: nat, hop: nat, cells: Cells, base: nat,
                        n: nat): seq<QuoteRequest>
    requires CellsFit(paths, cells) && n <= |paths|
  {
    if n == 0 then []
    else
      var rest := PathRequests(t, paths, percent, hop, cells, base, n - 1);
      match WantedOf(t, paths[n - 1], percent, hop, cells[n - 1])
      case None => rest
      case Some(request) => rest + [QuoteRequest(percent, n - 1, hop, base + |rest|, request)]
  }

  function AllRequests(t: Trade, paths: seq<seq<string>>, percents: seq<nat>, hop: nat, rows: Rows,
                       k: nat): seq<QuoteRequest>
    requires Fits(paths, rows) && k <= |percents|
  {
    if k == 0 then []
    else
      var rest := AllRequests(t, paths, percents, hop, rows, k - 1);
      rest + PathRequests(t, paths, percents[k - 1], hop, CellsOf(rows, percents[k - 1], |paths|), |rest|, |paths|)
  }

  function StartedRows(t: Trade, paths: seq<seq<string>>, percents: seq<nat>, hop: nat, rows: Rows, k: nat): (r: Rows)
    requires Fits(paths, rows) && k <= |percents|
    ensures Fits(paths, r)
  {
    if k == 0 then rows
    else StartedRows(t, paths, percents, hop, rows, k - 1)
           [percents[k - 1] := StartedCells(t, paths, hop, CellsOf(rows, percents[k - 1], |paths|), |paths|)]
  }

  /** The map after a whole round. */
  function RoundRows(t: Trade, paths: seq<seq<string>>, percents: seq<nat>, hop: nat, quoter: Request -> Estimate,
                     rows: Rows, k: nat): (r: Rows)
    requires Fits(paths, rows) && k <= |percents|
    ensures Fits(paths, r)
  {
    if k == 0 then rows
    else RoundRows(t, paths, percents, hop, quoter, rows, k - 1)
           [percents[k - 1] := DoneCells(t, paths, percents[k - 1], hop, quoter,
                                         CellsOf(rows, percents[k - 1], |paths|), |paths|)]
  }

  /** The map holds the row that a request's answer is for. */
  predicate Answerable(rows: Rows, u: QuoteRequest) {
    && u.splitPercent in rows && u.pathIndex < |rows[u.splitPercent]| && rows[u.splitPercent][u.pathIndex].Some?
    && u.edgeIndex < |rows[u.splitPercent][u.pathIndex].value|
  }

  /** One answer written into the map. */
  function Answered(rows: Rows, u: QuoteRequest, e: Estimate): Rows {
    if !Answerable(rows, u) then rows
    else
      var cells := rows[u.splitPercent];
      rows[u.splitPercent := cells[u.pathIndex :=
          Some(cells[u.pathIndex].value[u.edgeIndex := Some(Quoted(u.request, e))])]]
  }

  function Populated(rows: Rows, updates: seq<QuoteRequest>, quoter: Request -> Estimate): Rows {
    if |updates| == 0 then rows
    else
      var last := updates[|updates| - 1];
      Answered(Populated(rows, updates[..|updates| - 1], quoter), last, quoter(last.request))
  }

  // ---------------------------------------------------------------- requesting and populating make a round

  lemma {:induction false} PopulatedConcat(rows: Rows, a: seq<QuoteRequest>, b: seq<QuoteRequest>,
                                           quoter: Request -> Estimate)
    ensures Populated(rows, a + b, quoter) == Populated(Populated(rows, a, quoter), b, quoter)
  {
    if |b| == 0 {
      assert a + b == a;
    } else {
      assert (a + b)[..|a + b| - 1] == a + b[..|b| - 1];
      PopulatedConcat(rows, a, b[..|b| - 1], quoter);
    }
  }

  /** Answering one more path's request turns its initialised row into its row after the round. */
  lemma DoneStep(t: Trade, paths: seq<seq<string>>, percent: nat, hop: nat, quoter: Request -> Estimate, cells: Cells,
                 n: nat, rows: Rows, base: nat)
    requires CellsFit(paths, cells) && n < |paths| && percent in rows
    requires rows[percent] == DoneCells(t, paths, percent, hop, quoter, cells, n)
    ensures var wanted := WantedOf(t, paths[n], percent, hop, cells[n]);
            var next := rows[percent := DoneCells(t, paths, percent, hop, quoter, cells, n + 1)];
            if wanted.None? then next == rows
            else Answered(rows, QuoteRequest(percent, n, hop, base, wanted.value), quoter(wanted.value)) == next
  {
    hide Quoted, SplitAmount;
    var before, after := DoneCells(t, paths, percent, hop, quoter, cells, n),
        DoneCells(t, paths, percent, hop, quoter, cells, n + 1);
    assert after == before[n := after[n]];
    var started := Started(paths[n], hop, t.isInput, cells[n]);
    assert before[n] == started;
    WantedHasRow(t, paths[n], SplitAmount(t.amount, percent), hop, started);
    if WantedOf(t, paths[n], percent, hop, cells[n]).None? {
      assert after[n] == RowAfterHop(t, paths[n], SplitAmount(t.amount, percent), hop, quoter, cells[n]);
      assert after == before;
      assert rows[percent := after] == rows;
    }
  }

  lemma WantedHasRow(t: Trade, path: seq<string>, amount: nat, hop: nat, cell: Option<Row>)
    requires Starts(path, hop, t.isInput) ==> cell.Some?
    ensures Wanted(t, path, amount, hop, cell).Some? ==> cell.Some? && hop < |path|
  {
  }

  lemma {:induction false} PathsPopulated(t: Trade, paths: seq<seq<string>>, percent: nat, hop: nat,
                                          quoter: Request -> Estimate, cells: Cells,
                                          n: nat, rows: Rows, base: nat)
    requires CellsFit(paths, cells) && n <= |paths| && percent in rows
        && rows[percent] == StartedCells(t, paths, hop, cells, |paths|)
    ensures Populated(rows, PathRequests(t, paths, percent, hop, cells, base, n), quoter)
            == rows[percent := DoneCells(t, paths, percent, hop, quoter, cells, n)]
  {
    hide Answered, WantedOf;
    if n == 0 {
      assert DoneCells(t, paths, percent, hop, quoter, cells, 0) == rows[percent];
    } else {
      PathsPopulated(t, paths, percent, hop, quoter, cells, n - 1, rows, base);
      var rest := PathRequests(t, paths, percent, hop, cells, base, n - 1);
      var mid := rows[percent := DoneCells(t, paths, percent, hop, quoter, cells, n - 1)];
      DoneStep(t, paths, percent, hop, quoter, cells, n - 1, mid, base + |rest|);
      var all := PathRequests(t, paths, percent, hop, cells, base, n);
      if all != rest { assert all[..|all| - 1] == rest; }
    }
  }

  /** Requests for other percentages leave this one's entries alone. */
  lemma {:induction false} PopulatedFrame(rows: Rows, updates: seq<QuoteRequest>, quoter: Request -> Estimate,
                                          percent: nat, cells: Cells)
    requires forall u :: u in updates ==> u.splitPercent != percent
    ensures Populated(rows[percent := cells], updates, quoter) == Populated(rows, updates, quoter)[percent := cells]
  {
    if |updates| > 0 {
      var rest, u := updates[..|updates| - 1], updates[|updates| - 1];
      assert forall v :: v in rest ==> v in updates;
      PopulatedFrame(rows, rest, quoter, percent, cells);
      var before := Populated(rows, rest, quoter);
      assert u in updates;
      assert Answered(before[percent := cells], u, quoter(u.request))
          == Answered(before, u, quoter(u.request))[percent := cells];
    }
  }

  /** A request of this round for one of the first n paths. */
  ghost predicate IsRequest(t: Trade, paths: seq<seq<string>>, percent: nat, hop: nat, cells: Cells, n: nat,
                            u: QuoteRequest)
    requires CellsFit(paths, cells) && n <= |paths|
  {
    && u.splitPercent == percent && u.pathIndex < n && u.edgeIndex == hop < |paths[u.pathIndex]|
    && Started(paths[u.pathIndex], hop, t.isInput, cells[u.pathIndex]).Some?
  }

  ghost predicate AreRequests(t: Trade, paths: seq<seq<string>>, percent: nat, hop: nat, cells: Cells, base: nat,
                              n: nat, r: seq<QuoteRequest>)
    requires CellsFit(paths, cells) && n <= |paths|
  {
    forall i :: 0 <= i < |r| ==> r[i].quoteIndex == base + i && IsRequest(t, paths, percent, hop, cells, n, r[i])
  }

  lemma {:induction false} PathRequestsAre(t: Trade, paths: seq<seq<string>>, percent: nat, hop: nat, cells: Cells,
                                           base: nat, n: nat)
    requires CellsFit(paths, cells) && n <= |paths|
    ensures AreRequests(t, paths, percent, hop, cells, base, n, PathRequests(t, paths, percent, hop, cells, base, n))
  {
    if n > 0 {
      PathRequestsAre(t, paths, percent, hop, cells, base, n - 1);
      RequestStep(t, paths, percent, hop, cells, base, n - 1);
      WantedHasRow(t, paths[n - 1], SplitAmount(t.amount, percent), hop,
                   Started(paths[n - 1], hop, t.isInput, cells[n - 1]));
      var rest, r := PathRequests(t, paths, percent, hop, cells, base, n - 1),
          PathRequests(t, paths, percent, hop, cells, base, n);
      forall i | 0 <= i < |r|
        ensures r[i].quoteIndex == base + i && IsRequest(t, paths, percent, hop, cells, n, r[i])
      {
        if i < |rest| { assert r[i] == rest[i] && IsRequest(t, paths, percent, hop, cells, n - 1, rest[i]); }
      }
    }
  }

  ghost predicate Differ(percents: seq<nat>) {
    forall i, j :: 0 <= i < j < |percents| ==> percents[i] != percents[j]
  }

  /** A request is for one of the first k percentages. */
  predicate ForOneOf(percents: seq<nat>, k: nat, u: QuoteRequest)
    requires k <= |percents|
  {
    exists i :: 0 <= i < k && percents[i] == u.splitPercent
  }

  ghost predicate Numbered(r: seq<QuoteRequest>, percents: seq<nat>, k: nat)
    requires k <= |percents|
  {
    forall i :: 0 <= i < |r| ==> r[i].quoteIndex == i && ForOneOf(percents, k, r[i])
  }

  /** Requests are for the percentages seen so far and are numbered by their position. */
  lemma {:induction false} AllRequestsAre(t: Trade, paths: seq<seq<string>>, percents: seq<nat>, hop: nat, rows: Rows,
                                          k: nat)
    requires Fits(paths, rows) && k <= |percents|
    ensures Numbered(AllRequests(t, paths, percents, hop, rows, k), percents, k)
  {
    if k > 0 {
      var cells := CellsOf(rows, percents[k - 1], |paths|);
      var rest := AllRequests(t, paths, percents, hop, rows, k - 1);
      AllRequestsAre(t, paths, percents, hop, rows, k - 1);
      FreshCellsFit(paths, rows, percents[k - 1]);
      PathRequestsAre(t, paths, percents[k - 1], hop, cells, |rest|, |paths|);
      var more := PathRequests(t, paths, percents[k - 1], hop, cells, |rest|, |paths|);
      NumberedConcat(rest, more, percents, k);
    }
  }

  lemma NumberedConcat(rest: seq<QuoteRequest>, more: seq<QuoteRequest>, percents: seq<nat>, k: nat)
    requires 0 < k <= |percents| && Numbered(rest, percents, k - 1)
    requires forall i :: 0 <= i < |more| ==> more[i].quoteIndex == |rest| + i && more[i].splitPercent == percents[k - 1]
    ensures Numbered(rest + more, percents, k)
  {
    var r := rest + more;
    forall i | 0 <= i < |r|
      ensures r[i].quoteIndex == i && ForOneOf(percents, k, r[i])
    {
      if i < |rest| {
        assert ForOneOf(percents, k - 1, rest[i]);
      } else {
        assert percents[k - 1] == more[i - |rest|].splitPercent;
      }
    }
  }

  /** One more percentage: its requests come after, and apart from, all the others. */
  lemma PercentageMakesRound(t: Trade, paths: seq<seq<string>>, percent: nat, hop: nat, quoter: Request -> Estimate,
                             cells: Cells,
                             before: Rows, rest: seq<QuoteRequest>)
    requires CellsFit(paths, cells) && forall u :: u in rest ==> u.splitPercent != percent
    ensures Populated(before[percent := StartedCells(t, paths, hop, cells, |paths|)],
                      rest + PathRequests(t, paths, percent, hop, cells, |rest|, |paths|), quoter)
            == Populated(before, rest, quoter)[percent := DoneCells(t, paths, percent, hop, quoter, cells, |paths|)]
  {
    hide PathRequests, StartedCells, DoneCells, Populated, CellsFit;
    var begun, requests := StartedCells(t, paths, hop, cells, |paths|),
        PathRequests(t, paths, percent, hop, cells, |rest|, |paths|);
    PopulatedConcat(before[percent := begun], rest, requests, quoter);
    PopulatedFrame(before, rest, quoter, percent, begun);
    var answered: Rows := Populated(before, rest, quoter);
    var mid: Rows := answered[percent := begun];
    PathsPopulated(t, paths, percent, hop, quoter, cells, |paths|, mid, |rest|);
    var done := DoneCells(t, paths, percent, hop, quoter, cells, |paths|);
    assert mid[percent := done] == answered[percent := done];
  }

  /** Requesting everything first and answering afterwards is the same as a round path by path. */
  lemma {:induction false} RequestsMakeRound(t: Trade, paths: seq<seq<string>>, percents: seq<nat>, hop: nat,
                                             quoter: Request -> Estimate, rows: Rows, k: nat)
    requires Fits(paths, rows) && k <= |percents| && Differ(percents)
    ensures Populated(StartedRows(t, paths, percents, hop, rows, k), AllRequests(t, paths, percents, hop, rows, k),
                      quoter)
            == RoundRows(t, paths, percents, hop, quoter, rows, k)
  {
    hide Fits, PathRequests, StartedCells, DoneCells, CellsOf, CellsFit, Answered;
    if k > 0 {
      var rest := AllRequests(t, paths, percents, hop, rows, k - 1);
      RequestsMakeRound(t, paths, percents, hop, quoter, rows, k - 1);
      AllRequestsAre(t, paths, percents, hop, rows, k - 1);
      NotAmongEarlier(rest, percents, k - 1);
      FreshCellsFit(paths, rows, percents[k - 1]);
      PercentageMakesRound(t, paths, percents[k - 1], hop, quoter, CellsOf(rows, percents[k - 1], |paths|),
                           StartedRows(t, paths, percents, hop, rows, k - 1), rest);
    }
  }

  lemma NotAmongEarlier(updates: seq<QuoteRequest>, percents: seq<nat>, k: nat)
    requires k < |percents| && Differ(percents) && forall i :: 0 <= i < |updates| ==> ForOneOf(percents, k, updates[i])
    ensures forall u :: u in updates ==> u.splitPercent != percents[k]
  {
  }

  // ---------------------------------------------------------------- sanitising

  /** Every path has its row, with a hop for each edge, and a row that is not complete holds a failed hop. */
  ghost predicate Settled(paths: seq<seq<string>>, cells: Cells) {
    |cells| == |paths| && forall p :: 0 <= p < |paths| ==> SettledRow(paths[p], cells[p])
  }

  ghost predicate SettledRow(path: seq<string>, row: Option<Row>) {
    && row.Some? && 0 < |path| == |row.value|
    && (!Complete(row.value) ==> exists i: nat :: Failed(row.value, i))
  }

  function QuoteOf(path: seq<string>, percent: nat, row: Row): R.PathQuote
    requires 0 < |row| && Complete(row)
  {
    R.PathQuote(path, percent, row[0].value.amountIn, row[|row| - 1].value.amountOut, |row|)
  }

  /** The quotes of the complete rows among the first n. */
  ghost function CleanQuotes(paths: seq<seq<string>>, percent: nat, cells: Cells, n: nat): seq<R.PathQuote>
    requires Settled(paths, cells) && n <= |paths|
  {
    if n == 0 then []
    else
      var rest, row := CleanQuotes(paths, percent, cells, n - 1), cells[n - 1].value;
      if Complete(row) then rest + [QuoteOf(paths[n - 1], percent, row)] else rest
  }

  /** The p-th row is not complete, and its first failed hop reports this error. */
  predicate FailsWith(cells: Cells, p: int, e: nat) {
    0 <= p < |cells| && cells[p].Some? && !Complete(cells[p].value)
    && exists i: nat :: i < |cells[p].value| && FirstFailureAt(cells[p].value, i) && cells[p].value[i].value.error == e
  }

  predicate FirstFailureAt(row: Row, i: nat) {
    Failed(row, i) && forall j: nat :: j < i ==> !Failed(row, j)
  }

  /** quoteFailures[0].error: there is one whenever any hop failed. */
  method FirstFailure(row: Row) returns (e: nat)
    requires exists i: nat :: Failed(row, i)
    ensures exists i: nat :: i < |row| && FirstFailureAt(row, i) && row[i].value.error == e
    ensures forall i: nat :: i < |row| && FirstFailureAt(row, i) ==> row[i].value.error == e
  {
    ghost var failed: nat :| Failed(row, failed);
    var i: nat := 0;
    while !(row[i].Some? && row[i].value.Failure?)
      invariant i <= failed && forall j: nat :: j < i ==> !Failed(row, j)
      decreases failed - i
    {
      i := i + 1;
    }
    assert FirstFailureAt(row, i);
    e := row[i].value.error;
  }

  // ---------------------------------------------------------------- the table

  class QuoteTable {
    const trade: Trade
    const paths: seq<seq<string>>
    var rows: Rows

    constructor (trade: Trade, paths: seq<seq<string>>)
      ensures this.trade == trade && this.paths == paths && rows == map[]
    {
      this.trade, this.paths, rows := trade, paths, map[];
    }

    /** buildQuoteUpdateRequests: initialise the rows that start in this round and list the hops that can be quoted. */
    method BuildQuoteUpdateRequests(percents: seq<nat>, amounts: seq<nat>, hop: nat)
        returns (updates: seq<QuoteRequest>)
      requires Fits(paths, rows) && |amounts| == |percents|
      requires forall i :: 0 <= i < |percents| ==> amounts[i] == SplitAmount(trade.amount, percents[i])
      requires Differ(percents)
      modifies this
      ensures rows == StartedRows(trade, paths, percents, hop, old(rows), |percents|)
      ensures updates == AllRequests(trade, paths, percents, hop, old(rows), |percents|)
    {
      hide PathRequests, StartedCells, SplitAmount, Fits;
      updates := [];
      for amountIndex := 0 to |amounts|
        invariant rows == StartedRows(trade, paths, percents, hop, old(rows), amountIndex)
        invariant updates == AllRequests(trade, paths, percents, hop, old(rows), amountIndex)
      {
        StartedKeepsOthers(trade, paths, percents, hop, old(rows), amountIndex);
        updates := RequestPaths(percents[amountIndex], amounts[amountIndex], hop, updates);
      }
    }

    /** The inner loop over all paths, for one percentage. */
    method RequestPaths(percent: nat, tradeAmount: nat, hop: nat, updates: seq<QuoteRequest>)
        returns (r: seq<QuoteRequest>)
      requires Fits(paths, rows) && tradeAmount == SplitAmount(trade.amount, percent)
      modifies this
      ensures var cells := CellsOf(old(rows), percent, |paths|);
              && rows == old(rows)[percent := StartedCells(trade, paths, hop, cells, |paths|)]
              && r == updates + PathRequests(trade, paths, percent, hop, cells, |updates|, |paths|)
    {
      hide Wanted, SplitAmount, Fits, StartedCells, PathRequests, Started, CellsFit;
      ghost var cells := CellsOf(rows, percent, |paths|);
      FreshCellsFit(paths, rows, percent);
      StartedNone(trade, paths, hop, cells);
      NoRequests(trade, paths, percent, hop, cells, |updates|);
      if percent !in rows {
        rows := rows[percent := seq(|paths|, _ => None)];
      }
      r := updates;
      for pathIndex := 0 to |paths|
        invariant rows == old(rows)[percent := StartedCells(trade, paths, hop, cells, pathIndex)]
        invariant r == updates + PathRequests(trade, paths, percent, hop, cells, |updates|, pathIndex)
      {
        var path := paths[pathIndex];
        StartedStep(trade, paths, hop, cells, pathIndex);
        RequestStep(trade, paths, percent, hop, cells, |updates|, pathIndex);
        if hop < |path| {
          if Starts(path, hop, trade.isInput) {
            rows := rows[percent := rows[percent][pathIndex := Some(seq(|path|, _ => None))]];
          }
          var wanted := Wanted(trade, path, tradeAmount, hop, rows[percent][pathIndex]);
          if wanted.Some? {
            r := r + [QuoteRequest(percent, pathIndex, hop, |r|, wanted.value)];
          }
        }
      }
    }

    /** populateQuoteMap: write every answer into its row. */
    method PopulateQuoteMap(updates: seq<QuoteRequest>, answers: seq<Estimate>, ghost quoter: Request -> Estimate)
      requires |answers| == |updates|
      requires forall i :: 0 <= i < |updates| ==>
                 updates[i].quoteIndex == i && answers[i] == quoter(updates[i].request)
      requires forall i :: 0 <= i < |updates| ==> Answerable(rows, updates[i])
      modifies this
      ensures rows == Populated(old(rows), updates, quoter)
    {
      for i := 0 to |updates|
        invariant rows == Populated(old(rows), updates[..i], quoter)
        invariant forall j :: 0 <= j < |updates| ==> Answerable(rows, updates[j])
      {
        var u := updates[i];
        assert updates[..i + 1][..i] == updates[..i];
        AnsweredKeeps(rows, u, answers[i], updates);
        var row := rows[u.splitPercent][u.pathIndex].value;
        rows := rows[u.splitPercent :=
            rows[u.splitPercent][u.pathIndex :=
            Some(row[u.edgeIndex := Some(Quoted(u.request, answers[u.quoteIndex]))])]];
      }
      assert updates[..|updates|] == updates;
    }

    /** One round for one hop: build the requests, quote them, write the answers. */
    method QuoteRound(percents: seq<nat>, amounts: seq<nat>, hop: nat, quoter: Request -> Estimate)
      requires Fits(paths, rows) && |amounts| == |percents| && Differ(percents)
      requires forall i :: 0 <= i < |percents| ==> amounts[i] == SplitAmount(trade.amount, percents[i])
      modifies this
      ensures rows == RoundRows(trade, paths, percents, hop, quoter, old(rows), |percents|)
    {
      hide Fits, Answerable;
      ghost var before := rows;
      var updates := BuildQuoteUpdateRequests(percents, amounts, hop);
      AllRequestsAre(trade, paths, percents, hop, before, |percents|);
      AllAnswerable(trade, paths, percents, hop, before, |percents|);
      RequestsMakeRound(trade, paths, percents, hop, quoter, before, |percents|);
      var answers := seq(|updates|, i requires 0 <= i < |updates| => quoter(updates[i].request));
      PopulateQuoteMap(updates, answers, quoter);
    }

    /** The rounds of getQuoteMap, over the longest path, forwards or backwards. */
    method FillQuoteMap(percents: seq<nat>, amounts: seq<nat>, rounds: nat, quoter: Request -> Estimate)
      requires rows == map[] && |amounts| == |percents| && Differ(percents)
      requires forall i :: 0 <= i < |percents| ==> amounts[i] == SplitAmount(trade.amount, percents[i])
      modifies this
      ensures RowsAt(trade, paths, percents, rounds, quoter, rounds, rows)
    {
      for n := 0 to rounds
        invariant Fits(paths, rows) && RowsAt(trade, paths, percents, rounds, quoter, n, rows)
      {
        var hop := HopOfRound(trade.isInput, n, rounds);
        RoundAdvances(trade, paths, percents, rounds, quoter, n, rows);
        QuoteRound(percents, amounts, hop, quoter);
      }
    }

    /**
     * sanitizeQuoteMap before pruning: complete rows become quotes, every other row adds the error of its failed hop.
     * That such a hop exists is required of the map, and proved of every map that FillQuoteMap leaves.
     */
    method SanitizeQuoteMap() returns (clean: map<nat, seq<R.PathQuote>>, failureErrors: set<nat>)
      requires forall percent :: percent in rows ==> Settled(paths, rows[percent])
      ensures clean.Keys == rows.Keys
      ensures forall percent :: percent in rows ==>
          clean[percent] == CleanQuotes(paths, percent, rows[percent], |paths|)
      ensures forall e :: e in failureErrors <==>
        exists percent, p :: percent in rows && 0 <= p < |paths| && FailsWith(rows[percent], p, e)
    {
      clean, failureErrors := map[], {};
      var percents := rows.Keys;
      while percents != {}
        invariant percents <= rows.Keys && clean.Keys == rows.Keys - percents
        invariant forall percent :: percent in clean ==>
            clean[percent] == CleanQuotes(paths, percent, rows[percent], |paths|)
        invariant forall e :: e in failureErrors <==>
          exists percent, p :: percent in clean && 0 <= p < |paths| && FailsWith(rows[percent], p, e)
      {
        var percent :| percent in percents;
        var quotes, errors := SanitizeRows(percent, rows[percent]);
        clean := clean[percent := quotes];
        failureErrors := failureErrors + errors;
        percents := percents - {percent};
      }
    }

    method SanitizeRows(percent: nat, cells: Cells) returns (quotes: seq<R.PathQuote>, errors: set<nat>)
      requires Settled(paths, cells)
      ensures quotes == CleanQuotes(paths, percent, cells, |paths|)
      ensures forall e :: e in errors <==> exists p :: 0 <= p < |paths| && FailsWith(cells, p, e)
    {
      quotes, errors := [], {};
      for i := 0 to |cells|
        invariant quotes == CleanQuotes(paths, percent, cells, i)
        invariant forall e :: e in errors <==> exists p :: 0 <= p < i && FailsWith(cells, p, e)
      {
        var row := cells[i].value;
        if Complete(row) {
          quotes := quotes + [QuoteOf(paths[i], percent, row)];
        } else {
          var failure := FirstFailure(row);
          errors := errors + {failure};
          assert FailsWith(cells, i, failure);
          assert forall e :: FailsWith(cells, i, e) ==> e == failure;
        }
      }
    }
  }

  lemma FreshCellsFit(paths: seq<seq<string>>, rows: Rows, percent: nat)
    requires Fits(paths, rows)
    ensures CellsFit(paths, CellsOf(rows, percent, |paths|))
  {
  }

  lemma StartedNone(t: Trade, paths: seq<seq<string>>, hop: nat, cells: Cells)
    requires CellsFit(paths, cells)
    ensures StartedCells(t, paths, hop, cells, 0) == cells
  {
  }

  /** Initialising one more row, if it starts in this round. */
  lemma StartedStep(t: Trade, paths: seq<seq<string>>, hop: nat, cells: Cells, n: nat)
    requires CellsFit(paths, cells) && n < |paths|
    ensures var before, after := StartedCells(t, paths, hop, cells, n), StartedCells(t, paths, hop, cells, n + 1);
            && |before| == |paths| && before[n] == cells[n] && after[n] == Started(paths[n], hop, t.isInput, cells[n])
            && after == (if Starts(paths[n], hop, t.isInput) then before[n := Some(seq(|paths[n]|, _ => None))]
                         else before)
  {
  }

  lemma NoRequests(t: Trade, paths: seq<seq<string>>, percent: nat, hop: nat, cells: Cells, base: nat)
    requires CellsFit(paths, cells)
    ensures PathRequests(t, paths, percent, hop, cells, base, 0) == []
  {
  }

  /** One more path's request, if it has any. */
  lemma RequestStep(t: Trade, paths: seq<seq<string>>, percent: nat, hop: nat, cells: Cells, base: nat, n: nat)
    requires CellsFit(paths, cells) && n < |paths|
    ensures var before := PathRequests(t, paths, percent, hop, cells, base, n);
            var wanted := Wanted(t, paths[n], SplitAmount(t.amount, percent), hop,
                                 Started(paths[n], hop, t.isInput, cells[n]));
            && (wanted.Some? ==> hop < |paths[n]|)
            && PathRequests(t, paths, percent, hop, cells, base, n + 1)
               == if wanted.Some? then before + [QuoteRequest(percent, n, hop, base + |before|, wanted.value)]
                   else before
  {
  }

  /** The entries of percentages not yet reached are as they were. */
  lemma {:induction false} StartedKeepsOthers(t: Trade, paths: seq<seq<string>>, percents: seq<nat>, hop: nat,
                                              rows: Rows, k: nat)
    requires Fits(paths, rows) && k <= |percents| && Differ(percents)
    ensures var r := StartedRows(t, paths, percents, hop, rows, k);
            forall i :: k <= i < |percents| ==> CellsOf(r, percents[i], |paths|) == CellsOf(rows, percents[i], |paths|)
  {
    hide StartedCells;
    if k > 0 {
      StartedKeepsOthers(t, paths, percents, hop, rows, k - 1);
    }
  }

  lemma AnsweredKeeps(rows: Rows, u: QuoteRequest, e: Estimate, updates: seq<QuoteRequest>)
    ensures forall j :: 0 <= j < |updates| && Answerable(rows, updates[j]) ==>
        Answerable(Answered(rows, u, e), updates[j])
  {
  }

  /** Every request made in a round has its row ready in the map. */
  lemma {:induction false} AllAnswerable(t: Trade, paths: seq<seq<string>>, percents: seq<nat>, hop: nat, rows: Rows,
                                         k: nat)
    requires Fits(paths, rows) && k <= |percents| && Differ(percents)
    ensures AllOf(StartedRows(t, paths, percents, hop, rows, k), AllRequests(t, paths, percents, hop, rows, k))
  {
    if k > 0 {
      var percent := percents[k - 1];
      var cells := CellsOf(rows, percent, |paths|);
      var rest := AllRequests(t, paths, percents, hop, rows, k - 1);
      AllAnswerable(t, paths, percents, hop, rows, k - 1);
      AllRequestsAre(t, paths, percents, hop, rows, k - 1);
      NotAmongEarlier(rest, percents, k - 1);
      FreshCellsFit(paths, rows, percent);
      PathRequestsAre(t, paths, percent, hop, cells, |rest|, |paths|);
      var more := PathRequests(t, paths, percent, hop, cells, |rest|, |paths|);
      var before := StartedRows(t, paths, percents, hop, rows, k - 1);
      forall i | 0 <= i < |rest|
        ensures Answerable(StartedRows(t, paths, percents, hop, rows, k), rest[i])
      {
        assert rest[i] in rest;
        OtherAnswerable(before, rest[i], percent, StartedCells(t, paths, hop, cells, |paths|));
      }
      forall i | 0 <= i < |more|
        ensures Answerable(StartedRows(t, paths, percents, hop, rows, k), more[i])
      {
        OwnAnswerable(t, paths, percent, hop, cells, before, more[i]);
      }
      AnswerableConcat(StartedRows(t, paths, percents, hop, rows, k), rest, more);
    }
  }

  ghost predicate AllOf(rows: Rows, updates: seq<QuoteRequest>) {
    forall i :: 0 <= i < |updates| ==> Answerable(rows, updates[i])
  }

  lemma AnswerableConcat(rows: Rows, a: seq<QuoteRequest>, b: seq<QuoteRequest>)
    requires AllOf(rows, a) && AllOf(rows, b)
    ensures AllOf(rows, a + b)
  {
    hide Answerable;
  }

  lemma OtherAnswerable(rows: Rows, u: QuoteRequest, percent: nat, cells: Cells)
    requires Answerable(rows, u) && u.splitPercent != percent
    ensures Answerable(rows[percent := cells], u)
  {
  }

  lemma OwnAnswerable(t: Trade, paths: seq<seq<string>>, percent: nat, hop: nat, cells: Cells, rows: Rows,
                      u: QuoteRequest)
    requires CellsFit(paths, cells) && IsRequest(t, paths, percent, hop, cells, |paths|, u)
    ensures Answerable(rows[percent := StartedCells(t, paths, hop, cells, |paths|)], u)
  {
  }

  /** The map holds, for exactly these percentages, every path's row after n rounds. */
  ghost predicate RowsAt(t: Trade, paths: seq<seq<string>>, percents: seq<nat>, rounds: nat,
                         quoter: Request -> Estimate, n: nat, rows: Rows)
    requires n <= rounds
  {
    && (forall percent :: percent in rows ==> percent in percents)
    && (n > 0 ==> forall i :: 0 <= i < |percents| ==> percents[i] in rows)
    && (forall i :: 0 <= i < |percents| ==>
        CellsAt(t, paths, percents[i], rounds, quoter, n, CellsOf(rows, percents[i], |paths|)))
  }

  ghost predicate CellsAt(t: Trade, paths: seq<seq<string>>, percent: nat, rounds: nat, quoter: Request -> Estimate,
                          n: nat, cells: Cells)
    requires n <= rounds
  {
    |cells| == |paths| && forall p :: 0 <= p < |paths| ==>
        cells[p] == RowAfter(t, paths[p], SplitAmount(t.amount, percent), rounds, quoter, n)
  }

  lemma CellsAdvance(t: Trade, paths: seq<seq<string>>, percent: nat, rounds: nat, quoter: Request -> Estimate, n: nat,
                     cells: Cells)
    requires n < rounds && CellsFit(paths, cells) && CellsAt(t, paths, percent, rounds, quoter, n, cells)
    ensures CellsAt(t, paths, percent, rounds, quoter, n + 1,
                    DoneCells(t, paths, percent, HopOfRound(t.isInput, n, rounds), quoter, cells, |paths|))
  {
    hide RowAfterHop, SplitAmount, HopOfRound;
  }

  /** The entries of each percentage after a round. */
  lemma {:induction false} RoundCells(t: Trade, paths: seq<seq<string>>, percents: seq<nat>, hop: nat,
                                      quoter: Request -> Estimate, rows: Rows, k: nat)
    requires Fits(paths, rows) && k <= |percents| && Differ(percents)
    ensures var r := RoundRows(t, paths, percents, hop, quoter, rows, k);
            && (forall percent :: percent in r ==> percent in rows || percent in percents)
            && (forall i :: 0 <= i < k ==> percents[i] in r)
            && (forall i :: 0 <= i < k ==>
                  r[percents[i]] == DoneCells(t, paths, percents[i], hop, quoter, CellsOf(rows, percents[i], |paths|),
                                              |paths|))
  {
    hide DoneCells;
    if k > 0 {
      RoundCells(t, paths, percents, hop, quoter, rows, k - 1);
    }
  }

  lemma RoundAdvances(t: Trade, paths: seq<seq<string>>, percents: seq<nat>, rounds: nat, quoter: Request -> Estimate,
                      n: nat, rows: Rows)
    requires n < rounds && Fits(paths, rows) && Differ(percents) && RowsAt(t, paths, percents, rounds, quoter, n, rows)
    ensures RowsAt(t, paths, percents, rounds, quoter, n + 1,
                   RoundRows(t, paths, percents, HopOfRound(t.isInput, n, rounds), quoter, rows, |percents|))
  {
    hide CellsAt, DoneCells, Fits, CellsFit, RoundRows, HopOfRound;
    var hop := HopOfRound(t.isInput, n, rounds);
    RoundCells(t, paths, percents, hop, quoter, rows, |percents|);
    var r := RoundRows(t, paths, percents, hop, quoter, rows, |percents|);
    forall i | 0 <= i < |percents|
      ensures CellsAt(t, paths, percents[i], rounds, quoter, n + 1, CellsOf(r, percents[i], |paths|))
    {
      FreshCellsFit(paths, rows, percents[i]);
      CellsAdvance(t, paths, percents[i], rounds, quoter, n, CellsOf(rows, percents[i], |paths|));
    }
  }

  // ---------------------------------------------------------------- what the filled map holds

  /** After all rounds every row is settled, so sanitising cannot fail. */
  lemma FilledIsSettled(t: Trade, paths: seq<seq<string>>, percents: seq<nat>, rounds: nat,
                        quoter: Request -> Estimate, rows: Rows)
    requires RowsAt(t, paths, percents, rounds, quoter, rounds, rows)
    requires forall p :: 0 <= p < |paths| ==> 0 < |paths[p]| <= rounds
    ensures forall percent :: percent in rows ==> Settled(paths, rows[percent])
  {
    hide RowAfter;
    forall percent | percent in rows
      ensures Settled(paths, rows[percent])
    {
      var i :| 0 <= i < |percents| && percents[i] == percent;
      assert CellsAt(t, paths, percent, rounds, quoter, rounds, rows[percent]);
      forall p | 0 <= p < |paths|
        ensures SettledRow(paths[p], rows[percent][p])
      {
        RowsAreChains(t, paths[p], SplitAmount(t.amount, percent), rounds, quoter);
      }
    }
  }

  /** The quote carries exactly its percentage of the trade on the specified side. */
  predicate Carries(t: Trade, percent: nat, q: R.PathQuote) {
    q.splitPercent == percent && Specified(q, t.isInput) == SplitAmount(t.amount, percent)
  }

  /**
   * Every sanitised quote is filed under its percentage and moves exactly that part of the trade on the specified side;
   * its hops pass on from one to the next what they received, whichever way they were quoted.
   */
  lemma {:induction false} CleanQuotesAreChains(t: Trade, paths: seq<seq<string>>, percent: nat, rounds: nat,
                                                quoter: Request -> Estimate, cells: Cells, n: nat)
    requires Settled(paths, cells) && n <= |paths| && CellsAt(t, paths, percent, rounds, quoter, rounds, cells)
    requires forall p :: 0 <= p < |paths| ==> 0 < |paths[p]| <= rounds
    ensures forall q :: q in CleanQuotes(paths, percent, cells, n) ==> Carries(t, percent, q)
    ensures forall p :: 0 <= p < n && Complete(cells[p].value) ==> PassesOn(cells[p].value)
    ensures forall p :: 0 <= p < n && Complete(cells[p].value) ==>
              QuoteOf(paths[p], percent, cells[p].value) in CleanQuotes(paths, percent, cells, n)
  {
    hide RowAfter, SplitAmount;
    if n > 0 {
      CleanQuotesAreChains(t, paths, percent, rounds, quoter, cells, n - 1);
      RowsAreChains(t, paths[n - 1], SplitAmount(t.amount, percent), rounds, quoter);
    }
  }

  /** The quotes that the first n paths give when each is walked on its own. */
  function Offers(t: Trade, paths: seq<seq<string>>, percent: nat, quoter: Request -> Estimate,
                  n: nat): seq<R.PathQuote>
    requires n <= |paths|
  {
    if n == 0 then []
    else
      var path, amount := paths[n - 1], SplitAmount(t.amount, percent);
      var rest := Offers(t, paths, percent, quoter, n - 1);
      match Walk(t, path, amount, quoter, |path|)
      case Refused(_) => rest
      case Offered(answer, _) =>
        rest + [if t.isInput then R.PathQuote(path, percent, amount, answer, |path|)
                else R.PathQuote(path, percent, answer, amount, |path|)]
  }

  /** The two amounts of a successful hop are what the walk is given there and what it is given next. */
  lemma HopAmounts(t: Trade, path: seq<string>, amount: nat, quoter: Request -> Estimate, k: nat, entry: Option<Hop>)
    requires k < |path| && Reports(t, path, amount, quoter, k, entry) && entry.Some? && entry.value.Success?
    ensures var given, answer := Walk(t, path, amount, quoter, k), Walk(t, path, amount, quoter, k + 1);
            && given.Offered? && answer.Offered?
            && (entry.value.amountIn, entry.value.amountOut)
               == if t.isInput then (given.amount, answer.amount) else (answer.amount, given.amount)
  {
  }

  /** The unspecified end of a complete row is where walking its path gets. */
  lemma RowEnds(t: Trade, path: seq<string>, amount: nat, quoter: Request -> Estimate, row: Row)
    requires 0 < |path| && Reported(t, path, amount, quoter, row, |path|) && Complete(row)
    ensures Walk(t, path, amount, quoter, |path|).Offered?
    ensures var answer := Walk(t, path, amount, quoter, |path|).amount;
            (row[0].value.amountIn, row[|row| - 1].value.amountOut)
            == if t.isInput then (amount, answer) else (answer, amount)
  {
    assert Walk(t, path, amount, quoter, 0).amount == amount;
    hide Walk, Reports;
    HopAmounts(t, path, amount, quoter, 0, row[Nth(t.isInput, |path|, 0)]);
    HopAmounts(t, path, amount, quoter, |path| - 1, row[Nth(t.isInput, |path|, |path| - 1)]);
  }

  /**
   * Sanitising a filled map yields exactly the quotes of walking each path on its own, in the order of the paths: the
   * path's part of the trade on the specified side, and on the other what the last pool answered.
   */
  lemma {:induction false} CleanQuotesAreOffers(t: Trade, paths: seq<seq<string>>, percent: nat, rounds: nat,
                                                quoter: Request -> Estimate, cells: Cells, n: nat)
    requires Settled(paths, cells) && n <= |paths| && CellsAt(t, paths, percent, rounds, quoter, rounds, cells)
    requires forall p :: 0 <= p < |paths| ==> 0 < |paths[p]| <= rounds
    ensures CleanQuotes(paths, percent, cells, n) == Offers(t, paths, percent, quoter, n)
  {
    hide RowAfter, SplitAmount, Walk, Reports, Reported, Complete;
    if n > 0 {
      CleanQuotesAreOffers(t, paths, percent, rounds, quoter, cells, n - 1);
      var path, amount, row := paths[n - 1], SplitAmount(t.amount, percent), cells[n - 1].value;
      assert row == RowAfter(t, path, amount, rounds, quoter, rounds).value;
      RoundsReport(t, path, amount, rounds, quoter, rounds);
      ReportedRow(t, path, amount, quoter, row);
      if Complete(row) {
        RowEnds(t, path, amount, quoter, row);
      }
    }
  }

  /** A path of a filled map fails with an error exactly when walking it is refused with that error. */
  lemma FailuresAreRefusals(t: Trade, paths: seq<seq<string>>, percent: nat, rounds: nat, quoter: Request -> Estimate,
                            cells: Cells, p: nat, e: nat)
    requires Settled(paths, cells) && p < |paths| && CellsAt(t, paths, percent, rounds, quoter, rounds, cells)
    requires 0 < |paths[p]| <= rounds
    ensures FailsWith(cells, p, e)
            <==> Walk(t, paths[p], SplitAmount(t.amount, percent), quoter, |paths[p]|) == Refused(e)
  {
    hide RowAfter, SplitAmount, Walk, Reports, Complete;
    var path, amount, row := paths[p], SplitAmount(t.amount, percent), cells[p].value;
    assert row == RowAfter(t, path, amount, rounds, quoter, rounds).value;
    RowsAreQuotes(t, path, amount, rounds, quoter);
    if !Complete(row) {
      assert SettledRow(path, cells[p]);
      var i: nat :| Failed(row, i);
      var first := FirstFailed(row, i);
      assert FirstFailureAt(row, first);
    }
  }

  lemma FirstFailed(row: Row, i: nat) returns (first: nat)
    requires Failed(row, i)
    ensures first < |row| && FirstFailureAt(row, first)
  {
    first := 0;
    while !Failed(row, first)
      invariant first <= i && forall j: nat :: j < first ==> !Failed(row, j)
      decreases i - first
    {
      first := first + 1;
    }
  }

  // ---------------------------------------------------------------- from the filled map to the routes

  /** Buckets in ascending percentage, each holding some of its percentage's sanitised quotes, in any order. */
  ghost predicate FormedFrom(buckets: seq<R.Bucket>, paths: seq<seq<string>>, percents: seq<nat>, rows: Rows)
    requires forall percent :: percent in rows ==> Settled(paths, rows[percent])
  {
    && (forall i, j :: 0 <= i < j < |buckets| ==> buckets[i].percent < buckets[j].percent)
    && (forall i :: 0 <= i < |buckets| ==> buckets[i].percent in percents && buckets[i].percent in rows)
    && (forall i, q :: 0 <= i < |buckets| && q in buckets[i].quotes ==>
          q in CleanQuotes(paths, buckets[i].percent, rows[buckets[i].percent], |paths|))
  }

  /** A quote among the candidates is one of some bucket's. */
  lemma {:induction false} FlattenedFrom(buckets: seq<R.Bucket>, n: nat, q: R.PathQuote) returns (i: nat)
    requires n <= |buckets| && q in R.Flatten(buckets, n)
    ensures i < n && q in buckets[i].quotes
  {
    if q in buckets[n - 1].quotes {
      i := n - 1;
    } else {
      i := FlattenedFrom(buckets, n - 1, q);
    }
  }

  lemma BucketsCarry(t: Trade, paths: seq<seq<string>>, percents: seq<nat>, rounds: nat, quoter: Request -> Estimate,
                     rows: Rows,
                     buckets: seq<R.Bucket>, i: nat, q: R.PathQuote)
    requires RowsAt(t, paths, percents, rounds, quoter, rounds, rows)
    requires forall p :: 0 <= p < |paths| ==> 0 < |paths[p]| <= rounds
    requires forall percent :: percent in rows ==> Settled(paths, rows[percent])
    requires FormedFrom(buckets, paths, percents, rows) && i < |buckets| && q in buckets[i].quotes
    ensures Carries(t, buckets[i].percent, q)
  {
    hide RowAfter, Settled, CleanQuotes, Carries;
    var percent := buckets[i].percent;
    var k :| 0 <= k < |percents| && percents[k] == percent;
    CleanQuotesAreChains(t, paths, percent, rounds, quoter, rows[percent], |paths|);
  }

  /**
   * From the trade to its routes: whatever sanitised quotes of a filled map are kept, the search's buckets are in
   * order, and every route it emits moves the whole trade on the specified side, but for at most one unit less than
   * its parts.
   */
  lemma FilledRoutesAddUp(t: Trade, paths: seq<seq<string>>, percents: seq<nat>, rounds: nat,
                          quoter: Request -> Estimate, rows: Rows,
                          buckets: seq<R.Bucket>, maxSplits: int, sel: seq<nat>)
    requires RowsAt(t, paths, percents, rounds, quoter, rounds, rows)
    requires forall p :: 0 <= p < |paths| ==> 0 < |paths[p]| <= rounds
    requires forall i :: 0 <= i < |percents| ==> percents[i] > 0
    requires forall percent :: percent in rows ==> Settled(paths, rows[percent])
    requires FormedFrom(buckets, paths, percents, rows)
    requires sel in R.Enumerate(R.Flatten(buckets, |buckets|), maxSplits, [], 0)
    ensures R.WellKeyed(buckets)
    ensures var r := R.RouteOf(R.Flatten(buckets, |buckets|), sel);
            var total := if t.isInput then r.totalIn else r.totalOut;
            t.amount - (|r.quotes| - 1) <= total <= t.amount
  {
    hide RowsAt, Settled, CleanQuotes, SplitAmount, R.Enumerate;
    forall i, k | 0 <= i < |buckets| && 0 <= k < |buckets[i].quotes|
      ensures buckets[i].quotes[k].splitPercent == buckets[i].percent
    {
      BucketsCarry(t, paths, percents, rounds, quoter, rows, buckets, i, buckets[i].quotes[k]);
    }
    forall q | q in R.Flatten(buckets, |buckets|)
      ensures Specified(q, t.isInput) == SplitAmount(t.amount, q.splitPercent)
    {
      var i := FlattenedFrom(buckets, |buckets|, q);
      BucketsCarry(t, paths, percents, rounds, quoter, rows, buckets, i, q);
    }
    RouteAmountsAddUp(buckets, maxSplits, sel, t.amount, t.isInput);
  }
}
