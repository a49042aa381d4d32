module PagedResult {
  // Query results continued by offset: read_rows on the server, loadMoreRows on the client.

  import opened Wrappers
  import opened Rows
  import opened Chunker
  import R = ResultStore

  datatype ReadError = Gone | OutOfRange

  /** Where a page from `start` ends: full, at the byte ceiling, or at the end, but never empty early. */
  ghost predicate PageEnd(rows: seq<Row>, start: nat, end: nat) {
    && start <= end <= |rows| && end - start <= 200
    && (start < |rows| ==> start < end)
    && (end - start > 1 ==> Bytes(rows[start..end]) <= 1_048_576)
    && (end < |rows| && end - start < 200 ==> Bytes(rows[start..end + 1]) > 1_048_576)
  }

  lemma WindowBytesMonotone(rows: seq<Row>, start: nat, a: nat, b: nat)
    requires start <= a <= b <= |rows|
    ensures Bytes(rows[start..a]) <= Bytes(rows[start..b])
  {
    assert rows[start..b] == rows[start..a] + rows[a..b];
    BytesAppend(rows[start..a], rows[a..b]);
  }

  lemma PageEndUnique(rows: seq<Row>, start: nat, a: nat, b: nat)
    requires PageEnd(rows, start, a) && PageEnd(rows, start, b)
    ensures a == b
  {
    if a < b { WindowBytesMonotone(rows, start, a + 1, b); }
    if b < a { WindowBytesMonotone(rows, start, b + 1, a); }
  }

  function EndFrom(rows: seq<Row>, start: nat, end: nat): (r: nat)
    requires start <= end <= |rows| && end - start <= RESULT_PAGE_ROWS
    requires end - start > 1 ==> Bytes(rows[start..end]) <= MAX_FETCH_BYTES
    ensures PageEnd(rows, start, r)
    decreases |rows| - end
  {
    if end == |rows| || end - start == RESULT_PAGE_ROWS then end
    else if end > start && Bytes(rows[start..end + 1]) > MAX_FETCH_BYTES then end
    else EndFrom(rows, start, end + 1)
  }

  function ReadEnd(rows: seq<Row>, start: nat): (r: nat)
    requires start <= |rows|
    ensures PageEnd(rows, start, r)
  {
    EndFrom(rows, start, start)
  }

  /** The page a read answers with; its next offset is cut to 32 bits. */
  function PageAt(rows: seq<Row>, start: nat): R.Page
    requires start <= |rows|
  {
    var end := ReadEnd(rows, start);
    R.Page(rows[start..end], end % (U32_MAX + 1), end < |rows|)
  }

  /** The rows a paged result keeps on the server. */
  class RetainedRows {
    const executionId: string
    const paged: bool
    var rows: seq<Row>

    constructor (executionId: string, paged: bool)
      ensures this.executionId == executionId && this.paged == paged && rows == []
    {
      this.executionId := executionId;
      this.paged := paged;
      rows := [];
    }

    method RetainRow(row: Row)
      modifies this
      ensures rows == old(rows) + [row]
    {
      rows := rows + [row];
    }

    method ReadRows(executionId: string, offset: nat) returns (r: Result<R.Page, ReadError>)
      ensures !paged || executionId != this.executionId ==> r == Err(Gone)
      ensures paged && executionId == this.executionId ==>
        r == if offset > |rows| then Err(OutOfRange) else Ok(PageAt(rows, offset))
    {
      if !paged || this.executionId != executionId {
        return Err(Gone);
      }
      if offset > |rows| {
        return Err(OutOfRange);
      }
      var end := offset;
      var bytes := 0;
      assert Bytes(rows[offset..offset]) == 0 by { assert Sizes(rows[offset..offset]) == []; }
      while end < |rows| && end - offset < RESULT_PAGE_ROWS
        invariant offset <= end <= |rows| && end - offset <= RESULT_PAGE_ROWS
        invariant bytes == Bytes(rows[offset..end])
        invariant end - offset > 1 ==> bytes <= MAX_FETCH_BYTES
      {
        BytesSnoc(rows[offset..end], rows[end]);
        assert rows[offset..end] + [rows[end]] == rows[offset..end + 1];
        if end > offset && bytes + rows[end].json > MAX_FETCH_BYTES {
          break;
        }
        bytes := bytes + rows[end].json;
        end := end + 1;
      }
      PageEndUnique(rows, offset, end, ReadEnd(rows, offset));
      r := Ok(R.Page(rows[offset..end], end % (U32_MAX + 1), end < |rows|));
    }
  }

  /** Every page read in turn from `start`, until one says there is no more. */
  function Drain(rows: seq<Row>, start: nat): seq<Row>
    requires start <= |rows|
    decreases |rows| - start
  {
    var end := ReadEnd(rows, start);
    if end < |rows| then rows[start..end] + Drain(rows, end) else rows[start..end]
  }

  /** Reading page after page gives every remaining row once, in order. */
  lemma {:induction false} DrainIsTail(rows: seq<Row>, start: nat)
    requires start <= |rows|
    ensures Drain(rows, start) == rows[start..]
    decreases |rows| - start
  {
    var end := ReadEnd(rows, start);
    if end < |rows| { DrainIsTail(rows, end); }
  }

  /** The client's check of a page it asked for at `offset`. */
  predicate RowOrderError(page: R.Page, offset: nat) {
    page.nextOffset != offset + |page.rows| || (page.hasMore && page.rows == [])
  }

  /** The client rejects a server page exactly when the page ends past 32 bits. */
  lemma RowOrderErrorIff(rows: seq<Row>, offset: nat)
    requires offset <= |rows|
    ensures RowOrderError(PageAt(rows, offset), offset) <==> ReadEnd(rows, offset) > 4_294_967_295
  {
  }

  /** Client state for one paged result, with the server rows it has been given so far. */
  datatype Client = Client(tab: R.Tab, delivered: seq<Row>, inFlight: Option<nat>)

  datatype Action =
    | StartLoad
    | PageArrives
    | PageFails
    | Replace(idx: int, row: Row)
    | Remove(indexes: seq<nat>)
    | Push(rows: seq<Row>)

  predicate Enabled(retained: seq<Row>, c: Client, a: Action) {
    match a
    case StartLoad => c.tab.hasMoreRows && !c.tab.loadingMore
    case PageArrives => c.inFlight.Some? && c.inFlight.value <= |retained|
    case PageFails => c.inFlight.Some?
    case _ => true
  }

  function Step(retained: seq<Row>, c: Client, a: Action): Client
    requires Enabled(retained, c, a)
  {
    match a
    case StartLoad => c.(tab := c.tab.(loadingMore := true), inFlight := Some(c.tab.nextRowOffset))
    case PageArrives =>
      var page := PageAt(retained, c.inFlight.value);
      if RowOrderError(page, c.inFlight.value) then
        c.(tab := c.tab.(loadingMore := false), inFlight := None)
      else
        Client(R.PageAppended(c.tab, page), c.delivered + page.rows, None)
    case PageFails => c.(tab := c.tab.(loadingMore := false), inFlight := None)
    case Replace(idx, row) => c.(tab := R.RowReplaced(c.tab, idx, row))
    case Remove(indexes) => c.(tab := R.RowsRemoved(c.tab, indexes))
    case Push(rows) => c.(tab := R.RowsPushed(c.tab, rows))
  }

  function Run(retained: seq<Row>, c: Client, actions: seq<Action>): Client
    decreases |actions|
  {
    if |actions| == 0 then c
    else Run(retained, if Enabled(retained, c, actions[0]) then Step(retained, c, actions[0]) else c, actions[1..])
  }

  /** After every streamed chunk and the terminal event have arrived; a failure brings no row count. */
  function Streamed(o: Outcome, status: R.Status): Client {
    var sent := Concat(o.sent);
    var tab := R.FreshTab(true, None).(rows := sent, nextRowOffset := |sent|, nextSequence := |o.sent|);
    Client(R.Ended(tab, R.Terminal(status, if status == R.Failed then None else Some(o.total), o.truncated)), sent, None)
  }

  /** Local edits and failed loads never move the offset; pages extend what was delivered in order. */
  ghost predicate Inv(retained: seq<Row>, more: bool, c: Client) {
    && c.delivered <= retained
    && c.tab.nextRowOffset == |c.delivered|
    && (c.inFlight.Some? <==> c.tab.loadingMore)
    && (c.inFlight.Some? ==> c.inFlight.value == c.tab.nextRowOffset)
    && (c.tab.hasMoreRows ==> |c.delivered| < |retained|)
    && (more && !c.tab.hasMoreRows ==> c.delivered == retained)
  }

  lemma StepKeepsInv(retained: seq<Row>, more: bool, c: Client, a: Action)
    requires Inv(retained, more, c) && Enabled(retained, c, a)
    ensures Inv(retained, more, Step(retained, c, a))
    ensures a.PageArrives? && |retained| <= U32_MAX ==>
      !RowOrderError(PageAt(retained, c.inFlight.value), c.inFlight.value)
    ensures !a.PageArrives? ==> Step(retained, c, a).tab.nextRowOffset == c.tab.nextRowOffset
  {
    if a.PageArrives? {
      var offset := c.inFlight.value;
      RowOrderErrorIff(retained, offset);
      var end := ReadEnd(retained, offset);
      assert c.delivered == retained[..offset];
      assert retained[..offset] + retained[offset..end] == retained[..end];
    }
  }

  lemma {:induction false} RunKeepsInv(retained: seq<Row>, more: bool, c: Client, actions: seq<Action>)
    requires Inv(retained, more, c)
    ensures Inv(retained, more, Run(retained, c, actions))
    decreases |actions|
  {
    if |actions| > 0 {
      if Enabled(retained, c, actions[0]) {
        StepKeepsInv(retained, more, c, actions[0]);
        RunKeepsInv(retained, more, Step(retained, c, actions[0]), actions[1..]);
      } else {
        RunKeepsInv(retained, more, c, actions[1..]);
      }
    }
  }

  /** Loading alone: no local edit changes the rows shown. */
  predicate Loading(actions: seq<Action>) {
    forall i :: 0 <= i < |actions| ==> actions[i].StartLoad? || actions[i].PageArrives? || actions[i].PageFails?
  }

  /** Without local edits the tab shows exactly the rows delivered, in the order they came. */
  lemma {:induction false} ShownIsDelivered(retained: seq<Row>, c: Client, actions: seq<Action>)
    requires c.tab.rows == c.delivered && Loading(actions)
    ensures Run(retained, c, actions).tab.rows == Run(retained, c, actions).delivered
    decreases |actions|
  {
    if |actions| > 0 {
      var a := actions[0];
      ShownIsDelivered(retained, if Enabled(retained, c, a) then Step(retained, c, a) else c, actions[1..]);
    }
  }

  /** The stream hands over to paging exactly when it retained more than a page. */
  lemma StreamedInv(items: seq<Item>, failed: bool, maxRows: nat, o: Outcome, status: R.Status)
    requires Faithful(items, failed, true, maxRows, o) && status != R.Failed
    ensures Streamed(o, status).tab.hasMoreRows <==> |o.retained| > 200
    ensures Streamed(o, status).tab.rows == Streamed(o, status).delivered
    ensures Inv(o.retained, o.total == |o.retained|, Streamed(o, status))
    ensures o.total == |o.retained| <==> |o.retained| > RESULT_PAGE_ROWS || Concat(o.sent) == o.retained
  {
  }

  /** With nothing more offered and nothing on its way, loads and edits deliver nothing. */
  lemma {:induction false} NothingArrives(retained: seq<Row>, c: Client, actions: seq<Action>)
    requires !c.tab.hasMoreRows && c.inFlight.None?
    ensures var c' := Run(retained, c, actions);
      c'.delivered == c.delivered && !c'.tab.hasMoreRows
    decreases |actions|
  {
    if |actions| > 0 {
      NothingArrives(retained, if Enabled(retained, c, actions[0]) then Step(retained, c, actions[0]) else c, actions[1..]);
    }
  }

  /** Whenever nothing more is offered, every retained row has been delivered, once and in order. */
  ghost predicate ServesAll(retained: seq<Row>, c: Client) {
    forall actions: seq<Action> ::
      var c' := Run(retained, c, actions);
      c'.delivered <= retained && (!c'.tab.hasMoreRows ==> c'.delivered == retained)
  }

  /**
   * A paged result that completed or was cancelled serves what it retained, over every run of
   * loads, failed loads and local edits, exactly when its terminal event counts every retained row.
   */
  lemma ServesRetainedIff(items: seq<Item>, failed: bool, maxRows: nat, o: Outcome, status: R.Status)
    requires Faithful(items, failed, true, maxRows, o) && status != R.Failed
    ensures ServesAll(o.retained, Streamed(o, status)) <==> o.total == |o.retained|
  {
    var first := Streamed(o, status);
    StreamedInv(items, failed, maxRows, o, status);
    if o.total == |o.retained| {
      forall actions: seq<Action>
        ensures var c := Run(o.retained, first, actions);
          c.delivered <= o.retained && (!c.tab.hasMoreRows ==> c.delivered == o.retained)
      {
        RunKeepsInv(o.retained, true, first, actions);
      }
    } else {
      assert Run(o.retained, first, []) == first && !first.tab.hasMoreRows && first.delivered != o.retained;
    }
  }

  /** A failed one serves only what was streamed. */
  lemma FailedServesRetainedIff(items: seq<Item>, maxRows: nat, o: Outcome)
    requires Faithful(items, true, true, maxRows, o)
    ensures ServesAll(o.retained, Streamed(o, R.Failed)) <==> Concat(o.sent) == o.retained
  {
    var first := Streamed(o, R.Failed);
    assert Run(o.retained, first, []) == first && first.delivered == Concat(o.sent);
    forall actions: seq<Action> ensures Run(o.retained, first, actions).delivered == Concat(o.sent) {
      NothingArrives(o.retained, first, actions);
    }
  }

  /**
   * A paged query that completed with every flush done, cut short by the budget or not: whatever
   * loads, failed loads and local edits happen, once nothing more is offered the client has been
   * given every retained row, once, in order; untruncated, that is every server row.
   */
  lemma PagedQueryCompletes(items: seq<Item>, maxRows: nat, o: Outcome, actions: seq<Action>)
    requires Faithful(items, false, true, maxRows, o) && o.failedAt.None?
    ensures var c := Run(o.retained, Streamed(o, R.Completed), actions);
      && c.delivered <= o.retained <= RowsOf(items)
      && (!c.tab.hasMoreRows ==> c.delivered == o.retained)
      && (!o.truncated ==> o.retained == RowsOf(items))
  {
    ServesRetainedIff(items, false, maxRows, o, R.Completed);
    assert ServesAll(o.retained, Streamed(o, R.Completed)) by {
      assert |Concat(o.sent)| == |o.retained| ==> Concat(o.sent) == o.retained;
    }
  }

  function Loads(n: nat): seq<Action> {
    if n == 0 then [] else [StartLoad, PageArrives] + Loads(n - 1)
  }

  lemma TwoSteps(retained: seq<Row>, c: Client, n: nat)
    requires n > 0
    ensures var c1 := if Enabled(retained, c, StartLoad) then Step(retained, c, StartLoad) else c;
      var c2 := if Enabled(retained, c1, PageArrives) then Step(retained, c1, PageArrives) else c1;
      Run(retained, c, Loads(n)) == Run(retained, c2, Loads(n - 1))
  {
    assert Loads(n)[1..] == [PageArrives] + Loads(n - 1) && Loads(n)[1..][1..] == Loads(n - 1);
  }

  /** Each load brings at least one row, so enough of them bring the rest. */
  lemma {:induction false} LoadsFinish(retained: seq<Row>, c: Client, n: nat)
    requires |retained| <= U32_MAX && Inv(retained, true, c) && c.inFlight.None?
    requires n >= |retained| - |c.delivered|
    ensures Run(retained, c, Loads(n)).delivered == retained
    ensures !Run(retained, c, Loads(n)).tab.hasMoreRows
    decreases n
  {
    if n > 0 {
      TwoSteps(retained, c, n);
      if c.tab.hasMoreRows {
        var c1 := Step(retained, c, StartLoad);
        StepKeepsInv(retained, true, c, StartLoad);
        StepKeepsInv(retained, true, c1, PageArrives);
        LoadsFinish(retained, Step(retained, c1, PageArrives), n - 1);
      } else {
        LoadsFinish(retained, c, n - 1);
      }
    }
  }

  /** At any point of any run the rest can still be loaded, within the offsets a reply can carry. */
  lemma RestCanBeLoaded(items: seq<Item>, failed: bool, maxRows: nat, o: Outcome, status: R.Status, actions: seq<Action>)
    requires Faithful(items, failed, true, maxRows, o) && status != R.Failed
    requires o.total == |o.retained| <= U32_MAX
    ensures exists rest: seq<Action> ::
      var c := Run(o.retained, Run(o.retained, Streamed(o, status), actions), rest);
      c.delivered == o.retained && !c.tab.hasMoreRows
  {
    StreamedInv(items, failed, maxRows, o, status);
    RunKeepsInv(o.retained, true, Streamed(o, status), actions);
    var c := Run(o.retained, Streamed(o, status), actions);
    var idle := if c.inFlight.Some? then Step(o.retained, c, PageFails) else c;
    if c.inFlight.Some? { StepKeepsInv(o.retained, true, c, PageFails); }
    var n := |o.retained|;
    LoadsFinish(o.retained, idle, n);
    var rest := [PageFails] + Loads(n);
    assert rest[1..] == Loads(n);
    assert Run(o.retained, c, rest) == Run(o.retained, idle, Loads(n));
  }

  /**
   * Where the promise fails: a paged query that an error or a cancellation stops before its first
   * page or its first mebibyte has sent nothing, and no run ever delivers a row of what it retained.
   */
  lemma EarlyStopServesNothing(items: seq<Item>, maxRows: nat, o: Outcome, status: R.Status, actions: seq<Action>)
    requires Faithful(items, true, true, maxRows, o) && o.failedAt.None?
    requires |o.retained| < RESULT_PAGE_ROWS && Bytes(o.retained) <= MAX_FETCH_BYTES
    ensures var c := Run(o.retained, Streamed(o, status), actions);
      c.delivered == [] && !c.tab.hasMoreRows && o.total == 0
    ensures !o.truncated ==> o.retained == RowsOf(items)
  {
    NothingArrives(o.retained, Streamed(o, status), actions);
  }

  /** One row received and then a cancellation: the row is retained and never served. */
  lemma StoppedQueryLosesRow(row: Row, maxRows: nat)
    requires row.json <= MAX_FETCH_BYTES
    ensures var items, o := [Item(row, true)], Outcome([], [row], 0, false, None);
      && Faithful(items, true, true, maxRows, o)
      && forall actions :: var c := Run(o.retained, Streamed(o, R.Cancelled), actions);
           !c.tab.hasMoreRows && c.delivered != o.retained
  {
    var items, o := [Item(row, true)], Outcome([], [row], 0, false, None);
    assert RowsOf(items) == [row];
    BytesSnoc([], row);
    assert [] + [row] == [row];
    forall actions
      ensures var c := Run(o.retained, Streamed(o, R.Cancelled), actions);
        !c.tab.hasMoreRows && c.delivered != o.retained
    {
      EarlyStopServesNothing(items, maxRows, o, R.Cancelled, actions);
    }
  }
}
