module TablePagingRuns {
  // Table Data paging over whole runs: page requests served from the queue or queried, interrupted
  // after any row, stopped by the budget or refused, with commits in between.

  import opened Wrappers
  import opened Rows
  import opened TablePaging

  /** A committed row edit, at the row's place in the table's order. */
  datatype Edit = Delete(pos: nat) | Insert(pos: nat, row: Row)

  /**
   * `table` is the ordered relation and `handed` every row given out since row `base`.
   * `lost` records a page that left the queue and reached nobody: its offset no longer fits
   * 32 bits, or the request was dropped before its reply arrived.
   */
  datatype Sys = Sys(table: seq<Row>, base: nat, handed: seq<Row>, queue: Queue, lost: bool)

  datatype Action =
    | Request(sameColumns: bool, arrived: nat, fits: seq<bool>, broken: bool, delivered: bool)
    | Commit(edits: seq<Edit>)

  /** The rows a page query selects: LIMIT 200 OFFSET next_offset. */
  function Selected(s: Sys): seq<Row> {
    Slice(s.table, s.queue.nextOffset, s.queue.nextOffset + RESULT_PAGE_ROWS)
  }

  /** An edit this client can make: a row it was shown, or a row sorted before the next page. */
  predicate Behind(s: Sys, e: Edit) {
    match e
    case Delete(pos) => s.base <= pos < s.queue.nextOffset && pos < |s.table|
    case Insert(pos, _) => pos <= s.queue.nextOffset && pos <= |s.table|
  }

  predicate Enabled(s: Sys, a: Action)
    decreases a
  {
    match a
    case Request(_, arrived, fits, broken, _) =>
      && arrived <= |Selected(s)| && |fits| == arrived
      && (!broken ==> arrived == |Selected(s)|)
    case Commit(edits) => AllBehind(s, edits)
  }

  predicate AllBehind(s: Sys, edits: seq<Edit>)
    decreases |edits|
  {
    |edits| == 0 || (Behind(s, edits[0]) && AllBehind(Edited(s, edits[0]), edits[1..]))
  }

  /** The turn a request takes: the queue first, a query only when it is empty. */
  function Answer(s: Sys, a: Action): Turn
    requires a.Request? && Enabled(s, a)
  {
    if s.queue.pending != [] then Split(s.queue, s.queue.pending, s.queue.moreAfterPending)
    else Fetched(s.queue, a.sameColumns, Selected(s)[..a.arrived], a.fits, a.broken)
  }

  function Received(s: Sys, t: Turn, delivered: bool): Sys {
    var arrives := t.reply.Ok? && delivered;
    s.(queue := t.queue,
       handed := if arrives then s.handed + t.reply.value.rows else s.handed,
       lost := s.lost || (!arrives && t.queue.nextOffset > s.queue.nextOffset))
  }

  /** One edit applied to the table, to what was handed out, and to the offset. */
  function Edited(s: Sys, e: Edit): Sys
    requires Behind(s, e)
  {
    match e
    case Delete(pos) =>
      var at := pos - s.base;
      s.(table := RemoveAt(s.table, pos),
         handed := if at < |s.handed| then RemoveAt(s.handed, at) else s.handed,
         queue := Shifted(s.queue, 0, 1))
    case Insert(pos, row) =>
      if pos < s.base then
        s.(table := InsertAt(s.table, pos, row), base := s.base + 1, queue := Shifted(s.queue, 1, 0))
      else
        var at := pos - s.base;
        s.(table := InsertAt(s.table, pos, row),
           handed := if at <= |s.handed| then InsertAt(s.handed, at, row) else s.handed,
           queue := Shifted(s.queue, 1, 0))
  }

  function EditedAll(s: Sys, edits: seq<Edit>): Sys
    requires AllBehind(s, edits)
    decreases |edits|
  {
    if |edits| == 0 then s else EditedAll(Edited(s, edits[0]), edits[1..])
  }

  function Inserts(edits: seq<Edit>): (n: nat)
    ensures n <= |edits|
  {
    if |edits| == 0 then 0 else (if edits[0].Insert? then 1 else 0) + Inserts(edits[1..])
  }

  /** A commit moves the offset once, by the counts the server confirmed. */
  function Committed(s: Sys, edits: seq<Edit>): Sys
    requires AllBehind(s, edits)
  {
    EditedAll(s, edits).(queue := Shifted(s.queue, Inserts(edits), |edits| - Inserts(edits)))
  }

  function Step(s: Sys, a: Action): Sys
    requires Enabled(s, a)
  {
    match a
    case Request(_, _, _, _, _) => Received(s, Answer(s, a), a.delivered)
    case Commit(edits) => Committed(s, edits)
  }

  function Run(s: Sys, actions: seq<Action>): Sys
    decreases |actions|
  {
    if |actions| == 0 then s
    else Run(if Enabled(s, actions[0]) then Step(s, actions[0]) else s, actions[1..])
  }

  /** After a complete first page of `limit` rows from `offset`. */
  function Opened(table: seq<Row>, offset: nat, limit: nat): Sys {
    Sys(table, offset, Slice(table, offset, offset + limit), Queue(offset + limit, [], false), false)
  }

  /** The queue holds exactly the rows from the offset on, and knows when the table ends there. */
  ghost predicate QueueInv(s: Sys) {
    var q := s.queue;
    && s.base <= q.nextOffset
    && (q.pending != [] ==>
          && q.nextOffset + |q.pending| <= |s.table|
          && q.pending == s.table[q.nextOffset..q.nextOffset + |q.pending|]
          && (!q.moreAfterPending ==> q.nextOffset + |q.pending| == |s.table|))
  }

  /** Nothing lost, repeated or reordered: what was handed out is the table up to the offset. */
  ghost predicate GapFree(s: Sys) {
    s.base <= s.queue.nextOffset && s.handed == Slice(s.table, s.base, s.queue.nextOffset)
  }

  /** What a request may answer: the next rows of the table, and the truth about what follows. */
  ghost predicate HonestTurn(s: Sys, t: Turn) {
    var next, next' := s.queue.nextOffset, t.queue.nextOffset;
    && QueueInv(s.(queue := t.queue))
    && next <= next'
    && (next' > next ==> next' <= |s.table|)
    && (t.reply.Ok? ==>
          && next' == t.reply.value.nextOffset
          && t.reply.value.rows == Slice(s.table, next, next')
          && (t.reply.value.hasMore ==> t.reply.value.rows != [])
          && (!t.reply.value.hasMore ==> next' >= |s.table|))
    && (next' > U32_MAX && next' > next ==> t.reply.Err?)
    && (t.reply.Err? && next' <= U32_MAX ==> next' == next)
  }

  /** The two parts of a stretch of the table. */
  lemma CutStretch(table: seq<Row>, n: nat, rows: seq<Row>, end: nat)
    requires n + |rows| <= |table| && rows == table[n..n + |rows|] && end <= |rows|
    ensures rows[end..] == table[n + end..n + |rows|]
    ensures rows[..end] == table[n..n + end] == Slice(table, n, n + end)
  {
  }

  lemma SplitNothing(q: Queue, moreAfter: bool)
    ensures Fit([]) == 0
    ensures Split(q, [], moreAfter).queue == Queue(q.nextOffset, [], moreAfter)
  {
    hide FitFrom;
  }

  /** Cutting rows that stand at the offset: what leaves and what stays. */
  lemma SplitAtOffset(s: Sys, rows: seq<Row>, moreAfter: bool)
    requires s.base <= s.queue.nextOffset
    requires rows != [] ==> s.queue.nextOffset + |rows| <= |s.table|
    requires rows != [] ==> rows == s.table[s.queue.nextOffset..s.queue.nextOffset + |rows|]
    requires !moreAfter ==> s.queue.nextOffset + |rows| >= |s.table|
    ensures HonestTurn(s, Split(s.queue, rows, moreAfter))
  {
    hide Fit, Bytes;
    if rows == [] {
      SplitNothing(s.queue, moreAfter);
    } else {
      CutStretch(s.table, s.queue.nextOffset, rows, Fit(rows));
    }
  }

  /** What one page request does, from any state a run can be in. */
  lemma RequestTurn(s: Sys, a: Action)
    requires QueueInv(s) && a.Request? && Enabled(s, a)
    ensures HonestTurn(s, Answer(s, a))
  {
    if s.queue.pending != [] {
      SplitAtOffset(s, s.queue.pending, s.queue.moreAfterPending);
    } else {
      QueryTurn(s, a);
    }
  }

  lemma SplitIgnoresQueue(q: Queue, pending: seq<Row>, more: bool, rows: seq<Row>, moreAfter: bool)
    ensures Split(q.(pending := pending, moreAfterPending := more), rows, moreAfter) == Split(q, rows, moreAfter)
  {
  }

  /** A query cut short leaves the rows it decoded queued for the next request. */
  lemma PushedAtOffset(s: Sys, n: nat)
    requires QueueInv(s) && s.queue.pending == [] && n <= |Selected(s)|
    ensures QueueInv(s.(queue := Pushed(s.queue, Selected(s)[..n])))
    ensures n > 0 ==> s.queue.nextOffset + n <= |s.table|
    ensures n > 0 ==> Selected(s)[..n] == s.table[s.queue.nextOffset..s.queue.nextOffset + n]
    ensures n == |Selected(s)| != RESULT_PAGE_ROWS ==> s.queue.nextOffset + n >= |s.table|
  {
    if n > 0 {
      SlicePrefix(s.table, s.queue.nextOffset, s.queue.nextOffset + RESULT_PAGE_ROWS, n);
      assert s.queue.pending + Selected(s)[..n] == Selected(s)[..n];
    }
  }

  lemma QueryTurn(s: Sys, a: Action)
    requires QueueInv(s) && a.Request? && Enabled(s, a) && s.queue.pending == []
    ensures HonestTurn(s, Fetched(s.queue, a.sameColumns, Selected(s)[..a.arrived], a.fits, a.broken))
  {
    var q := s.queue;
    var arrived := Selected(s)[..a.arrived];
    var n := Admitted(a.fits);
    var rows := Selected(s)[..n];
    assert arrived[..n] == rows;
    PushedAtOffset(s, n);
    assert q.pending + rows == rows;
    var more := n < |arrived| || |arrived| == RESULT_PAGE_ROWS;
    if a.sameColumns && !a.broken && !(n < |arrived| && n == 0) {
      SplitAtOffset(s, rows, more);
      SplitIgnoresQueue(q, [], true, rows, more);
      assert Pushed(q, rows).(pending := []) == q.(pending := [], moreAfterPending := rows != [] || q.moreAfterPending);
      SplitIgnoresQueue(q, [], q.moreAfterPending, rows, more);
    }
  }

  lemma FitsNone(rows: seq<Row>)
    ensures Fit(rows) == 0 <==> rows == [] || rows[0].json > 1_048_576
  {
    assert Bytes(rows[..0]) == 0 by { assert Sizes(rows[..0]) == []; }
    if rows != [] {
      assert rows[..1] == [] + [rows[0]];
      BytesSnoc([], rows[0]);
      if Fit(rows) > 0 { PrefixBytesMonotone(rows, 1, Fit(rows)); }
    }
  }

  /**
   * What a request is answered: an error exactly for changed columns, a broken query, a budget that
   * refuses the first row, a first row past 1048576 bytes or an offset past 32 bits, and otherwise a
   * page, empty only when there are no rows to hand out. Rows decoded before a break stay queued, and a
   * row that is too large stays where it is.
   */
  lemma AnswerIff(s: Sys, a: Action)
    requires a.Request? && Enabled(s, a)
    ensures var q, t := s.queue, Answer(s, a);
      var queried := q.pending == [];
      var rows := if queried then Selected(s)[..Admitted(a.fits)] else q.pending;
      if queried && !a.sameColumns then t == Turn(q, Err(SchemaChanged))
      else if queried && a.broken then t.reply == Err(Interrupted) && t.queue.pending == rows && t.queue.nextOffset == q.nextOffset
      else if queried && a.arrived > 0 && !a.fits[0] then t == Turn(q, Err(BudgetExceeded))
      else if rows != [] && rows[0].json > 1_048_576 then
        t.reply == Err(RowTooLarge) && t.queue.pending == rows && t.queue.nextOffset == q.nextOffset
      else if t.queue.nextOffset > 4_294_967_295 then t.reply == Err(OffsetOutOfRange)
      else t.reply.Ok? && (t.reply.value.rows == [] <==> rows == [])
  {
    hide Fit, Bytes, Slice;
    var q, n := s.queue, Admitted(a.fits);
    if q.pending != [] {
      FitsNone(q.pending);
    } else {
      assert Selected(s)[..a.arrived][..n] == Selected(s)[..n];
      assert q.pending + Selected(s)[..n] == Selected(s)[..n];
      FitsNone(Selected(s)[..n]);
    }
  }

  /** How many rows leave the queue with a request: what fits of the queue, or of the rows it decodes. */
  function Handout(s: Sys, a: Action): nat
    requires a.Request? && Enabled(s, a)
  {
    if s.queue.pending != [] then Fit(s.queue.pending)
    else if !a.sameColumns || a.broken then 0
    else Fit(Selected(s)[..Admitted(a.fits)])
  }

  lemma SplitAdvances(q: Queue, rows: seq<Row>, moreAfter: bool)
    ensures Split(q, rows, moreAfter).queue.nextOffset == q.nextOffset + Fit(rows)
  {
    hide FitFrom;
  }

  lemma HandoutMoves(s: Sys, a: Action)
    requires QueueInv(s) && a.Request? && Enabled(s, a)
    ensures Answer(s, a).queue.nextOffset == s.queue.nextOffset + Handout(s, a)
  {
    hide Split, Fit;
    var q := s.queue;
    if q.pending != [] {
      SplitAdvances(q, q.pending, q.moreAfterPending);
    } else if a.sameColumns && !a.broken {
      var n := Admitted(a.fits);
      var rows := Selected(s)[..n];
      assert Selected(s)[..a.arrived][..n] == rows && q.pending + rows == rows;
      SplitNothing(q, q.moreAfterPending);
      SplitAdvances(Pushed(q, rows).(pending := []), rows, n < a.arrived || a.arrived == RESULT_PAGE_ROWS);
      SplitAdvances(q.(pending := []), rows, n < a.arrived || a.arrived == RESULT_PAGE_ROWS);
    }
  }

  /**
   * A request keeps what was handed out gap-free exactly when no rows leave the queue with it,
   * or the offset after them fits 32 bits and the reply is delivered.
   */
  lemma RequestGapFreeIff(s: Sys, a: Action)
    requires QueueInv(s) && GapFree(s) && a.Request? && Enabled(s, a)
    ensures GapFree(Step(s, a)) <==>
      Handout(s, a) == 0 || (s.queue.nextOffset + Handout(s, a) <= 4_294_967_295 && a.delivered)
  {
    hide Answer, Handout;
    var s', h := Step(s, a), Handout(s, a);
    RequestTurn(s, a);
    HandoutMoves(s, a);
    SliceSplit(s.table, s.base, s.queue.nextOffset, s.queue.nextOffset + h);
    if h > 0 && !(s.queue.nextOffset + h <= U32_MAX && a.delivered) {
      assert |s'.handed| < |Slice(s.table, s.base, s.queue.nextOffset + h)|;
    }
  }

  lemma RequestKeeps(s: Sys, a: Action)
    requires QueueInv(s) && (!s.lost ==> GapFree(s)) && a.Request? && Enabled(s, a)
    ensures QueueInv(Step(s, a)) && (!Step(s, a).lost ==> GapFree(Step(s, a)))
  {
    RequestTurn(s, a);
    ReceivedKeeps(s, Answer(s, a), a.delivered);
  }

  lemma ReceivedKeeps(s: Sys, t: Turn, delivered: bool)
    requires s.base <= s.queue.nextOffset && (!s.lost ==> GapFree(s)) && HonestTurn(s, t)
    ensures QueueInv(Received(s, t, delivered))
    ensures !Received(s, t, delivered).lost ==> GapFree(Received(s, t, delivered))
  {
    SliceSplit(s.table, s.base, s.queue.nextOffset, t.queue.nextOffset);
  }

  /** A deleted row that was shown takes one place from the table, the page list and the offset. */
  lemma DeleteKeepsQueue(s: Sys, pos: nat)
    requires QueueInv(s) && Behind(s, Delete(pos))
    ensures QueueInv(Edited(s, Delete(pos)))
  {
    hide RemoveAt;
    var q := s.queue;
    if q.pending != [] { TailAfterDelete(s.table, pos, q.nextOffset, q.nextOffset + |q.pending|); }
  }

  lemma DeleteKeepsGapFree(s: Sys, pos: nat)
    requires GapFree(s) && Behind(s, Delete(pos))
    ensures GapFree(Edited(s, Delete(pos)))
  {
    SliceDelete(s.table, s.base, s.queue.nextOffset, pos);
  }

  lemma InsertKeepsQueue(s: Sys, pos: nat, row: Row)
    requires QueueInv(s) && Behind(s, Insert(pos, row))
    ensures QueueInv(Edited(s, Insert(pos, row)))
  {
    hide InsertAt;
    var q := s.queue;
    if q.pending != [] { TailAfterInsert(s.table, pos, row, q.nextOffset, q.nextOffset + |q.pending|); }
  }

  lemma InsertKeepsGapFree(s: Sys, pos: nat, row: Row)
    requires GapFree(s) && Behind(s, Insert(pos, row))
    ensures GapFree(Edited(s, Insert(pos, row)))
  {
    hide InsertAt, Slice;
    if pos < s.base {
      SliceAfterInsert(s.table, s.base, s.queue.nextOffset, pos, row);
    } else {
      SliceInsert(s.table, s.base, s.queue.nextOffset, pos, row);
    }
  }

  /** One edit moves the offset by one and never below the rows shown before it. */
  lemma EditMoves(s: Sys, e: Edit)
    requires QueueInv(s) && (!s.lost ==> GapFree(s)) && Behind(s, e)
    ensures var s' := Edited(s, e);
      && QueueInv(s') && (!s'.lost ==> GapFree(s')) && s'.lost == s.lost
      && s'.queue == s.queue.(nextOffset := if e.Insert? then s.queue.nextOffset + 1 else s.queue.nextOffset - 1)
      && (e.Delete? ==> s.queue.nextOffset > 0)
  {
    match e
    case Delete(pos) =>
      DeleteKeepsQueue(s, pos);
      if !s.lost { DeleteKeepsGapFree(s, pos); }
    case Insert(pos, row) =>
      InsertKeepsQueue(s, pos, row);
      if !s.lost { InsertKeepsGapFree(s, pos, row); }
  }

  lemma {:induction false} EditsKeep(s: Sys, edits: seq<Edit>)
    requires QueueInv(s) && (!s.lost ==> GapFree(s)) && AllBehind(s, edits)
    ensures QueueInv(EditedAll(s, edits))
    ensures !s.lost ==> GapFree(EditedAll(s, edits))
    ensures EditedAll(s, edits).lost == s.lost
    ensures |edits| - Inserts(edits) <= s.queue.nextOffset + Inserts(edits)
    ensures EditedAll(s, edits).queue == Shifted(s.queue, Inserts(edits), |edits| - Inserts(edits))
    decreases |edits|
  {
    if |edits| > 0 {
      EditMoves(s, edits[0]);
      EditsKeep(Edited(s, edits[0]), edits[1..]);
    }
  }

  /** Moving the offset once by the totals agrees with moving it edit by edit. */
  lemma CommitKeeps(s: Sys, edits: seq<Edit>)
    requires QueueInv(s) && (!s.lost ==> GapFree(s)) && AllBehind(s, edits)
    ensures Committed(s, edits) == EditedAll(s, edits)
    ensures QueueInv(Committed(s, edits)) && (!Committed(s, edits).lost ==> GapFree(Committed(s, edits)))
  {
    EditsKeep(s, edits);
  }

  lemma StepKeeps(s: Sys, a: Action)
    requires QueueInv(s) && (!s.lost ==> GapFree(s)) && Enabled(s, a)
    ensures QueueInv(Step(s, a)) && (!Step(s, a).lost ==> GapFree(Step(s, a)))
  {
    match a
    case Request(_, _, _, _, _) => RequestKeeps(s, a);
    case Commit(edits) => CommitKeeps(s, edits);
  }

  lemma {:induction false} RunKeeps(s: Sys, actions: seq<Action>)
    requires QueueInv(s) && (!s.lost ==> GapFree(s))
    ensures QueueInv(Run(s, actions)) && (!Run(s, actions).lost ==> GapFree(Run(s, actions)))
    decreases |actions|
  {
    if |actions| > 0 {
      if Enabled(s, actions[0]) {
        StepKeeps(s, actions[0]);
        RunKeeps(Step(s, actions[0]), actions[1..]);
      } else {
        RunKeeps(s, actions[1..]);
      }
    }
  }

  /** From a complete first page, every run of requests and commits stays gap-free. */
  lemma EveryRunIsGapFree(table: seq<Row>, offset: nat, limit: nat, actions: seq<Action>)
    ensures var s := Run(Opened(table, offset, limit), actions);
      QueueInv(s) && (!s.lost ==> GapFree(s))
  {
    RunKeeps(Opened(table, offset, limit), actions);
  }

  /** A reply at any point of any run: `has_more` tells the truth both ways. */
  lemma EveryReplyIsHonest(table: seq<Row>, offset: nat, limit: nat, actions: seq<Action>, a: Action)
    requires a.Request? && Enabled(Run(Opened(table, offset, limit), actions), a)
    ensures var s := Run(Opened(table, offset, limit), actions);
      var t := Answer(s, a);
      t.reply.Ok? ==>
        && t.reply.value.rows == Slice(s.table, s.queue.nextOffset, t.reply.value.nextOffset)
        && (t.reply.value.hasMore ==> t.reply.value.rows != [])
        && (!t.reply.value.hasMore ==> t.reply.value.nextOffset >= |s.table|)
  {
    RunKeeps(Opened(table, offset, limit), actions);
    RequestTurn(Run(Opened(table, offset, limit), actions), a);
  }

  /**
   * has_more exactly: rows stay queued, or there was more after the queue it served, or, for a query,
   * the budget refused a row or the server filled the page; the same is remembered for what is queued.
   */
  lemma HasMoreIff(s: Sys, a: Action)
    requires a.Request? && Enabled(s, a) && Answer(s, a).reply.Ok?
    ensures var t := Answer(s, a);
      var beyond := if s.queue.pending != [] then s.queue.moreAfterPending
                    else (exists i :: 0 <= i < |a.fits| && !a.fits[i]) || a.arrived == 200;
      && (t.reply.value.hasMore <==> t.queue.pending != [] || beyond)
      && (t.queue.moreAfterPending <==> beyond)
  {
    hide Fit;
    var n := Admitted(a.fits);
    if n < |a.fits| { assert !a.fits[n]; }
  }

  /** Once a final page is out and no page was lost, the client holds the table from `base` on. */
  lemma FinalPageCompletes(table: seq<Row>, offset: nat, limit: nat, actions: seq<Action>, a: Action)
    requires a.Request? && Enabled(Run(Opened(table, offset, limit), actions), a)
    requires var t := Answer(Run(Opened(table, offset, limit), actions), a);
      t.reply.Ok? && !t.reply.value.hasMore && a.delivered
    requires !Run(Opened(table, offset, limit), actions).lost
    ensures var s := Run(Opened(table, offset, limit), actions);
      Step(s, a).handed == Slice(s.table, s.base, s.base + |s.table|)
  {
    hide *;
    RunFromOpened(table, offset, limit, actions);
    FinalTurnCompletes(Run(Opened(table, offset, limit), actions), a);
  }

  lemma RunFromOpened(table: seq<Row>, offset: nat, limit: nat, actions: seq<Action>)
    ensures var s := Run(Opened(table, offset, limit), actions);
      QueueInv(s) && (!s.lost ==> GapFree(s))
  {
    RunKeeps(Opened(table, offset, limit), actions);
  }

  lemma FinalTurnCompletes(s: Sys, a: Action)
    requires QueueInv(s) && GapFree(s) && !s.lost && a.Request? && Enabled(s, a) && a.delivered
    requires Answer(s, a).reply.Ok? && !Answer(s, a).reply.value.hasMore
    ensures Step(s, a).handed == Slice(s.table, s.base, s.base + |s.table|)
  {
    hide Answer, Enabled;
    var next, next' := s.queue.nextOffset, Answer(s, a).queue.nextOffset;
    RequestTurn(s, a);
    SliceSplit(s.table, s.base, next, next');
    SlicePastEnd(s.table, s.base, next', s.base + |s.table|);
  }

  lemma SlicePastEnd(table: seq<Row>, a: nat, b: nat, c: nat)
    requires a <= b && a <= c && b >= |table| && c >= |table|
    ensures Slice(table, a, b) == Slice(table, a, c)
  {
  }

  /** The client, given the inserted row by the commit, holds the table up to the moved offset. */
  ghost predicate StillGapFree(s: Sys, pos: nat, row: Row, handed: seq<Row>)
    requires pos <= |s.table|
  {
    && multiset(handed) == multiset(s.handed) + multiset{row}
    && GapFree(Sys(InsertAt(s.table, pos, row), s.base, handed, Shifted(s.queue, 1, 0), false))
  }

  lemma ShownInsertStays(s: Sys, pos: nat, row: Row)
    requires QueueInv(s) && GapFree(s)
    requires s.base <= pos <= s.queue.nextOffset && pos <= |s.table|
    ensures StillGapFree(s, pos, row, Edited(s, Insert(pos, row)).handed)
  {
    hide Slice;
    InsertKeepsGapFree(s, pos, row);
    var at := pos - s.base;
    SliceInsert(s.table, s.base, s.queue.nextOffset, pos, row);
    assert s.handed == s.handed[..at] + s.handed[at..];
  }

  lemma PastInsertMissing(s: Sys, pos: nat, row: Row, handed: seq<Row>)
    requires QueueInv(s) && GapFree(s)
    requires s.queue.nextOffset < pos <= |s.table| && row !in s.table
    ensures !StillGapFree(s, pos, row, handed)
  {
    var next := s.queue.nextOffset;
    var window := Slice(InsertAt(s.table, pos, row), s.base, next + 1);
    assert window == s.table[s.base..next + 1];
    assert row !in window;
    assert row in multiset(handed) <==> row in handed;
  }

  /**
   * The offset shift assumes inserted rows sort among the rows already shown: one that sorts
   * past them moves the offset over a row nobody was given.
   */
  lemma InsertShiftGapFreeIff(s: Sys, pos: nat, row: Row)
    requires QueueInv(s) && GapFree(s)
    requires s.base <= pos <= |s.table| && row !in s.table
    ensures (exists handed :: StillGapFree(s, pos, row, handed)) <==> pos <= s.queue.nextOffset
  {
    if pos <= s.queue.nextOffset {
      ShownInsertStays(s, pos, row);
    } else {
      forall handed ensures !StillGapFree(s, pos, row, handed) {
        PastInsertMissing(s, pos, row, handed);
      }
    }
  }

  /** Every page on the way is delivered and the table never outgrows 32 bits. */
  predicate Undisturbed(s: Sys, actions: seq<Action>)
    decreases |actions|
  {
    |s.table| <= U32_MAX && (|actions| == 0 || (
      if !Enabled(s, actions[0]) then Undisturbed(s, actions[1..])
      else (actions[0].Request? ==> actions[0].delivered) && Undisturbed(Step(s, actions[0]), actions[1..])))
  }

  lemma {:induction false} UndisturbedLosesNothing(s: Sys, actions: seq<Action>)
    requires QueueInv(s) && GapFree(s) && !s.lost && Undisturbed(s, actions)
    ensures GapFree(Run(s, actions))
    decreases |actions|
  {
    hide HonestTurn, Answer, Committed;
    if |actions| > 0 {
      var a := actions[0];
      if Enabled(s, a) {
        StepKeeps(s, a);
        if a.Request? { SmallStep(s, a); } else { CommitKeeps(s, a.edits); EditsKeep(s, a.edits); }
        UndisturbedLosesNothing(Step(s, a), actions[1..]);
      } else {
        UndisturbedLosesNothing(s, actions[1..]);
      }
    }
  }

  lemma SmallStep(s: Sys, a: Action)
    requires QueueInv(s) && a.Request? && Enabled(s, a) && a.delivered && |s.table| <= U32_MAX && !s.lost
    ensures !Step(s, a).lost
  {
    hide Answer;
    RequestTurn(s, a);
  }

  /** Tables of at most 2^32 - 1 rows lose nothing while every reply is delivered. */
  lemma SmallTablesLoseNothing(table: seq<Row>, offset: nat, limit: nat, actions: seq<Action>)
    requires Undisturbed(Opened(table, offset, limit), actions)
    ensures GapFree(Run(Opened(table, offset, limit), actions))
  {
    UndisturbedLosesNothing(Opened(table, offset, limit), actions);
  }

  lemma OneRowFits(row: Row)
    requires row.json <= MAX_FETCH_BYTES
    ensures Fit([row]) == 1
  {
    BytesSnoc([], row);
    assert [row][..1] == [] + [row] && [row][..0] == [];
    assert LongestFit([row], 1);
    LongestFitUnique([row], 1, Fit([row]));
  }

  /** The next request after a page of one row, answered with the one row that is left. */
  lemma LastRowOffered(table: seq<Row>, offset: nat, delivered: bool)
    requires |table| == offset + 2 && table[offset + 1].json <= MAX_FETCH_BYTES
    ensures var s := Opened(table, offset, 1);
      var a := Request(true, 1, [true], false, delivered);
      QueueInv(s) && GapFree(s) && Enabled(s, a) && Handout(s, a) == 1
  {
    var s := Opened(table, offset, 1);
    assert Selected(s) == [table[offset + 1]];
    assert Admitted([true]) == 1;
    assert Selected(s)[..1] == [table[offset + 1]];
    OneRowFits(table[offset + 1]);
  }

  /** The row at offset 2^32 - 1 is lost: the offset moves on and the reply is an error. */
  lemma OffsetPast32BitsLosesRows(row: Row)
    requires row.json <= MAX_FETCH_BYTES
    ensures var s := Opened(seq(U32_MAX + 1, _ => row), U32_MAX - 1, 1);
      var a := Request(true, 1, [true], false, true);
      Enabled(s, a) && !GapFree(Run(s, [a]))
  {
    hide GapFree, Handout;
    var s := Opened(seq(U32_MAX + 1, _ => row), U32_MAX - 1, 1);
    var a := Request(true, 1, [true], false, true);
    LastRowOffered(s.table, U32_MAX - 1, true);
    RequestGapFreeIff(s, a);
    assert Run(s, [a]) == Run(Step(s, a), []);
  }

  /** So is a page whose request was dropped: the offset has moved on when the reply finds nobody. */
  lemma UndeliveredPageLosesRows(first: Row, row: Row)
    requires row.json <= MAX_FETCH_BYTES
    ensures var s := Opened([first, row], 0, 1);
      var a := Request(true, 1, [true], false, false);
      Enabled(s, a) && !GapFree(Run(s, [a]))
  {
    hide GapFree, Handout;
    var s := Opened([first, row], 0, 1);
    var a := Request(true, 1, [true], false, false);
    LastRowOffered(s.table, 0, false);
    RequestGapFreeIff(s, a);
    assert Run(s, [a]) == Run(Step(s, a), []);
  }
}
