module Chunker {
  // Cutting a result into row chunks: the receive loop and flush_chunk of session_actor.rs.

  import opened Wrappers
  import opened Rows

  const FIRST_CHUNK_ROWS: nat := 50
  const CHUNK_ROWS: nat := 100

  /** One server row, and whether the memory budget takes it. */
  datatype Item = Item(row: Row, fits: bool)

  /** How one wait for a send permit ends: cancelled, timed out, or granted and then delivered or not. */
  datatype Wait = CancelWins | TimesOut | Granted(delivered: bool)

  datatype Chunk = Chunk(sequence: nat, rows: seq<Row>)

  /**
   * What flush_chunk mutates: the buffer, the numbered chunks handed to the sink, the cancel
   * flag. `failedAt` is how many chunks had gone out when a flush first failed.
   */
  datatype Sender = Sender(buf: seq<Row>, sent: seq<Chunk>, cancelled: bool, waits: nat, failedAt: Option<nat>)

  function RowsOf(items: seq<Item>): seq<Row> {
    seq(|items|, i requires 0 <= i < |items| => items[i].row)
  }

  function Concat(chunks: seq<Chunk>): seq<Row> {
    if |chunks| == 0 then [] else Concat(chunks[..|chunks| - 1]) + chunks[|chunks| - 1].rows
  }

  lemma ConcatSnoc(chunks: seq<Chunk>, c: Chunk)
    ensures Concat(chunks + [c]) == Concat(chunks) + c.rows
  {
    assert (chunks + [c])[..|chunks|] == chunks;
  }

  lemma {:induction false} ConcatPrefix(chunks: seq<Chunk>, k: nat)
    requires k <= |chunks|
    ensures Concat(chunks[..k]) <= Concat(chunks)
  {
    if k < |chunks| {
      ConcatPrefix(chunks[..|chunks| - 1], k);
      assert chunks[..|chunks| - 1][..k] == chunks[..k];
    } else {
      assert chunks[..k] == chunks;
    }
  }

  /** Most rows chunk `sequence` may carry. */
  function RowLimit(paged: bool, sequence: nat): nat {
    if paged then RESULT_PAGE_ROWS else if sequence == 0 then FIRST_CHUNK_ROWS else CHUNK_ROWS
  }

  ghost predicate GoodChunk(paged: bool, c: Chunk, sequence: nat) {
    && c.sequence == sequence
    && 0 < |c.rows| <= RowLimit(paged, sequence)
    && Bytes(c.rows) <= MAX_FETCH_BYTES
  }

  ghost predicate GoodChunks(paged: bool, chunks: seq<Chunk>) {
    forall i :: 0 <= i < |chunks| ==> GoodChunk(paged, chunks[i], i)
  }

  function Failed(s: Sender): Sender {
    s.(cancelled := true, failedAt := if s.failedAt.None? then Some(|s.sent|) else s.failedAt)
  }

  /** Sends one chunk. False means no chunk will follow: cancelled, timed out or consumer gone. */
  method FlushChunk(s: Sender, wait: Wait) returns (s': Sender, ok: bool)
    ensures ok <==> !s.cancelled && wait == Granted(true)
    ensures s'.waits == s.waits + 1
    ensures s'.cancelled <==> !ok
    ensures s'.failedAt == if ok || s.failedAt.Some? then s.failedAt else Some(|s'.sent|)
    ensures if s.cancelled || !wait.Granted?
            then s'.sent == s.sent && s'.buf == s.buf
            else s'.sent == s.sent + [Chunk(|s.sent|, s.buf)] && s'.buf == []
  {
    s' := s.(waits := s.waits + 1);
    if s.cancelled {
      return Failed(s'), false;
    }
    match wait {
      case CancelWins =>
        return Failed(s'), false;
      case TimesOut =>
        return Failed(s'), false;
      case Granted(delivered) =>
        s' := s'.(sent := s.sent + [Chunk(|s.sent|, s.buf)], buf := []);
        if !delivered {
          s' := Failed(s');
        }
        ok := delivered;
    }
  }

  /** Whether the item at this place may be taken: the budget takes it, it fits a transfer, and the row cap lets it. */
  predicate Admissible(item: Item, at: nat, paged: bool, maxRows: nat) {
    item.fits && item.row.json <= 1_048_576 && (paged || at < maxRows)
  }

  /** The items up to `k`, and no more, may be taken. */
  ghost predicate CutsAt(items: seq<Item>, paged: bool, maxRows: nat, k: nat) {
    && k <= |items|
    && (forall j :: 0 <= j < k ==> Admissible(items[j], j, paged, maxRows))
    && (k < |items| ==> !Admissible(items[k], k, paged, maxRows))
  }

  /** There is only one such place. */
  lemma CutsAtOnce(items: seq<Item>, paged: bool, maxRows: nat, a: nat, b: nat)
    requires CutsAt(items, paged, maxRows, a) && CutsAt(items, paged, maxRows, b)
    ensures a == b
  {
  }

  /** Chunk i is full, or the next row would not fit it, or it ends the first page of a paged result. */
  ghost predicate FullChunk(paged: bool, rows: seq<Row>, chunks: seq<Chunk>, i: nat)
    requires i < |chunks|
  {
    var c, end := chunks[i].rows, |Concat(chunks[..i + 1])|;
    || |c| == (if paged then 200 else if i == 0 then 50 else 100)
    || (end < |rows| && Bytes(c) + rows[end].json > 1_048_576)
    || (paged && end == 200)
  }

  ghost predicate FullChunks(paged: bool, rows: seq<Row>, chunks: seq<Chunk>) {
    forall i :: 0 <= i < |chunks| ==> FullChunk(paged, rows, chunks, i)
  }

  /** What is streamed of the k rows taken: all of them, or the first page. */
  function Streamable(paged: bool, k: nat): nat {
    if paged && k > 200 then 200 else k
  }

  /**
   * From the items alone: every row before the first item that may not be taken is taken, and
   * sent unless the stream fails; the result is truncated exactly when there is such an item;
   * after an error less than a chunk is left unsent.
   */
  ghost predicate TakesAll(items: seq<Item>, failed: bool, paged: bool, maxRows: nat, o: Outcome, k: nat) {
    var rows, n := RowsOf(items), |Concat(o.sent)|;
    && CutsAt(items, paged, maxRows, k)
    && (o.truncated <==> k < |items|)
    && (paged ==> o.retained == rows[..k])
    && Concat(o.sent) <= rows[..Streamable(paged, k)]
    && (!failed ==> Concat(o.sent) == rows[..Streamable(paged, k)])
    && Streamable(paged, k) - n < (if paged then 200 else if o.sent == [] then 50 else 100)
    && Bytes(rows[n..Streamable(paged, k)]) <= 1_048_576
  }

  /** A chunk ends early only where all rows that are streamed end. */
  ghost predicate EndsFull(items: seq<Item>, failed: bool, paged: bool, maxRows: nat, o: Outcome) {
    forall i :: 0 <= i < |o.sent| ==>
      || FullChunk(paged, RowsOf(items), o.sent, i)
      || (i == |o.sent| - 1 && !failed
          && exists k :: CutsAt(items, paged, maxRows, k) && |Concat(o.sent)| == Streamable(paged, k))
  }

  /** Chunks go out on granted permits, and the flush that failed is the first that was not granted and delivered. */
  ghost predicate Permitted(wait: nat -> Wait, chunks: nat, failedAt: Option<nat>) {
    if failedAt.None? then forall k :: 0 <= k < chunks ==> wait(k) == Granted(true)
    else exists k :: 0 <= k <= chunks && wait(k) != Granted(true) && forall j :: 0 <= j < k ==> wait(j) == Granted(true)
  }

  datatype Outcome = Outcome(sent: seq<Chunk>, retained: seq<Row>, total: nat, truncated: bool, failedAt: Option<nat>)

  /** What streaming owes its consumer, whatever the rows, the budget, the window and the server did. */
  ghost predicate Faithful(items: seq<Item>, failed: bool, paged: bool, maxRows: nat, o: Outcome) {
    var rows, sent := RowsOf(items), Concat(o.sent);
    && GoodChunks(paged, o.sent)
    && (o.failedAt.Some? ==> o.failedAt.value == |o.sent|)
    && sent <= rows
    && (!paged ==> o.retained == [] && o.total == |sent| <= maxRows)
    && (paged ==>
          && o.retained <= rows
          && sent <= o.retained
          && |sent| <= RESULT_PAGE_ROWS
          && o.total == (if |o.retained| > RESULT_PAGE_ROWS then |o.retained| else |sent|)
          && (|o.retained| > RESULT_PAGE_ROWS ==> sent == o.retained[..RESULT_PAGE_ROWS]))
    && (!o.truncated ==> o.failedAt.None? && (paged ==> o.retained == rows) && (!paged && !failed ==> sent == rows))
    && (paged && !failed && o.failedAt.None? ==>
          |sent| == if |o.retained| > RESULT_PAGE_ROWS then RESULT_PAGE_ROWS else |o.retained|)
    && (paged && failed && o.failedAt.None? && |o.retained| < RESULT_PAGE_ROWS && Bytes(o.retained) <= MAX_FETCH_BYTES ==>
          o.sent == [])
    && (o.truncated && o.failedAt.None? ==> (if paged then |o.retained| else |sent|) < |rows|)
  }

  /** The locals of the receive loop. */
  datatype Intake = Intake(
    sender: Sender, retained: seq<Row>, total: nat, chunkBytes: nat, truncated: bool, receiving: bool)

  /** Every row given to the sink or still buffered, in order. */
  function Out(x: Intake): seq<Row> {
    Concat(x.sender.sent) + x.sender.buf
  }

  /** Chunks sent so far are good, and the buffer can still become one. */
  ghost predicate Shape(paged: bool, x: Intake) {
    var s := x.sender;
    && GoodChunks(paged, s.sent)
    && Bytes(s.buf) <= MAX_FETCH_BYTES
    && |s.buf| <= RowLimit(paged, |s.sent|)
    && (!x.receiving ==> x.truncated)
    && (x.receiving ==> !s.cancelled && x.chunkBytes == Bytes(s.buf))
    && (s.failedAt.Some? ==> s.cancelled && s.failedAt.value == |s.sent|)
  }

  /**
   * A paged result sends nothing before its rows, `more` bytes to come included, pass the
   * transfer limit or make a page, unless a flush failed.
   */
  ghost predicate Held(paged: bool, x: Intake, more: nat) {
    paged && x.sender.failedAt.None? && x.total < RESULT_PAGE_ROWS && Bytes(Out(x)) + more <= MAX_FETCH_BYTES ==>
      x.sender.sent == []
  }

  /** How the rows taken relate to the `i` rows the server has sent. */
  ghost predicate Taken(items: seq<Item>, i: nat, paged: bool, maxRows: nat, x: Intake)
    requires i <= |items|
  {
    var rows := RowsOf(items);
    && x.total <= i
    && (forall j :: 0 <= j < x.total ==> Admissible(items[j], j, paged, maxRows))
    && (x.sender.failedAt.None? ==> |x.sender.buf| < RowLimit(paged, |x.sender.sent|))
    && (!paged ==> x.retained == [] && Out(x) == rows[..x.total] && x.total <= maxRows)
    && (paged ==>
          && x.retained == rows[..x.total]
          && Out(x) == rows[..if x.total > RESULT_PAGE_ROWS then RESULT_PAGE_ROWS else x.total]
          && (x.total > RESULT_PAGE_ROWS || (x.total == RESULT_PAGE_ROWS && x.receiving) ==> x.sender.buf == []))
    && (!x.truncated ==> x.total == i)
    && (x.truncated && x.sender.failedAt.None? ==>
          x.total < i && !Admissible(items[x.total], x.total, paged, maxRows))
    && (x.truncated && x.receiving ==> !paged && x.total >= maxRows)
  }

  /** Every chunk out so far was full, and the permits went as they were granted. */
  ghost predicate Orderly(rows: seq<Row>, paged: bool, wait: nat -> Wait, s: Sender) {
    && FullChunks(paged, rows, s.sent)
    && (s.failedAt.None? ==> s.waits == |s.sent|)
    && (s.cancelled <==> s.failedAt.Some?)
    && Permitted(wait, |s.sent|, s.failedAt)
  }

  lemma FullSnoc(paged: bool, rows: seq<Row>, chunks: seq<Chunk>, c: Chunk)
    requires FullChunks(paged, rows, chunks)
    requires var end := |Concat(chunks)| + |c.rows|;
      || |c.rows| == (if paged then 200 else if chunks == [] then 50 else 100)
      || (end < |rows| && Bytes(c.rows) + rows[end].json > 1_048_576)
      || (paged && end == 200)
    ensures FullChunks(paged, rows, chunks + [c])
  {
    var all := chunks + [c];
    LastFull(paged, rows, chunks, c);
    hide FullChunk;
    forall i | 0 <= i < |all| ensures FullChunk(paged, rows, all, i) {
      if i < |chunks| { StaysFull(paged, rows, chunks, c, i); }
    }
  }

  lemma StaysFull(paged: bool, rows: seq<Row>, chunks: seq<Chunk>, c: Chunk, i: nat)
    requires i < |chunks| && FullChunk(paged, rows, chunks, i)
    ensures FullChunk(paged, rows, chunks + [c], i)
  {
    hide Concat, Bytes;
    assert (chunks + [c])[..i + 1] == chunks[..i + 1];
  }

  lemma LastFull(paged: bool, rows: seq<Row>, chunks: seq<Chunk>, c: Chunk)
    requires var end := |Concat(chunks)| + |c.rows|;
      || |c.rows| == (if paged then 200 else if chunks == [] then 50 else 100)
      || (end < |rows| && Bytes(c.rows) + rows[end].json > 1_048_576)
      || (paged && end == 200)
    ensures FullChunk(paged, rows, chunks + [c], |chunks|)
  {
    ConcatSnoc(chunks, c);
    hide Concat, Bytes;
    assert (chunks + [c])[..|chunks| + 1] == chunks + [c];
  }

  /** One more flush, answered as the next wait says, keeps the account of the permits. */
  lemma PermittedNext(wait: nat -> Wait, s: Sender, s': Sender)
    requires (s.failedAt.None? ==> s.waits == |s.sent|) && Permitted(wait, |s.sent|, s.failedAt)
    requires |s.sent| <= |s'.sent| <= |s.sent| + 1
    requires s.failedAt.Some? ==> s'.failedAt.Some?
    requires s.failedAt.None? ==> (s'.failedAt.None? <==> wait(s.waits) == Granted(true))
    requires s'.failedAt.None? ==> |s'.sent| == |s.sent| + 1
    ensures Permitted(wait, |s'.sent|, s'.failedAt)
  {
  }

  /** Flushes the buffer; a failed flush ends the intake. No row moves out of order or is lost. */
  method Flush(paged: bool, x: Intake, wait: Wait) returns (x': Intake)
    requires Shape(paged, x) && x.sender.buf != []
    ensures Shape(paged, x') && Out(x') == Out(x)
    ensures x'.retained == x.retained && x'.total == x.total
    ensures x'.receiving ==> x.receiving && x'.sender.buf == [] && x'.truncated == x.truncated
    ensures !x'.receiving ==> x'.truncated
    ensures x'.truncated && x'.sender.failedAt.None? ==> x.truncated && x.sender.failedAt.None?
    ensures x'.sender.failedAt.None? ==> x'.sender.buf == []
    ensures x'.sender.cancelled ==> !x'.receiving
    ensures x'.sender.failedAt.None? ==> x.sender.failedAt.None? && x'.receiving == x.receiving
    ensures !x.receiving ==> !x'.receiving
    ensures |x'.sender.buf| == 0 || |x'.sender.sent| == |x.sender.sent|
    ensures x.sender.cancelled ==> x'.sender.sent == x.sender.sent
    ensures x'.sender.sent == x.sender.sent || x'.sender.sent == x.sender.sent + [Chunk(|x.sender.sent|, x.sender.buf)]
    ensures x'.sender.waits == x.sender.waits + 1
    ensures x'.sender.failedAt.None? ==> |x'.sender.sent| == |x.sender.sent| + 1
    ensures x'.sender.failedAt.None? <==> x.sender.failedAt.None? && !x.sender.cancelled && wait == Granted(true)
  {
    FlushedOut(paged, x);
    var s, ok := FlushChunk(x.sender, wait);
    x' := x.(sender := s, chunkBytes := 0);
    if !ok {
      x' := x'.(receiving := false, truncated := true);
    }
  }

  /** Handing the buffer over as the next chunk moves no row. */
  lemma FlushedOut(paged: bool, x: Intake)
    requires Shape(paged, x) && x.sender.buf != []
    ensures GoodChunks(paged, x.sender.sent + [Chunk(|x.sender.sent|, x.sender.buf)])
    ensures Concat(x.sender.sent + [Chunk(|x.sender.sent|, x.sender.buf)]) + [] == Out(x)
    ensures Bytes([]) == 0
  {
    ConcatSnoc(x.sender.sent, Chunk(|x.sender.sent|, x.sender.buf));
    assert Sizes([]) == [];
  }

  /** The row that does not fit the current chunk starts the next one. */
  method MakeRoom(ghost rows: seq<Row>, paged: bool, x: Intake, row: Row, wait: nat -> Wait) returns (x': Intake)
    requires Shape(paged, x) && x.receiving && row.json <= MAX_FETCH_BYTES
    requires |x.sender.buf| < RowLimit(paged, |x.sender.sent|) && Held(paged, x, 0)
    requires Orderly(rows, paged, wait, x.sender)
    requires x.sender.buf != [] ==> |Out(x)| < |rows| && rows[|Out(x)|] == row
    ensures Shape(paged, x') && Out(x') == Out(x) && Orderly(rows, paged, wait, x'.sender)
    ensures Held(paged, x', if x'.receiving then row.json else 0)
    ensures x'.retained == x.retained && x'.total == x.total
    ensures x'.receiving ==> x'.truncated == x.truncated && Bytes(x'.sender.buf) + row.json <= MAX_FETCH_BYTES
    ensures x'.receiving ==> |x'.sender.buf| < RowLimit(paged, |x'.sender.sent|)
    ensures x'.sender.failedAt.None? ==> x'.receiving
    ensures x.sender.buf == [] ==> x' == x
    ensures x'.truncated && x'.sender.failedAt.None? ==> x.truncated
  {
    x' := x;
    assert x.sender.sent == [] ==> Out(x) == x.sender.buf;
    assert Bytes([]) == 0 by { assert Sizes([]) == []; }
    hide FullChunks, Permitted, GoodChunks, Concat, Bytes;
    if x.sender.buf != [] && x.chunkBytes + row.json > MAX_FETCH_BYTES {
      FullSnoc(paged, rows, x.sender.sent, Chunk(|x.sender.sent|, x.sender.buf));
      x' := Flush(paged, x, wait(x.sender.waits));
      PermittedNext(wait, x.sender, x'.sender);
    }
  }

  /** Buffers one row and flushes once the chunk or the first page is full. */
  method Buffer(ghost rows: seq<Row>, paged: bool, x: Intake, row: Row, wait: nat -> Wait) returns (x': Intake)
    requires Shape(paged, x) && x.receiving && Bytes(x.sender.buf) + row.json <= MAX_FETCH_BYTES
    requires |x.sender.buf| < RowLimit(paged, |x.sender.sent|) && Held(paged, x, row.json)
    requires Orderly(rows, paged, wait, x.sender)
    requires paged ==> |x.sender.buf| <= x.total && |Out(x)| == x.total
    ensures Shape(paged, x') && Out(x') == Out(x) + [row] && Held(paged, x', 0) && Orderly(rows, paged, wait, x'.sender)
    ensures x'.retained == x.retained && x'.total == x.total + 1
    ensures x'.receiving ==> x'.truncated == x.truncated && |x'.sender.buf| < RowLimit(paged, |x'.sender.sent|)
    ensures x'.sender.failedAt.None? ==> x'.receiving
    ensures paged && x'.total == RESULT_PAGE_ROWS && x'.receiving ==> x'.sender.buf == []
    ensures x'.truncated && x'.sender.failedAt.None? ==> x.truncated
  {
    BytesSnoc(x.sender.buf, row);
    BytesSnoc(Out(x), row);
    x' := x.(chunkBytes := x.chunkBytes + row.json,
             sender := x.sender.(buf := x.sender.buf + [row]),
             total := x.total + 1);
    assert Out(x') == Out(x) + [row];
    if |x'.sender.buf| >= RowLimit(paged, |x'.sender.sent|) || (paged && x'.total == RESULT_PAGE_ROWS) {
      ghost var before := x'.sender;
      FullSnoc(paged, rows, before.sent, Chunk(|before.sent|, before.buf));
      x' := Flush(paged, x', wait(x'.sender.waits));
      PermittedNext(wait, before, x'.sender);
    }
  }

  lemma NextRow(items: seq<Item>, i: nat)
    requires i < |items|
    ensures RowsOf(items)[..i + 1] == RowsOf(items)[..i] + [items[i].row] && RowsOf(items)[i] == items[i].row
  {
  }

  /** One row from the server. */
  method ReceiveRow(ghost items: seq<Item>, ghost i: nat, item: Item, paged: bool, maxRows: nat,
                    x: Intake, wait: nat -> Wait)
    returns (x': Intake)
    requires i < |items| && items[i] == item
    requires Shape(paged, x) && Taken(items, i, paged, maxRows, x) && Held(paged, x, 0)
    requires Orderly(RowsOf(items), paged, wait, x.sender)
    ensures Shape(paged, x') && Taken(items, i + 1, paged, maxRows, x') && Held(paged, x', 0)
    ensures Orderly(RowsOf(items), paged, wait, x'.sender)
  {
    hide FullChunks, Permitted, GoodChunks;
    NextRow(items, i);
    if !x.receiving || (!paged && x.total >= maxRows) {
      return x.(truncated := true);
    }
    if !item.fits || item.row.json > MAX_FETCH_BYTES {
      return x.(receiving := false, truncated := true);
    }
    x' := MakeRoom(RowsOf(items), paged, x, item.row, wait);
    if !x'.receiving { return; }
    if paged {
      x' := x'.(retained := x'.retained + [item.row]);
      if x'.total >= RESULT_PAGE_ROWS {
        x' := x'.(total := x'.total + 1);
        return;
      }
    }
    x' := Buffer(RowsOf(items), paged, x', item.row, wait);
  }

  /** After the last row and the last flush, the intake is what streaming owes. */
  lemma DrainedIsFaithful(items: seq<Item>, failed: bool, paged: bool, maxRows: nat, drained: Intake, x: Intake)
    requires Shape(paged, drained) && Taken(items, |items|, paged, maxRows, drained)
    requires Held(paged, drained, 0)
    requires Shape(paged, x) && Out(x) == Out(drained) && (failed ==> x == drained)
    requires x.retained == drained.retained && x.total == drained.total
    requires !x.truncated ==> !drained.truncated
    requires x.truncated && x.sender.failedAt.None? ==> drained.truncated && drained.sender.failedAt.None?
    requires (!failed && x.sender.failedAt.None?) || drained.sender.buf == [] ==> x.sender.buf == []
    ensures |x.sender.buf| <= x.total
    ensures Faithful(items, failed, paged, maxRows,
      Outcome(x.sender.sent, x.retained, x.total - |x.sender.buf|, x.truncated, x.sender.failedAt))
  {
    hide Concat, Bytes, GoodChunks, RowLimit;
    var rows, n := RowsOf(items), |items|;
    assert rows[..n] == rows;
    var sent := Concat(x.sender.sent);
    assert sent == Out(x)[..|sent|];
  }

  /** With no failed flush, the rows taken are those before the first that may not be. */
  lemma DrainedTakesAll(items: seq<Item>, failed: bool, paged: bool, maxRows: nat, drained: Intake, x: Intake)
    requires Shape(paged, drained) && Taken(items, |items|, paged, maxRows, drained)
    requires Shape(paged, x) && Out(x) == Out(drained) && (failed ==> x == drained)
    requires x.retained == drained.retained && x.total == drained.total && x.sender.failedAt.None?
    requires drained.sender.failedAt.None? && x.truncated == drained.truncated
    requires !failed ==> x.sender.buf == []
    ensures |x.sender.buf| <= x.total
    ensures TakesAll(items, failed, paged, maxRows,
      Outcome(x.sender.sent, x.retained, x.total - |x.sender.buf|, x.truncated, x.sender.failedAt), drained.total)
  {
    hide Concat, Bytes, GoodChunks;
    var rows, n, k := RowsOf(items), |Concat(x.sender.sent)|, drained.total;
    assert rows[..|items|] == rows;
    assert Out(x)[..n] == Concat(x.sender.sent) && Out(x)[n..] == x.sender.buf;
    assert rows[n..Streamable(paged, k)] == rows[..Streamable(paged, k)][n..];
  }

  /** The last flush may send a chunk that ends with the rows. */
  lemma DrainedEndsFull(items: seq<Item>, failed: bool, paged: bool, maxRows: nat, drained: Intake, o: Outcome)
    requires Shape(paged, drained) && Taken(items, |items|, paged, maxRows, drained)
    requires FullChunks(paged, RowsOf(items), drained.sender.sent)
    requires o.sent == drained.sender.sent
      || (!failed && drained.sender.failedAt.None? && o.sent == drained.sender.sent + [Chunk(|drained.sender.sent|, drained.sender.buf)])
    ensures EndsFull(items, failed, paged, maxRows, o)
  {
    hide Concat, GoodChunks;
    var rows, old' := RowsOf(items), drained.sender.sent;
    ConcatSnoc(old', Chunk(|old'|, drained.sender.buf));
    forall i | 0 <= i < |o.sent|
      ensures FullChunk(paged, rows, o.sent, i)
        || (i == |o.sent| - 1 && !failed
            && exists k :: CutsAt(items, paged, maxRows, k) && |Concat(o.sent)| == Streamable(paged, k))
    {
      if i < |old'| {
        assert o.sent[..i + 1] == old'[..i + 1] && FullChunk(paged, rows, old', i);
      } else {
        assert CutsAt(items, paged, maxRows, drained.total);
      }
    }
  }

  /**
   * Drains the server's rows into numbered chunks. `failed` says the stream ended in an SQL
   * error, and `wait(k)` how the k-th wait for a permit ends.
   */
  method StreamRows(items: seq<Item>, failed: bool, paged: bool, maxRows: nat, wait: nat -> Wait)
    returns (o: Outcome)
    ensures Faithful(items, failed, paged, maxRows, o)
    ensures o.failedAt.None? ==> exists k :: TakesAll(items, failed, paged, maxRows, o, k)
    ensures EndsFull(items, failed, paged, maxRows, o)
    ensures Permitted(wait, |o.sent|, o.failedAt)
  {
    hide Faithful, EndsFull, TakesAll;
    var x := Intake(Sender([], [], false, 0, None), [], 0, 0, false, true);
    assert Sizes([]) == [];
    var i := 0;
    while i < |items|
      invariant 0 <= i <= |items|
      invariant Shape(paged, x) && Taken(items, i, paged, maxRows, x) && Held(paged, x, 0)
      invariant Orderly(RowsOf(items), paged, wait, x.sender)
    {
      x := ReceiveRow(items, i, items[i], paged, maxRows, x, wait);
      i := i + 1;
    }
    ghost var drained := x;
    if !failed && x.sender.buf != [] {
      x := Flush(paged, x, wait(x.sender.waits));
      PermittedNext(wait, drained.sender, x.sender);
    }
    DrainedIsFaithful(items, failed, paged, maxRows, drained, x);
    if x.sender.failedAt.None? { DrainedTakesAll(items, failed, paged, maxRows, drained, x); }
    o := Outcome(x.sender.sent, x.retained, x.total - |x.sender.buf|, x.truncated, x.sender.failedAt);
    DrainedEndsFull(items, failed, paged, maxRows, drained, o);
  }
}
