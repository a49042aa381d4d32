module Execution {
  // One execution the session actor takes, as the list of events its consumer sees.

  import opened Wrappers
  import opened Rows
  import opened Chunker

  datatype Event =
    | Started
    | Columns
    | RowChunk(chunk: Chunk)
    | Command
    | Completed(rowCount: nat, truncated: bool)
    | Failed(outcomeUnknown: bool)
    | Cancelled(received: nat)

  predicate Terminal(e: Event) {
    e.Completed? || e.Failed? || e.Cancelled?
  }

  /** How far the execution gets before its rows: each stage can fail or find the cancel flag set. */
  datatype Setup = ConnectFails | TimeoutSetupFails | CancelledEarly | PrepareFails | CancelledPrepared | Ready

  /** How the server ends the row stream. */
  datatype Ending = Done | SqlError(cancelled: bool)

  function ChunkCount(events: seq<Event>): nat {
    if |events| == 0 then 0
    else ChunkCount(events[..|events| - 1]) + (if events[|events| - 1].RowChunk? then 1 else 0)
  }

  /** The ordering contract of the stream, without its terminal event. */
  ghost predicate Ordered(events: seq<Event>) {
    forall i :: 0 <= i < |events| ==>
      && !Terminal(events[i])
      && (events[i].Started? <==> i == 0)
      && (events[i].Columns? ==> i == 1)
      && (events[i].RowChunk? ==> events[i].chunk.sequence == ChunkCount(events[..i]))
      && (events[i].Command? ==> i == |events| - 1)
  }

  lemma OrderedPrefix(events: seq<Event>, k: nat)
    requires Ordered(events) && k <= |events|
    ensures Ordered(events[..k])
  {
    forall i | 0 <= i < k ensures events[..k][..i] == events[..i] {}
  }

  /** Started, the columns where there are any, the chunks one by one, and the command where there is one. */
  ghost predicate Announces(events: seq<Event>, columns: bool, chunks: seq<Chunk>, command: bool) {
    var first := if columns then 2 else 1;
    && |events| == first + |chunks| + (if command then 1 else 0)
    && events[0] == Started && (columns ==> events[1] == Columns)
    && (forall i :: 0 <= i < |chunks| ==> events[first + i] == RowChunk(chunks[i]))
    && (command ==> events[|events| - 1] == Command)
  }

  /** What the stream keeps to, over and above the order of its rows. */
  ghost predicate Streamed(items: seq<Item>, failed: bool, paged: bool, maxRows: nat, wait: nat -> Wait, o: Outcome) {
    && (o.failedAt.None? ==> exists k :: TakesAll(items, failed, paged, maxRows, o, k))
    && EndsFull(items, failed, paged, maxRows, o) && Permitted(wait, |o.sent|, o.failedAt)
  }

  function ChunkEvents(chunks: seq<Chunk>): seq<Event> {
    seq(|chunks|, i requires 0 <= i < |chunks| => RowChunk(chunks[i]))
  }

  lemma {:induction false} CountChunks(head: seq<Event>, chunks: seq<Chunk>)
    requires forall e :: e in head ==> !e.RowChunk?
    ensures ChunkCount(head + ChunkEvents(chunks)) == |chunks|
    decreases |head| + |chunks|
  {
    var all := head + ChunkEvents(chunks);
    if |chunks| > 0 {
      var init := chunks[..|chunks| - 1];
      CountChunks(head, init);
      assert all[..|all| - 1] == head + ChunkEvents(init);
    } else if |head| > 0 {
      CountChunks(head[..|head| - 1], []);
      assert all[..|all| - 1] == head[..|head| - 1] + ChunkEvents([]);
    }
  }

  lemma ChunksOrdered(columns: bool, chunks: seq<Chunk>)
    requires forall i :: 0 <= i < |chunks| ==> chunks[i].sequence == i
    ensures Ordered(Opening(columns) + ChunkEvents(chunks))
    ensures Ordered(Opening(columns) + ChunkEvents(chunks) + [Command])
  {
    var head := Opening(columns);
    var events := head + ChunkEvents(chunks);
    assert Ordered(events) && Command !in events by {
      hide ChunkCount;
      forall i | |head| <= i < |events|
        ensures ChunkCount(events[..i]) == i - |head|
      {
        assert events[..i] == head + ChunkEvents(chunks[..i - |head|]);
        CountChunks(head, chunks[..i - |head|]);
      }
    }
    hide Opening, ChunkEvents;
    CommandLast(events);
  }

  lemma CommandLast(events: seq<Event>)
    requires Ordered(events) && Command !in events && events != []
    ensures Ordered(events + [Command])
  {
    hide ChunkCount;
    var full := events + [Command];
    forall i | 0 <= i <= |events| ensures full[..i] == events[..i] {}
  }

  function Opening(columns: bool): seq<Event> {
    if columns then [Started, Columns] else [Started]
  }

  function ChunksOf(events: seq<Event>): seq<Chunk> {
    if |events| == 0 then []
    else
      var e := events[|events| - 1];
      ChunksOf(events[..|events| - 1]) + (if e.RowChunk? then [e.chunk] else [])
  }

  lemma {:induction false} ChunksOfEvents(head: seq<Event>, chunks: seq<Chunk>)
    requires forall e :: e in head ==> !e.RowChunk?
    ensures ChunksOf(head + ChunkEvents(chunks)) == chunks
    decreases |head| + |chunks|
  {
    var all := head + ChunkEvents(chunks);
    if |chunks| > 0 {
      var init := chunks[..|chunks| - 1];
      ChunksOfEvents(head, init);
      assert all[..|all| - 1] == head + ChunkEvents(init);
    } else if |head| > 0 {
      ChunksOfEvents(head[..|head| - 1], []);
      assert all[..|all| - 1] == head[..|head| - 1] + ChunkEvents([]);
    }
  }

  /** Hands every chunk to the sink after what has been sent already. */
  method EmitChunks(columns: bool, chunks: seq<Chunk>) returns (events: seq<Event>)
    requires forall i :: 0 <= i < |chunks| ==> chunks[i].sequence == i
    ensures events == Opening(columns) + ChunkEvents(chunks)
    ensures Ordered(events) && Ordered(events + [Command])
    ensures Announces(events, columns, chunks, false) && Announces(events + [Command], columns, chunks, true)
    ensures ChunksOf(events) == chunks && ChunksOf(events + [Command]) == chunks
  {
    hide Ordered, ChunksOf, ChunkEvents, Opening, Announces;
    ChunksOrdered(columns, chunks);
    ChunksAnnounced(columns, chunks);
    OpeningThenChunks(columns, chunks);
    events := Opening(columns);
    var i := 0;
    while i < |chunks|
      invariant 0 <= i <= |chunks|
      invariant events == Opening(columns) + ChunkEvents(chunks[..i])
    {
      NextChunkEvent(Opening(columns), chunks, i);
      events := events + [RowChunk(chunks[i])];
      i := i + 1;
    }
    assert chunks[..i] == chunks;
  }

  lemma NextChunkEvent(head: seq<Event>, chunks: seq<Chunk>, i: nat)
    requires i < |chunks|
    ensures head + ChunkEvents(chunks[..0]) == head
    ensures head + ChunkEvents(chunks[..i + 1]) == head + ChunkEvents(chunks[..i]) + [RowChunk(chunks[i])]
  {
    assert ChunkEvents(chunks[..i + 1]) == ChunkEvents(chunks[..i]) + [RowChunk(chunks[i])];
  }

  lemma ChunksAnnounced(columns: bool, chunks: seq<Chunk>)
    ensures var events := Opening(columns) + ChunkEvents(chunks);
      Announces(events, columns, chunks, false) && Announces(events + [Command], columns, chunks, true)
  {
  }

  lemma OpeningThenChunks(columns: bool, chunks: seq<Chunk>)
    ensures Opening(columns) + ChunkEvents(chunks[..0]) == Opening(columns)
    ensures ChunksOf(Opening(columns) + ChunkEvents(chunks)) == chunks
    ensures ChunksOf(Opening(columns) + ChunkEvents(chunks) + [Command]) == chunks
  {
    ChunksOfEvents(Opening(columns), chunks);
    var events := Opening(columns) + ChunkEvents(chunks);
    assert (events + [Command])[..|events|] == events;
  }

  /** Nothing streamed: what the sink saw before the rows. */
  lemma NothingStreamed(columns: bool, items: seq<Item>, failed: bool, paged: bool, maxRows: nat)
    ensures Ordered(Opening(columns)) && ChunksOf(Opening(columns)) == [] && |Opening(columns)| > 0
    ensures Announces(Opening(columns), columns, [], false)
    ensures Faithful(items, failed, paged, maxRows, Outcome([], [], 0, true, Some(0)))
  {
    assert Opening(columns) + ChunkEvents([]) == Opening(columns);
    ChunksOrdered(columns, []);
    ChunksOfEvents(Opening(columns), []);
  }

  lemma StreamedSaysSo(items: seq<Item>, failed: bool, paged: bool, maxRows: nat, wait: nat -> Wait, o: Outcome)
    requires o.failedAt.None? ==> exists k :: TakesAll(items, failed, paged, maxRows, o, k)
    requires EndsFull(items, failed, paged, maxRows, o) && Permitted(wait, |o.sent|, o.failedAt)
    ensures Streamed(items, failed, paged, maxRows, wait, o)
  {
  }

  lemma SentInOrder(items: seq<Item>, failed: bool, paged: bool, maxRows: nat, o: Outcome)
    requires Faithful(items, failed, paged, maxRows, o)
    ensures forall i :: 0 <= i < |o.sent| ==> o.sent[i].sequence == i
    ensures Concat(o.sent) <= RowsOf(items)
  {
  }

  /** Everything the sink has been given, and the terminal the run itself would end with. */
  method RunExecution(setup: Setup, columns: bool, command: bool, items: seq<Item>, ending: Ending,
                      paged: bool, maxRows: nat, wait: nat -> Wait)
    returns (events: seq<Event>, terminal: Event, ghost o: Outcome)
    ensures |events| > 0 && Ordered(events) && Terminal(terminal)
    ensures ChunksOf(events) == o.sent && Faithful(items, ending.SqlError?, paged, maxRows, o)
    ensures setup.CancelledEarly? || setup.CancelledPrepared? ==> terminal == Cancelled(0)
    ensures setup.ConnectFails? || setup.TimeoutSetupFails? || setup.PrepareFails? ==> terminal == Failed(false)
    ensures !setup.Ready? ==> o.sent == [] && o.total == 0
    ensures setup.Ready? && ending.Done? ==> terminal == Completed(o.total, o.truncated)
    ensures setup.Ready? && ending.SqlError? ==>
      terminal == if ending.cancelled then Cancelled(o.total) else Failed(false)
    ensures setup.Ready? ==> Streamed(items, ending.SqlError?, paged, maxRows, wait, o)
    ensures Announces(events, columns && (setup.Ready? || setup.CancelledPrepared?), o.sent,
      setup.Ready? && ending.Done? && (command || !columns))
  {
    hide Faithful, TakesAll, EndsFull, Permitted, Ordered, ChunksOf, Announces, Streamed, Opening, ChunkEvents;
    if setup != Ready {
      var shown := columns && setup == CancelledPrepared;
      NothingStreamed(shown, items, ending.SqlError?, paged, maxRows);
      events := Opening(shown);
      o := Outcome([], [], 0, true, Some(0));
      terminal := if setup == CancelledEarly || setup == CancelledPrepared then Cancelled(0) else Failed(false);
      return;
    }
    var out := StreamRows(items, ending.SqlError?, paged, maxRows, wait);
    o := out;
    StreamedSaysSo(items, ending.SqlError?, paged, maxRows, wait, o);
    SentInOrder(items, ending.SqlError?, paged, maxRows, o);
    events := EmitChunks(columns, out.sent);
    AnnouncesStarted(events, columns, out.sent, false);
    if ending.SqlError? {
      terminal := if ending.cancelled then Cancelled(out.total) else Failed(false);
      return;
    }
    if command || !columns {
      events := events + [Command];
    }
    terminal := Completed(out.total, out.truncated);
  }

  /**
   * The actor's side: it may abandon the run after any `k` of its events, and then reports
   * that the outcome is unknown. Either way exactly one terminal event is sent, last.
   */
  method Execute(setup: Setup, columns: bool, command: bool, items: seq<Item>, ending: Ending,
                 paged: bool, maxRows: nat, wait: nat -> Wait, abandon: Option<nat>)
    returns (log: seq<Event>, ghost events: seq<Event>, ghost o: Outcome)
    ensures setup.Ready? ==> Streamed(items, ending.SqlError?, paged, maxRows, wait, o)
    ensures Announces(events, columns && (setup.Ready? || setup.CancelledPrepared?), o.sent,
      setup.Ready? && ending.Done? && (command || !columns))
    ensures |log| > 0 && log[..|log| - 1] == if abandon.Some? && abandon.value < |events| then events[..abandon.value] else events
    ensures Terminal(log[|log| - 1])
    ensures Ordered(log[..|log| - 1])
    ensures Faithful(items, ending.SqlError?, paged, maxRows, o)
    ensures ChunksOf(log[..|log| - 1]) <= o.sent
    ensures Concat(ChunksOf(log[..|log| - 1])) <= RowsOf(items)
    ensures abandon != Some(0) ==> log[0] == Started
    ensures abandon == Some(0) ==> log == [Failed(true)]
    ensures abandon.Some? ==> log[|log| - 1] == Failed(true)
    ensures abandon.None? && !setup.Ready? ==>
      log[|log| - 1] == if setup.CancelledEarly? || setup.CancelledPrepared? then Cancelled(0) else Failed(false)
    ensures abandon.None? && setup.Ready? && ending.SqlError? ==>
      log[|log| - 1] == if ending.cancelled then Cancelled(o.total) else Failed(false)
    ensures log[|log| - 1].Completed? ==>
      && ChunksOf(log[..|log| - 1]) == o.sent
      && log[|log| - 1].rowCount == o.total && log[|log| - 1].truncated == o.truncated
      && !ending.SqlError?
  {
    hide Faithful, Ordered, ChunksOf, Concat, Streamed, Announces, Opening, ChunkEvents;
    var all, terminal;
    all, terminal, o := RunExecution(setup, columns, command, items, ending, paged, maxRows, wait);
    AnnouncesStarted(all, columns && (setup.Ready? || setup.CancelledPrepared?), o.sent,
      setup.Ready? && ending.Done? && (command || !columns));
    events := all;
    SentInOrder(items, ending.SqlError?, paged, maxRows, o);
    if abandon.Some? {
      var k := if abandon.value < |all| then abandon.value else |all|;
      OrderedPrefix(all, k);
      ChunksOfPrefix(all, k);
      ConcatPrefix(o.sent, |ChunksOf(all[..k])|);
      assert o.sent[..|ChunksOf(all[..k])|] == ChunksOf(all[..k]);
      PrefixTransitive(ChunksOf(all[..k]), o.sent, RowsOf(items));
      log := all[..k] + [Failed(true)];
      assert log[..|log| - 1] == all[..k];
    } else {
      log := all + [terminal];
      assert log[..|log| - 1] == all;
    }
  }

  lemma AnnouncesStarted(events: seq<Event>, columns: bool, chunks: seq<Chunk>, command: bool)
    requires Announces(events, columns, chunks, command)
    ensures |events| > 0 && events[0] == Started
  {
  }

  lemma PrefixTransitive(part: seq<Chunk>, all: seq<Chunk>, rows: seq<Row>)
    requires Concat(part) <= Concat(all) <= rows
    ensures Concat(part) <= rows
  {
  }

  lemma {:induction false} ChunksOfPrefix(events: seq<Event>, k: nat)
    requires k <= |events|
    ensures ChunksOf(events[..k]) <= ChunksOf(events)
  {
    if k < |events| {
      ChunksOfPrefix(events[..|events| - 1], k);
      assert events[..|events| - 1][..k] == events[..k];
    } else {
      assert events[..k] == events;
    }
  }

  /** No terminal event hides before the last one. */
  lemma OneTerminal(log: seq<Event>)
    requires |log| > 0 && Terminal(log[|log| - 1]) && Ordered(log[..|log| - 1])
    ensures forall i :: 0 <= i < |log| && Terminal(log[i]) ==> i == |log| - 1
  {
    forall i | 0 <= i < |log| - 1 ensures !Terminal(log[i]) {
      assert log[..|log| - 1][i] == log[i];
    }
  }
}
