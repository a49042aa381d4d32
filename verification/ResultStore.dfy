module ResultStore {
  // The per-tab row store of resultStore.ts and the channel that feeds it.

  import opened Wrappers
  import opened Rows
  import opened Splices

  datatype Status = Running | Completed | Failed | Cancelled

  /** What a terminal event brings; only a completed or cancelled one carries a row count. */
  datatype Terminal = Terminal(status: Status, rowCount: Option<nat>, truncated: bool)

  datatype Page = Page(rows: seq<Row>, nextOffset: nat, hasMore: bool)

  /** Everything about one result tab except which array its rows live in. */
  datatype Tab = Tab(
    rows: seq<Row>, status: Status, protocolError: bool, pageable: bool, pageSize: Option<nat>,
    nextRowOffset: nat, hasMoreRows: bool, rowCount: Option<int>, loadingMore: bool, nextSequence: nat)

  function FreshTab(pageable: bool, pageSize: Option<nat>): Tab {
    Tab([], Running, false, pageable, pageSize, 0, false, None, false, 0)
  }

  /** A chunk is taken only in sequence; a wrong one marks the tab for good. */
  function Appended(t: Tab, sequence: nat, rows: seq<Row>): Tab {
    if t.protocolError then t
    else if sequence != t.nextSequence then t.(status := Failed, protocolError := true)
    else t.(nextSequence := t.nextSequence + 1, rows := t.rows + rows, nextRowOffset := t.nextRowOffset + |rows|)
  }

  function CountOr<T>(o: Option<T>, d: T): T {
    if o.Some? then o.value else d
  }

  function Ended(t: Tab, e: Terminal): Tab {
    t.(status := if t.protocolError then Failed else e.status,
       rowCount := if e.rowCount.Some? then Some(e.rowCount.value) else t.rowCount,
       hasMoreRows :=
         && !t.protocolError
         && if t.pageSize.Some?
            then e.status == Completed && !e.truncated && CountOr(e.rowCount, 0) >= t.pageSize.value
            else t.pageable && e.status != Failed && CountOr(e.rowCount, 0) > t.nextRowOffset)
  }

  function PageAppended(t: Tab, p: Page): Tab {
    t.(rows := t.rows + p.rows, nextRowOffset := p.nextOffset, hasMoreRows := p.hasMore, loadingMore := false)
  }

  function RowReplaced(t: Tab, idx: int, row: Row): Tab {
    if 0 <= idx < |t.rows| then t.(rows := t.rows[idx := row]) else t
  }

  function RowsRemoved(t: Tab, indexes: seq<nat>): Tab {
    var rows := SpliceAll(t.rows, SortDescending(indexes));
    t.(rows := rows, rowCount := Some(CountOr(t.rowCount, |rows| + |indexes|) - |indexes|))
  }

  function RowsPushed(t: Tab, rows: seq<Row>): Tab {
    t.(rows := t.rows + rows, rowCount := Some(CountOr(t.rowCount, |t.rows|) + |rows|))
  }

  /** A row array; its identity tells one execution of a tab from the next. */
  class RowArray {
    var items: seq<Row>

    constructor ()
      ensures items == []
    {
      items := [];
    }
  }

  datatype Event =
    | Rows(sequence: nat, rows: seq<Row>)
    | End(terminal: Terminal)

  class Store {
    var arrays: map<string, RowArray>
    var tabs: map<string, Tab>

    constructor ()
      ensures Valid() && arrays == map[]
    {
      arrays := map[];
      tabs := map[];
    }

    /** Each tab has its own array, and the tab's row list is that array's contents. */
    ghost predicate Valid()
      reads this, arrays.Values
    {
      && arrays.Keys == tabs.Keys
      && (forall t, u :: t in arrays && u in arrays && t != u ==> arrays[t] != arrays[u])
      && (forall t :: t in arrays ==> tabs[t].rows == arrays[t].items)
    }

    predicate IsCurrent(tab: string, rows: RowArray)
      reads this
    {
      tab in arrays && arrays[tab] == rows
    }

    /** Replaces a tab's result; one that is running, or has unsaved or locked edits, cannot be replaced. */
    method Create(tab: string, pageable: bool, pageSize: Option<nat>, pendingEdits: nat, editsLocked: bool)
      returns (rows: RowArray?)
      requires Valid()
      modifies this
      ensures Valid()
      ensures rows == null <==> pendingEdits > 0 || editsLocked || old(tab in tabs && tabs[tab].status == Running)
      ensures rows == null ==> arrays == old(arrays) && tabs == old(tabs)
      ensures rows != null ==> fresh(rows) && arrays == old(arrays)[tab := rows]
      ensures rows != null ==> tabs == old(tabs)[tab := FreshTab(pageable, pageSize)]
      ensures rows != null ==>
        var t := tabs[tab];
        && t.rows == [] && t.status == Running && !t.protocolError && t.pageable == pageable && t.pageSize == pageSize
        && t.nextRowOffset == 0 && !t.hasMoreRows && t.rowCount == None && !t.loadingMore && t.nextSequence == 0
    {
      if pendingEdits > 0 || editsLocked || (tab in tabs && tabs[tab].status == Running) {
        return null;
      }
      var a := new RowArray();
      arrays := arrays[tab := a];
      tabs := tabs[tab := FreshTab(pageable, pageSize)];
      rows := a;
    }

    method Update(tab: string, next: Tab)
      requires Valid() && tab in tabs
      modifies this`tabs, arrays[tab]
      ensures Valid() && tabs == old(tabs)[tab := next]
    {
      arrays[tab].items := next.rows;
      tabs := tabs[tab := next];
    }

    method AppendRows(tab: string, sequence: nat, rows: seq<Row>) returns (ok: bool)
      requires Valid()
      modifies this`tabs, if tab in arrays then {arrays[tab]} else {}
      ensures Valid()
      ensures ok <==> old(tab in tabs && !tabs[tab].protocolError && tabs[tab].nextSequence == sequence)
      ensures tabs == if tab in old(tabs) then old(tabs)[tab := Appended(old(tabs)[tab], sequence, rows)] else old(tabs)
    {
      if tab !in tabs || tabs[tab].protocolError {
        assert tab in tabs ==> tabs == tabs[tab := Appended(tabs[tab], sequence, rows)];
        return false;
      }
      ok := sequence == tabs[tab].nextSequence;
      Update(tab, Appended(tabs[tab], sequence, rows));
    }

    method SetTerminal(tab: string, e: Terminal)
      requires Valid()
      modifies this`tabs, if tab in arrays then {arrays[tab]} else {}
      ensures Valid()
      ensures tabs == if tab in old(tabs) then old(tabs)[tab := Ended(old(tabs)[tab], e)] else old(tabs)
    {
      if tab in tabs { Update(tab, Ended(tabs[tab], e)); }
    }

    /** One channel message; the channel of a replaced execution only acknowledges. */
    method OnMessage(tab: string, captured: RowArray, e: Event)
      requires Valid()
      modifies this`tabs, if tab in arrays then {arrays[tab]} else {}
      ensures Valid()
      ensures !old(IsCurrent(tab, captured)) ==> tabs == old(tabs)
      ensures old(IsCurrent(tab, captured)) ==> tabs == old(tabs)[tab := Received(old(tabs)[tab], e)]
    {
      if !IsCurrent(tab, captured) { return; }
      match e {
        case Rows(sequence, rows) => var _ := AppendRows(tab, sequence, rows);
        case End(terminal) => SetTerminal(tab, terminal);
      }
    }

    method Deliver(tab: string, captured: RowArray, rows: RowArray, d: Delivery)
      requires Valid() && IsCurrent(tab, rows) && captured != rows
      modifies this`tabs, rows
      ensures Valid()
      ensures tabs == if d.Late? then old(tabs) else old(tabs)[tab := Received(old(tabs)[tab], d.event)]
    {
      hide Received;
      if d.Late? {
        OnMessage(tab, captured, d.event);
      } else {
        OnMessage(tab, rows, d.event);
      }
    }

    /** The two channels' messages in the order they come, the old execution's among the new one's. */
    method DeliverAll(tab: string, captured: RowArray, rows: RowArray, traffic: seq<Delivery>)
      requires Valid() && IsCurrent(tab, rows) && captured != rows
      modifies this`tabs, rows
      ensures Valid()
      ensures tabs == old(tabs)[tab := Replay(old(tabs)[tab], Own(traffic))]
    {
      hide Received, Replay, Own;
      ghost var before := tabs;
      ghost var first := tabs[tab];
      var i := 0;
      NothingReplayed(first, traffic);
      assert tabs == before[tab := first];
      while i < |traffic|
        invariant 0 <= i <= |traffic|
        invariant Valid()
        invariant tabs == before[tab := Replay(first, Own(traffic[..i]))]
      {
        OwnSnoc(traffic, i);
        ReplaySnoc(first, Own(traffic[..i]), traffic[i].event);
        PutTwice(before, tab, tabs[tab], Replay(first, Own(traffic[..i + 1])));
        Deliver(tab, captured, rows, traffic[i]);
        i := i + 1;
      }
      assert traffic[..i] == traffic;
    }

    /**
     * Replacing a result: however the old execution's late messages fall between the new one's,
     * the tab ends as the new execution's own messages alone leave it.
     */
    method ReplaceThenReceive(tab: string, captured: RowArray, pageable: bool, pageSize: Option<nat>,
                              traffic: seq<Delivery>)
      returns (rows: RowArray)
      requires Valid() && IsCurrent(tab, captured) && tabs[tab].status != Running
      modifies this
      ensures Valid() && fresh(rows) && IsCurrent(tab, rows)
      ensures tabs == old(tabs)[tab := Replay(FreshTab(pageable, pageSize), Own(traffic))]
    {
      hide Received, Replay, Own, FreshTab;
      assert tab in tabs;
      var created := Create(tab, pageable, pageSize, 0, false);
      rows := created;
      assert captured != rows && IsCurrent(tab, rows);
      ghost var before := old(tabs);
      PutTwice(before, tab, FreshTab(pageable, pageSize), Replay(FreshTab(pageable, pageSize), Own(traffic)));
      DeliverAll(tab, captured, rows, traffic);
    }
  }

  /** A message from the replaced execution's channel, or from the current one's. */
  datatype Delivery = Late(event: Event) | Current(event: Event)

  function Own(traffic: seq<Delivery>): seq<Event> {
    if |traffic| == 0 then []
    else
      var last := traffic[|traffic| - 1];
      Own(traffic[..|traffic| - 1]) + (if last.Current? then [last.event] else [])
  }

  /** The tab after these messages. */
  function Replay(t: Tab, events: seq<Event>): Tab {
    if |events| == 0 then t else Received(Replay(t, events[..|events| - 1]), events[|events| - 1])
  }

  lemma PutTwice(tabs: map<string, Tab>, tab: string, once: Tab, again: Tab)
    ensures tabs[tab := once][tab := again] == tabs[tab := again]
    ensures tabs[tab := once][tab] == once
  {
  }

  lemma NothingReplayed(t: Tab, traffic: seq<Delivery>)
    ensures Replay(t, Own(traffic[..0])) == t
  {
  }

  lemma OwnSnoc(traffic: seq<Delivery>, i: nat)
    requires i < |traffic|
    ensures Own(traffic[..i + 1]) ==
      if traffic[i].Current? then Own(traffic[..i]) + [traffic[i].event] else Own(traffic[..i])
  {
    assert traffic[..i + 1][..i] == traffic[..i];
  }

  lemma ReplaySnoc(t: Tab, events: seq<Event>, e: Event)
    ensures Replay(t, events + [e]) == Received(Replay(t, events), e)
  {
    assert (events + [e])[..|events|] == events;
  }

  /** Chunks as the channel numbers them. */
  function Numbered(chunks: seq<seq<Row>>): seq<Event> {
    seq(|chunks|, i requires 0 <= i < |chunks| => Rows(i, chunks[i]))
  }

  function Joined(chunks: seq<seq<Row>>): seq<Row> {
    if |chunks| == 0 then [] else Joined(chunks[..|chunks| - 1]) + chunks[|chunks| - 1]
  }

  /** Chunks received in order leave all their rows, in order, and no protocol error. */
  lemma {:induction false} NumberedChunksJoin(pageable: bool, pageSize: Option<nat>, chunks: seq<seq<Row>>)
    ensures Replay(FreshTab(pageable, pageSize), Numbered(chunks))
      == FreshTab(pageable, pageSize).(rows := Joined(chunks), nextRowOffset := |Joined(chunks)|, nextSequence := |chunks|)
  {
    if |chunks| > 0 {
      var init := chunks[..|chunks| - 1];
      NumberedChunksJoin(pageable, pageSize, init);
      assert Numbered(chunks) == Numbered(init) + [Rows(|init|, chunks[|init|])];
      ReplaySnoc(FreshTab(pageable, pageSize), Numbered(init), Rows(|init|, chunks[|init|]));
    }
  }

  /**
   * What the terminal offers after chunks received in order: a first table page offers more exactly
   * when it completed, whole, with at least a page of rows; a pageable query result exactly when it
   * did not fail and counts more rows than were streamed; any other result never.
   */
  lemma EndOffersMore(pageable: bool, pageSize: Option<nat>, chunks: seq<seq<Row>>, e: Terminal)
    ensures var t := Replay(FreshTab(pageable, pageSize), Numbered(chunks) + [End(e)]);
      var counted := if e.rowCount.Some? then e.rowCount.value else 0;
      && t.rows == Joined(chunks) && t.status == e.status && !t.protocolError
      && (t.rowCount == if e.rowCount.Some? then Some(e.rowCount.value as int) else None)
      && (pageSize.Some? ==> (t.hasMoreRows <==> e.status == Completed && !e.truncated && counted >= pageSize.value))
      && (pageSize.None? ==> (t.hasMoreRows <==> pageable && e.status != Failed && counted > |Joined(chunks)|))
  {
    NumberedChunksJoin(pageable, pageSize, chunks);
    hide Joined, Numbered, Replay, FreshTab;
    ReplaySnoc(FreshTab(pageable, pageSize), Numbered(chunks), End(e));
    FreshCounts(pageable, pageSize);
  }

  lemma FreshCounts(pageable: bool, pageSize: Option<nat>)
    ensures var t := FreshTab(pageable, pageSize);
      !t.protocolError && t.pageSize == pageSize && t.pageable == pageable && t.rowCount == None
  {
  }

  /** A chunk out of sequence is final: whatever comes after it, the tab stays failed with the rows it had and offers no more. */
  lemma {:induction false} WrongNumberIsFinal(t: Tab, sequence: nat, rows: seq<Row>, events: seq<Event>)
    requires sequence != t.nextSequence && !t.protocolError && !t.hasMoreRows
    ensures var t' := Replay(Received(t, Rows(sequence, rows)), events);
      t'.protocolError && t'.status == Failed && t'.rows == t.rows && !t'.hasMoreRows
    decreases |events|
  {
    if events != [] {
      WrongNumberIsFinal(t, sequence, rows, events[..|events| - 1]);
    }
  }

  /** A replaced row is the only one that changes, and an index outside the rows replaces none. */
  lemma ReplacedAlone(t: Tab, idx: int, row: Row)
    ensures var t' := RowReplaced(t, idx, row);
      && t' == t.(rows := t'.rows) && |t'.rows| == |t.rows|
      && forall i :: 0 <= i < |t.rows| ==> t'.rows[i] == if i == idx then row else t.rows[i]
  {
  }

  /** Rows taken out or pushed in are counted: the row count keeps its distance from the rows held. */
  lemma CountFollowsRows(t: Tab, indexes: seq<nat>, rows: seq<Row>)
    requires DistinctNats(indexes) && InRange(indexes, |t.rows|)
    ensures var beyond := if t.rowCount.Some? then t.rowCount.value - |t.rows| else 0;
      var less, more := RowsRemoved(t, indexes), RowsPushed(t, rows);
      && less.rowCount == Some(|less.rows| + beyond) && |less.rows| == |t.rows| - |indexes|
      && more.rowCount == Some(|more.rows| + beyond) && more.rows == t.rows + rows
  {
    SortStrict(indexes, |t.rows|);
    SpliceShortens(t.rows, SortDescending(indexes));
  }

  function Received(t: Tab, e: Event): Tab {
    match e
    case Rows(sequence, rows) => Appended(t, sequence, rows)
    case End(terminal) => Ended(t, terminal)
  }
}
