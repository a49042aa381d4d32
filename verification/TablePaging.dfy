module TablePaging {
  // The continuation of a Table Data result: the queue and offset of large_values.rs.

  import opened Wrappers
  import opened Rows

  datatype Page = Page(rows: seq<Row>, nextOffset: nat, hasMore: bool)

  datatype PageError = RowTooLarge | OffsetOutOfRange | BudgetExceeded | SchemaChanged | Interrupted

  type Reply = Result<Page, PageError>

  /** `nextOffset` is the first row not handed out; `pending` are the decoded rows from there. */
  datatype Queue = Queue(nextOffset: nat, pending: seq<Row>, moreAfterPending: bool)

  /** The longest prefix that fits one transfer. */
  ghost predicate LongestFit(rows: seq<Row>, end: nat) {
    && end <= |rows|
    && Bytes(rows[..end]) <= 1_048_576
    && (end < |rows| ==> Bytes(rows[..end + 1]) > 1_048_576)
  }

  lemma PrefixBytesMonotone(rows: seq<Row>, i: nat, j: nat)
    requires i <= j <= |rows|
    ensures Bytes(rows[..i]) <= Bytes(rows[..j])
  {
    assert rows[..j] == rows[..i] + rows[i..j];
    BytesAppend(rows[..i], rows[i..j]);
  }

  /** There is only one such prefix, whatever the row sizes. */
  lemma LongestFitUnique(rows: seq<Row>, a: nat, b: nat)
    requires LongestFit(rows, a) && LongestFit(rows, b)
    ensures a == b
  {
    if a < b { PrefixBytesMonotone(rows, a + 1, b); }
    if b < a { PrefixBytesMonotone(rows, b + 1, a); }
  }

  function FitFrom(rows: seq<Row>, end: nat): (r: nat)
    requires end <= |rows| && Bytes(rows[..end]) <= MAX_FETCH_BYTES
    ensures LongestFit(rows, r)
    decreases |rows| - end
  {
    if end == |rows| || Bytes(rows[..end + 1]) > MAX_FETCH_BYTES then end
    else FitFrom(rows, end + 1)
  }

  function Fit(rows: seq<Row>): (r: nat)
    ensures LongestFit(rows, r)
  {
    FitFrom(rows, 0)
  }

  /** What a request leaves behind and what it answers. */
  datatype Turn = Turn(queue: Queue, reply: Reply)

  /** Queue and reply once `rows`, standing at the offset, have been cut at the transfer limit. */
  function Split(q: Queue, rows: seq<Row>, moreAfter: bool): Turn {
    var end := Fit(rows);
    var hasMore := moreAfter || end < |rows|;
    var stuck := Queue(q.nextOffset, rows[end..], moreAfter);
    if end == 0 && hasMore then Turn(stuck, Err(RowTooLarge))
    else
      var q' := stuck.(nextOffset := q.nextOffset + end);
      if q'.nextOffset > U32_MAX then Turn(q', Err(OffsetOutOfRange))
      else Turn(q', Ok(Page(rows[..end], q'.nextOffset, hasMore)))
  }

  /** How many rows a query decodes before the budget first refuses one. */
  function Admitted(fits: seq<bool>): (n: nat)
    ensures n <= |fits|
    ensures forall i :: 0 <= i < n ==> fits[i]
    ensures n < |fits| ==> !fits[n]
  {
    if |fits| == 0 || !fits[0] then 0 else 1 + Admitted(fits[1..])
  }

  function Pushed(q: Queue, rows: seq<Row>): Queue {
    if rows == [] then q else q.(pending := q.pending + rows, moreAfterPending := true)
  }

  /**
   * One page query: `arrived` came from the server, `fits[i]` says whether the budget took
   * row i, and `broken` that the stream ended in an error or a timeout.
   */
  function Fetched(q: Queue, sameColumns: bool, arrived: seq<Row>, fits: seq<bool>, broken: bool): Turn
    requires |fits| == |arrived|
  {
    if !sameColumns then Turn(q, Err(SchemaChanged))
    else
      var n := Admitted(fits);
      var q' := Pushed(q, arrived[..n]);
      if broken then Turn(q', Err(Interrupted))
      else if n < |arrived| && n == 0 then Turn(q', Err(BudgetExceeded))
      else Split(q'.(pending := []), q'.pending, n < |arrived| || |arrived| == RESULT_PAGE_ROWS)
  }

  function Shifted(q: Queue, inserted: nat, deleted: nat): Queue {
    q.(nextOffset := if q.nextOffset + inserted < deleted then 0 else q.nextOffset + inserted - deleted)
  }

  /** The record behind `table_paging`, updated in place under its lock. */
  class Paging {
    var nextOffset: nat
    var pending: seq<Row>
    var moreAfterPending: bool

    constructor (nextOffset: nat)
      ensures View() == Queue(nextOffset, [], false)
    {
      this.nextOffset := nextOffset;
      pending := [];
      moreAfterPending := false;
    }

    function View(): Queue
      reads this
    {
      Queue(nextOffset, pending, moreAfterPending)
    }

    method SplitPage(rows: seq<Row>, moreAfter: bool) returns (reply: Reply)
      modifies this
      ensures Turn(View(), reply) == Split(old(View()), rows, moreAfter)
    {
      var bytes := 0;
      var end := 0;
      while end < |rows| && bytes + rows[end].json <= MAX_FETCH_BYTES
        invariant 0 <= end <= |rows|
        invariant bytes == Bytes(rows[..end]) <= MAX_FETCH_BYTES
        invariant View() == old(View())
      {
        BytesSnoc(rows[..end], rows[end]);
        assert rows[..end] + [rows[end]] == rows[..end + 1];
        bytes := bytes + rows[end].json;
        end := end + 1;
      }
      if end < |rows| {
        BytesSnoc(rows[..end], rows[end]);
        assert rows[..end] + [rows[end]] == rows[..end + 1];
      }
      LongestFitUnique(rows, end, Fit(rows));
      var hasMore := moreAfter || end < |rows|;
      pending := rows[end..];
      moreAfterPending := moreAfter;
      if end == 0 && hasMore {
        return Err(RowTooLarge);
      }
      nextOffset := nextOffset + end;
      if nextOffset > U32_MAX {
        return Err(OffsetOutOfRange);
      }
      reply := Ok(Page(rows[..end], nextOffset, hasMore));
    }

    /** Serves rows decoded past an earlier limit; None when the next page needs a query. */
    method ServePending() returns (reply: Option<Reply>)
      modifies this
      ensures old(pending) == [] ==> reply == None && View() == old(View())
      ensures old(pending) != [] ==> reply.Some?
      ensures old(pending) != [] ==>
        Turn(View(), reply.value) == Split(old(View()), old(pending), old(moreAfterPending))
    {
      if pending == [] {
        return None;
      }
      var page := SplitPage(pending, moreAfterPending);
      reply := Some(page);
    }

    method PushPending(row: Row)
      modifies this
      ensures View() == Pushed(old(View()), [row])
    {
      pending := pending + [row];
      moreAfterPending := true;
    }

    method FinishTablePage(moreAfter: bool) returns (reply: Reply)
      modifies this
      ensures Turn(View(), reply) == Split(old(View()).(pending := []), old(pending), moreAfter)
    {
      var rows := pending;
      pending := [];
      reply := SplitPage(rows, moreAfter);
    }

    method ShiftTableOffset(inserted: nat, deleted: nat)
      modifies this
      ensures View() == Shifted(old(View()), inserted, deleted)
    {
      var moved := nextOffset + inserted;
      nextOffset := if moved < deleted then 0 else moved - deleted;
    }

    /** Decodes a page row by row, queueing each row the moment it is charged. */
    method FetchTablePage(sameColumns: bool, arrived: seq<Row>, fits: seq<bool>, broken: bool)
      returns (reply: Reply)
      requires |fits| == |arrived|
      modifies this
      ensures Turn(View(), reply) == Fetched(old(View()), sameColumns, arrived, fits, broken)
    {
      if !sameColumns {
        return Err(SchemaChanged);
      }
      var received := 0;
      var decodedAny, budgetReached := false, false;
      while received < |arrived|
        invariant 0 <= received <= |arrived|
        invariant budgetReached ==> Admitted(fits) < received
        invariant !budgetReached ==> received <= Admitted(fits)
        invariant var n := if budgetReached then Admitted(fits) else received;
          && View() == Pushed(old(View()), arrived[..n])
          && decodedAny == (n > 0)
      {
        received := received + 1;
        if budgetReached { continue; }
        AdmittedIsFirstRefusal(fits, received - 1);
        if fits[received - 1] {
          assert arrived[..received - 1] + [arrived[received - 1]] == arrived[..received];
          PushPending(arrived[received - 1]);
          decodedAny := true;
        } else {
          budgetReached := true;
        }
      }
      if broken {
        return Err(Interrupted);
      }
      if budgetReached && !decodedAny {
        return Err(BudgetExceeded);
      }
      reply := FinishTablePage(budgetReached || received == RESULT_PAGE_ROWS);
    }
  }

  lemma AdmittedIsFirstRefusal(fits: seq<bool>, i: nat)
    requires i < |fits| && i <= Admitted(fits)
    ensures fits[i] <==> i < Admitted(fits)
  {
  }
}
