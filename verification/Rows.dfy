/** Decoded rows as the transfer code sees them: contents, and the size they serialize to. */
module Rows {
  import opened Sums

  const RESULT_PAGE_ROWS: nat := 200
  const MAX_FETCH_BYTES: nat := 1024 * 1024
  const U32_MAX: nat := 0xFFFF_FFFF

  /** `json` is the length of the row's JSON form, which every transfer limit counts. */
  datatype Row = Row(cells: string, json: nat)

  function Sizes(rows: seq<Row>): seq<nat> {
    seq(|rows|, i requires 0 <= i < |rows| => rows[i].json)
  }

  function Bytes(rows: seq<Row>): nat {
    SumSeq(Sizes(rows))
  }

  lemma BytesAppend(a: seq<Row>, b: seq<Row>)
    ensures Bytes(a + b) == Bytes(a) + Bytes(b)
  {
    assert Sizes(a + b) == Sizes(a) + Sizes(b);
    SumSeqAppend(Sizes(a), Sizes(b));
  }

  lemma BytesSnoc(a: seq<Row>, r: Row)
    ensures Bytes(a + [r]) == Bytes(a) + r.json
  {
    BytesAppend(a, [r]);
    assert Sizes([r]) == [r.json];
    assert SumSeq([r.json]) == r.json;
  }

  /** Rows a..b of a table, as LIMIT and OFFSET read past its end. */
  function Slice(table: seq<Row>, a: nat, b: nat): seq<Row>
    requires a <= b
  {
    if a >= |table| then [] else if b >= |table| then table[a..] else table[a..b]
  }

  lemma SliceSplit(table: seq<Row>, a: nat, b: nat, c: nat)
    requires a <= b <= c
    ensures Slice(table, a, c) == Slice(table, a, b) + Slice(table, b, c)
  {
  }

  function RemoveAt(table: seq<Row>, pos: nat): (r: seq<Row>)
    requires pos < |table|
    ensures |r| == |table| - 1
  {
    table[..pos] + table[pos + 1..]
  }

  function InsertAt(table: seq<Row>, pos: nat, row: Row): (r: seq<Row>)
    requires pos <= |table|
    ensures |r| == |table| + 1
  {
    table[..pos] + [row] + table[pos..]
  }

  lemma SlicePrefix(table: seq<Row>, a: nat, b: nat, n: nat)
    requires a <= b && 0 < n <= |Slice(table, a, b)|
    ensures a + n <= |table| && Slice(table, a, b)[..n] == table[a..a + n]
  {
  }

  lemma DeleteInside(table: seq<Row>, a: nat, b: nat, pos: nat)
    requires a <= pos < b <= |table|
    ensures RemoveAt(table, pos)[a..b - 1] == RemoveAt(table[a..b], pos - a)
  {
  }

  /** Taking out one row of a window closes the window by one. */
  lemma SliceDelete(table: seq<Row>, a: nat, b: nat, pos: nat)
    requires a <= pos < b && pos < |table|
    ensures pos - a < |Slice(table, a, b)|
    ensures var w := Slice(table, a, b);
      Slice(RemoveAt(table, pos), a, b - 1) == RemoveAt(w, pos - a)
  {
    hide RemoveAt;
    var end := if b >= |table| then |table| else b;
    DeleteInside(table, a, end, pos);
    assert Slice(table, a, b) == table[a..end];
    assert Slice(RemoveAt(table, pos), a, b - 1) == RemoveAt(table, pos)[a..end - 1];
  }

  lemma TailAfterDelete(table: seq<Row>, pos: nat, b: nat, n: nat)
    requires pos < b <= n <= |table|
    ensures RemoveAt(table, pos)[b - 1..n - 1] == table[b..n]
  {
    var t' := RemoveAt(table, pos);
    assert t'[pos..] == table[pos + 1..];
    hide RemoveAt;
    assert t'[b - 1..n - 1] == t'[pos..][b - 1 - pos..n - 1 - pos];
    assert table[b..n] == table[pos + 1..][b - 1 - pos..n - 1 - pos];
  }

  lemma InsertInside(table: seq<Row>, a: nat, b: nat, pos: nat, row: Row)
    requires a <= pos <= b <= |table|
    ensures InsertAt(table, pos, row)[a..b + 1] == InsertAt(table[a..b], pos - a, row)
  {
  }

  /** Putting a row into a window opens it by one. */
  lemma SliceInsert(table: seq<Row>, a: nat, b: nat, pos: nat, row: Row)
    requires a <= pos <= b && pos <= |table|
    ensures pos - a <= |Slice(table, a, b)|
    ensures var w := Slice(table, a, b);
      Slice(InsertAt(table, pos, row), a, b + 1) == InsertAt(w, pos - a, row)
  {
    hide InsertAt;
    var end := if b >= |table| then |table| else b;
    InsertInside(table, a, end, pos, row);
    assert Slice(table, a, b) == table[a..end];
    assert Slice(InsertAt(table, pos, row), a, b + 1) == InsertAt(table, pos, row)[a..end + 1];
  }

  lemma TailAfterInsert(table: seq<Row>, pos: nat, row: Row, b: nat, n: nat)
    requires pos <= b <= n <= |table|
    ensures InsertAt(table, pos, row)[b + 1..n + 1] == table[b..n]
  {
    var t' := InsertAt(table, pos, row);
    forall k | b <= k < n ensures t'[k + 1] == table[k] {
    }
    hide InsertAt;
    assert |t'[b + 1..n + 1]| == |table[b..n]|;
    forall k | 0 <= k < n - b ensures t'[b + 1..n + 1][k] == table[b..n][k] {
      assert t'[b + k + 1] == table[b + k];
    }
  }

  /** A row put in before a window only moves it along. */
  lemma SliceAfterInsert(table: seq<Row>, a: nat, b: nat, pos: nat, row: Row)
    requires pos < a <= b && pos <= |table|
    ensures Slice(InsertAt(table, pos, row), a + 1, b + 1) == Slice(table, a, b)
  {
    hide InsertAt;
    if a < |table| {
      var end := if b >= |table| then |table| else b;
      TailAfterInsert(table, pos, row, a, end);
      assert Slice(table, a, b) == table[a..end];
      assert Slice(InsertAt(table, pos, row), a + 1, b + 1) == InsertAt(table, pos, row)[a + 1..end + 1];
    }
  }
}
