/** Splicing several indexes out of an array, one by one, as removeRows of resultStore.ts does it. */
module Splices {
  /** Array.splice(idx, 1): an index past the end removes nothing. */
  function Splice<T>(s: seq<T>, idx: nat): seq<T> {
    if idx < |s| then s[..idx] + s[idx + 1..] else s
  }

  function SpliceAll<T>(s: seq<T>, indexes: seq<nat>): seq<T>
    decreases |indexes|
  {
    if |indexes| == 0 then s else SpliceAll(Splice(s, indexes[0]), indexes[1..])
  }

  ghost predicate Descending(s: seq<nat>) {
    forall i, j :: 0 <= i < j < |s| ==> s[i] >= s[j]
  }

  function InsertDescending(s: seq<nat>, v: nat): seq<nat> {
    if |s| == 0 || v >= s[0] then [v] + s else [s[0]] + InsertDescending(s[1..], v)
  }

  function SortDescending(s: seq<nat>): seq<nat> {
    if |s| == 0 then [] else InsertDescending(SortDescending(s[1..]), s[0])
  }

  lemma {:induction false} InsertKeeps(s: seq<nat>, v: nat)
    ensures multiset(InsertDescending(s, v)) == multiset(s) + multiset{v}
  {
    if |s| > 0 && v < s[0] {
      InsertKeeps(s[1..], v);
      assert s == [s[0]] + s[1..];
    }
  }

  lemma {:induction false} InsertBounded(s: seq<nat>, v: nat, most: nat)
    requires v <= most && forall k :: 0 <= k < |s| ==> s[k] <= most
    ensures forall k :: 0 <= k < |InsertDescending(s, v)| ==> InsertDescending(s, v)[k] <= most
  {
    if |s| > 0 && v < s[0] { InsertBounded(s[1..], v, most); }
  }

  lemma ConsDescending(first: nat, rest: seq<nat>)
    requires Descending(rest) && forall k :: 0 <= k < |rest| ==> rest[k] <= first
    ensures Descending([first] + rest)
  {
  }

  lemma {:induction false} InsertSorts(s: seq<nat>, v: nat)
    requires Descending(s)
    ensures Descending(InsertDescending(s, v))
  {
    if |s| > 0 && v < s[0] {
      InsertSorts(s[1..], v);
      InsertBounded(s[1..], v, s[0]);
      ConsDescending(s[0], InsertDescending(s[1..], v));
    } else {
      ConsDescending(v, s);
    }
  }

  /** The sort puts the indexes in descending order and keeps every one of them. */
  lemma {:induction false} SortSorts(s: seq<nat>)
    ensures Descending(SortDescending(s)) && multiset(SortDescending(s)) == multiset(s)
  {
    if |s| > 0 {
      SortSorts(s[1..]);
      InsertSorts(SortDescending(s[1..]), s[0]);
      InsertKeeps(SortDescending(s[1..]), s[0]);
      assert s == [s[0]] + s[1..];
    }
  }

  predicate DistinctNats(s: seq<nat>) {
    forall i, j :: 0 <= i < j < |s| ==> s[i] != s[j]
  }

  predicate InRange(s: seq<nat>, n: nat) {
    forall i :: 0 <= i < |s| ==> s[i] < n
  }

  ghost predicate StrictlyDescending(s: seq<nat>) {
    forall i, j :: 0 <= i < j < |s| ==> s[i] > s[j]
  }

  lemma {:induction false} SpliceShortens<T>(rows: seq<T>, removed: seq<nat>)
    requires StrictlyDescending(removed) && InRange(removed, |rows|)
    ensures |SpliceAll(rows, removed)| == |rows| - |removed|
    decreases |removed|
  {
    if |removed| > 0 {
      SpliceShortens(Splice(rows, removed[0]), removed[1..]);
    }
  }

  lemma {:induction false} DistinctCounts(s: seq<nat>)
    requires DistinctNats(s)
    ensures forall v :: multiset(s)[v] <= 1
  {
    if |s| > 0 {
      DistinctCounts(s[1..]);
      assert s == [s[0]] + s[1..];
      assert s[0] !in s[1..];
      assert multiset(s) == multiset{s[0]} + multiset(s[1..]);
    }
  }

  lemma RepeatedCounts(s: seq<nat>, i: nat, j: nat)
    requires i < j < |s| && s[i] == s[j]
    ensures multiset(s)[s[i]] >= 2
  {
    assert s == s[..i] + [s[i]] + s[i + 1..j] + [s[j]] + s[j + 1..];
  }

  /** Sorting distinct indexes leaves them strictly descending, and the same indexes. */
  lemma SortStrict(removed: seq<nat>, n: nat)
    requires DistinctNats(removed) && InRange(removed, n)
    ensures StrictlyDescending(SortDescending(removed)) && InRange(SortDescending(removed), n)
    ensures |SortDescending(removed)| == |removed|
    ensures forall v :: v in SortDescending(removed) <==> v in removed
  {
    var sorted := SortDescending(removed);
    SortSorts(removed);
    DistinctCounts(removed);
    forall v ensures v in sorted <==> v in removed {
      assert v in sorted <==> v in multiset(sorted);
      assert v in removed <==> v in multiset(removed);
    }
    assert |multiset(sorted)| == |multiset(removed)|;
    assert forall k :: 0 <= k < |sorted| ==> sorted[k] in removed;
    forall i, j | 0 <= i < j < |sorted| ensures sorted[i] > sorted[j] {
      if sorted[i] == sorted[j] {
        RepeatedCounts(sorted, i, j);
      }
    }
  }
}
