/** fuzzyMatch of fuzzyMatch.ts, on lower-cased text. */
module Fuzzy {
  import opened Wrappers

  /** ranges holds start and end of each matched stretch in turn, as the editor wants them. */
  datatype Match = Match(start: int, span: int, ranges: seq<nat>)

  // ---- embeddings: what a match is ----

  predicate Increasing(e: seq<nat>) {
    forall j, k :: 0 <= j < k < |e| ==> e[j] < e[k]
  }

  /** Positions of the pattern's letters in the name, in order, none before `low`. */
  predicate Embeds(pattern: string, name: string, low: nat, e: seq<nat>) {
    && |e| == |pattern| && Increasing(e)
    && forall k :: 0 <= k < |e| ==> low <= e[k] < |name| && name[e[k]] == pattern[k]
  }

  /** String.indexOf of one character. */
  function IndexOf(name: string, c: char, at: nat): (r: Option<nat>)
    requires at <= |name|
    ensures r.Some? ==> at <= r.value < |name| && name[r.value] == c
    decreases |name| - at
  {
    if at == |name| then None else if name[at] == c then Some(at) else IndexOf(name, c, at + 1)
  }

  lemma {:induction false} IndexOfIsFirst(name: string, c: char, at: nat, p: nat)
    requires at <= p < |name| && name[p] == c
    ensures IndexOf(name, c, at).Some? && IndexOf(name, c, at).value <= p
    decreases |name| - at
  {
    if name[at] != c {
      IndexOfIsFirst(name, c, at + 1, p);
    }
  }

  /** Each letter taken as early as it can be. */
  function Greedy(pattern: string, name: string, at: nat): (r: Option<seq<nat>>)
    requires at <= |name|
    ensures r.Some? ==> |r.value| == |pattern|
    decreases pattern
  {
    if pattern == "" then Some([])
    else
      var first := IndexOf(name, pattern[0], at);
      if first.None? then None
      else
        var rest := Greedy(pattern[1..], name, first.value + 1);
        if rest.None? then None else Some([first.value] + rest.value)
  }

  lemma {:induction false} GreedyEmbeds(pattern: string, name: string, at: nat)
    requires at <= |name| && Greedy(pattern, name, at).Some?
    ensures Embeds(pattern, name, at, Greedy(pattern, name, at).value)
    decreases pattern
  {
    if pattern != "" {
      var first := IndexOf(name, pattern[0], at).value;
      GreedyEmbeds(pattern[1..], name, first + 1);
    }
  }

  /** The greedy positions are each at or before those of any other match. */
  lemma {:induction false} GreedyIsEarliest(pattern: string, name: string, at: nat, e: seq<nat>)
    requires at <= |name| && Embeds(pattern, name, at, e)
    ensures Greedy(pattern, name, at).Some?
    ensures forall k :: 0 <= k < |e| ==> Greedy(pattern, name, at).value[k] <= e[k]
    decreases pattern
  {
    if pattern != "" {
      IndexOfIsFirst(name, pattern[0], at, e[0]);
      var first := IndexOf(name, pattern[0], at);
      assert forall k :: 1 <= k < |e| ==> e[k] > e[0] >= first.value;
      GreedyIsEarliest(pattern[1..], name, first.value + 1, e[1..]);
    }
  }

  // ---- ranges ----

  /** One more matched position: it extends the last range or starts one. */
  function Extend(ranges: seq<nat>, index: nat): seq<nat> {
    if |ranges| > 0 && ranges[|ranges| - 1] == index then ranges[|ranges| - 1 := index + 1]
    else ranges + [index, index + 1]
  }

  function RangesOf(e: seq<nat>): seq<nat> {
    if e == [] then [] else Extend(RangesOf(e[..|e| - 1]), e[|e| - 1])
  }

  /** In pairs, each non-empty and each beginning after a gap. */
  predicate Separate(ranges: seq<nat>) {
    |ranges| % 2 == 0 && forall k :: 0 <= k < |ranges| - 1 ==> ranges[k] < ranges[k + 1]
  }

  predicate InPair(ranges: seq<nat>, k: int, p: nat) {
    0 <= k < |ranges| - 1 && k % 2 == 0 && ranges[k] <= p < ranges[k + 1]
  }

  ghost predicate Covers(ranges: seq<nat>, p: nat) {
    exists k :: InPair(ranges, k, p)
  }

  predicate Before(ranges: seq<nat>, index: nat) {
    ranges == [] || ranges[|ranges| - 1] <= index
  }

  lemma ExtendSeparate(ranges: seq<nat>, index: nat)
    requires Separate(ranges) && Before(ranges, index)
    ensures var r := Extend(ranges, index); Separate(r) && |r| > 0 && r[|r| - 1] == index + 1
  {
  }

  lemma ExtendCovers(ranges: seq<nat>, index: nat, p: nat)
    requires Separate(ranges) && Before(ranges, index)
    ensures Covers(Extend(ranges, index), p) <==> Covers(ranges, p) || p == index
  {
    hide Separate;
    ExtendSeparate(ranges, index);
    var r, n := Extend(ranges, index), |ranges|;
    assert n % 2 == 0 by { EvenLength(ranges); }
    if Covers(ranges, p) {
      var k :| InPair(ranges, k, p);
      assert InPair(r, k, p);
    }
    if p == index {
      LastPair(ranges, index);
    }
    if Covers(r, p) && p != index {
      var k :| InPair(r, k, p);
      assert InPair(ranges, k, p);
    }
  }

  lemma EvenLength(ranges: seq<nat>)
    requires Separate(ranges)
    ensures |ranges| % 2 == 0
  {
  }

  lemma LastPair(ranges: seq<nat>, index: nat)
    requires Separate(ranges) && Before(ranges, index)
    ensures Covers(Extend(ranges, index), index)
  {
    var r := Extend(ranges, index);
    assert InPair(r, |r| - 2, index);
  }

  /** The ranges are disjoint, in order and never touch, and cover exactly the matched letters. */
  lemma {:induction false} RangesCover(e: seq<nat>)
    requires Increasing(e)
    ensures Separate(RangesOf(e)) && (e != [] ==> RangesOf(e) != [] && RangesOf(e)[|RangesOf(e)| - 1] == e[|e| - 1] + 1)
    ensures forall p: nat :: Covers(RangesOf(e), p) <==> p in e
    decreases |e|
  {
    if e != [] {
      var front, last := e[..|e| - 1], e[|e| - 1];
      RangesCover(front);
      ExtendSeparate(RangesOf(front), last);
      assert e == front + [last];
      forall p: nat ensures Covers(RangesOf(e), p) <==> p in e {
        ExtendCovers(RangesOf(front), last, p);
      }
    }
  }

  lemma {:induction false} RangesStart(e: seq<nat>)
    requires Increasing(e) && e != []
    ensures RangesOf(e) != [] && RangesOf(e)[0] == e[0]
    decreases |e|
  {
    var front := e[..|e| - 1];
    if front != [] {
      RangesStart(front);
      RangesCover(front);
      assert front[0] == e[0];
    }
  }

  // ---- fuzzyMatch ----

  /** The match a list of positions makes. */
  function MatchOf(e: seq<nat>): Match {
    if e == [] then Match(0, 0, [])
    else
      var first: int, last: int := e[0], e[|e| - 1];
      Match(first, last + 1 - first, RangesOf(e))
  }

  function FuzzySpec(pattern: string, name: string): Option<Match> {
    var g := Greedy(pattern, name, 0);
    if g.None? then None else Some(MatchOf(g.value))
  }

  /** After i letters: the positions taken so far, and the greedy search still to do from `at`. */
  ghost predicate Progress(pattern: string, name: string, i: nat, at: nat, done: seq<nat>)
    requires i <= |pattern| && at <= |name|
  {
    && |done| == i && Increasing(done) && (if done == [] then at == 0 else at == done[|done| - 1] + 1)
    && var left, all := Greedy(pattern[i..], name, at), Greedy(pattern, name, 0);
      all.Some? == left.Some? && (all.Some? ==> all.value == done + left.value)
  }

  lemma ProgressNext(pattern: string, name: string, i: nat, at: nat, done: seq<nat>)
    requires i < |pattern| && at <= |name| && Progress(pattern, name, i, at, done)
    ensures var index := IndexOf(name, pattern[i], at);
      && (index.None? ==> Greedy(pattern, name, 0) == None)
      && (index.Some? ==> Progress(pattern, name, i + 1, index.value + 1, done + [index.value]))
  {
    assert pattern[i..][1..] == pattern[i + 1..];
    var index := IndexOf(name, pattern[i], at);
    if index.Some? {
      var left := Greedy(pattern[i + 1..], name, index.value + 1);
      if left.Some? {
        assert done + ([index.value] + left.value) == done + [index.value] + left.value;
      }
    }
  }

  lemma ProgressEnd(pattern: string, name: string, at: nat, done: seq<nat>)
    requires at <= |name| && Progress(pattern, name, |pattern|, at, done)
    ensures Greedy(pattern, name, 0) == Some(done)
  {
    assert pattern[|pattern|..] == "" && done + [] == done;
  }

  lemma ProgressStart(pattern: string, name: string)
    ensures Progress(pattern, name, 0, 0, []) && RangesOf([]) == []
  {
    assert pattern[0..] == pattern;
    assert forall r: seq<nat> :: [] + r == r;
  }

  /** Reading start and span off the ranges and the next position to search. */
  lemma MatchFromRanges(e: seq<nat>, at: nat)
    requires Increasing(e) && (if e == [] then at == 0 else at == e[|e| - 1] + 1)
    ensures var ranges := RangesOf(e);
      MatchOf(e) == if |ranges| > 0 then Match(ranges[0], at - ranges[0], ranges) else Match(0, 0, ranges)
  {
    if e != [] {
      RangesStart(e);
    }
  }

  lemma RangesSnoc(done: seq<nat>, index: nat)
    ensures RangesOf(done + [index]) == Extend(RangesOf(done), index)
  {
    assert (done + [index])[..|done|] == done;
  }

  method FuzzyMatch(pattern: string, name: string) returns (r: Option<Match>)
    ensures r == FuzzySpec(pattern, name)
  {
    hide RangesOf, Greedy, MatchOf;
    var ranges: seq<nat> := [];
    var at: nat := 0;
    ghost var done: seq<nat> := [];
    ProgressStart(pattern, name);
    for i := 0 to |pattern|
      invariant at <= |name| && ranges == RangesOf(done)
      invariant Progress(pattern, name, i, at, done)
    {
      hide Progress;
      ProgressNext(pattern, name, i, at, done);
      var index := IndexOf(name, pattern[i], at);
      if index.None? {
        return None;
      }
      if |ranges| > 0 && ranges[|ranges| - 1] == index.value {
        ranges := ranges[|ranges| - 1 := index.value + 1];
      } else {
        ranges := ranges + [index.value, index.value + 1];
      }
      RangesSnoc(done, index.value);
      done := done + [index.value];
      at := index.value + 1;
    }
    ProgressEnd(pattern, name, at, done);
    MatchFromRanges(done, at);
    r := Some(if |ranges| > 0 then Match(ranges[0], at - ranges[0], ranges) else Match(0, 0, ranges));
  }

  /** There is no match exactly when the pattern's letters do not appear in the name in order. */
  lemma NoMatchIff(pattern: string, name: string)
    ensures FuzzySpec(pattern, name).None? <==> forall e: seq<nat> :: !Embeds(pattern, name, 0, e)
  {
    if FuzzySpec(pattern, name).Some? {
      GreedyEmbeds(pattern, name, 0);
    }
    forall e: seq<nat> | Embeds(pattern, name, 0, e) ensures FuzzySpec(pattern, name).Some? {
      GreedyIsEarliest(pattern, name, 0, e);
    }
  }

  /** No match starts earlier, none that starts as early is tighter, and none ends sooner. */
  lemma MatchIsOptimal(pattern: string, name: string, e: seq<nat>)
    requires Embeds(pattern, name, 0, e) && pattern != ""
    ensures FuzzySpec(pattern, name).Some?
    ensures var m := FuzzySpec(pattern, name).value;
      && m.start <= e[0] && m.start + m.span <= e[|e| - 1] + 1
      && (e[0] == m.start ==> m.span <= e[|e| - 1] + 1 - e[0])
  {
    GreedyIsEarliest(pattern, name, 0, e);
    GreedyEmbeds(pattern, name, 0);
    var g := Greedy(pattern, name, 0).value;
    assert g[0] <= e[0] && g[|g| - 1] <= e[|e| - 1];
  }

  /** m begins and ends with these positions and its ranges cover exactly them. */
  ghost predicate IsMatchAt(m: Match, e: seq<nat>) {
    && (e != [] ==> m.start == e[0] && m.start + m.span == e[|e| - 1] + 1)
    && forall p: nat :: Covers(m.ranges, p) <==> p in e
  }

  /** The match is itself an embedding, and its ranges cover exactly its letters. */
  lemma MatchCoversItsLetters(pattern: string, name: string)
    requires FuzzySpec(pattern, name).Some?
    ensures Separate(FuzzySpec(pattern, name).value.ranges)
    ensures exists e: seq<nat> :: Embeds(pattern, name, 0, e) && IsMatchAt(FuzzySpec(pattern, name).value, e)
  {
    var e := Greedy(pattern, name, 0).value;
    GreedyEmbeds(pattern, name, 0);
    RangesCover(e);
    assert IsMatchAt(MatchOf(e), e);
  }
}
