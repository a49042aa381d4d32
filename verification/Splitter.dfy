/** splitStatements: the text cut at its top-level semicolons. */
module Splitter {
  import opened Quoting
  import opened SqlLexing
  import Stripper

  /** What String.trim removes. */
  predicate Space(c: char) {
    || '\t' <= c <= '\r' || c == ' ' || c == '\U{A0}' || c == '\U{1680}' || '\U{2000}' <= c <= '\U{200A}'
    || c == '\U{2028}' || c == '\U{2029}' || c == '\U{202F}' || c == '\U{205F}' || c == '\U{3000}' || c == '\U{FEFF}'
  }

  function TrimStart(s: string): string {
    if s == "" || !Space(s[0]) then s else TrimStart(s[1..])
  }

  function TrimEnd(s: string): string {
    if s == "" || !Space(s[|s| - 1]) then s else TrimEnd(s[..|s| - 1])
  }

  function Trim(s: string): string {
    TrimEnd(TrimStart(s))
  }

  /** TrimStart drops the spaces in front and nothing else. */
  lemma {:induction false} TrimStartDrops(s: string)
    ensures var r := TrimStart(s);
      && |r| <= |s| && r == s[|s| - |r|..] && (r == "" || !Space(r[0]))
      && forall k :: 0 <= k < |s| - |r| ==> Space(s[k])
    decreases |s|
  {
    if s != "" && Space(s[0]) {
      TrimStartDrops(s[1..]);
    }
  }

  lemma {:induction false} TrimEndDrops(s: string)
    ensures var r := TrimEnd(s);
      && |r| <= |s| && r == s[..|r|] && (r == "" || !Space(r[|r| - 1]))
      && forall k :: |r| <= k < |s| ==> Space(s[k])
    decreases |s|
  {
    if s != "" && Space(s[|s| - 1]) {
      TrimEndDrops(s[..|s| - 1]);
    }
  }

  predicate Blank(s: string) {
    forall k :: 0 <= k < |s| ==> Space(s[k])
  }

  lemma TrimEmptyIff(s: string)
    ensures Trim(s) == "" <==> Blank(s)
  {
    var t := TrimStart(s);
    TrimStartDrops(s);
    TrimEndDrops(t);
    if t != "" {
      assert t[0] == s[|s| - |t|];
    }
  }

  lemma TrimTrimmed(s: string)
    ensures Trim(Trim(s)) == Trim(s)
  {
    var t := TrimStart(s);
    var r := TrimEnd(t);
    TrimStartDrops(s);
    TrimEndDrops(t);
    hide TrimStart, TrimEnd;
    if r != "" {
      assert r[0] == t[0];
      NothingToTrim(r);
    } else {
      NothingToTrim("");
    }
  }

  lemma NothingToTrim(s: string)
    requires s == "" || (!Space(s[0]) && !Space(s[|s| - 1]))
    ensures TrimStart(s) == s && TrimEnd(s) == s
  {
  }

  datatype Segment = Segment(start: nat, end: nat)
  datatype Statement = Statement(sql: string, start: nat, end: nat)

  /** The stretches between the cuts. */
  function Segments(start: nat, cuts: seq<nat>, n: nat): (r: seq<Segment>)
    ensures |r| == |cuts| + 1
    decreases |cuts|
  {
    if cuts == [] then [Segment(start, n)]
    else [Segment(start, cuts[0])] + Segments(cuts[0] + 1, cuts[1..], n)
  }

  function Raw(sql: string, g: Segment): string {
    if g.start <= g.end <= |sql| then sql[g.start..g.end] else ""
  }

  function StatementOf(sql: string, g: Segment): Statement {
    Statement(Trim(Raw(sql, g)), g.start, g.end)
  }

  function KeptOne(sql: string, g: Segment): seq<Statement> {
    if Trim(Raw(sql, g)) == "" then [] else [StatementOf(sql, g)]
  }

  function Kept(sql: string, segments: seq<Segment>): seq<Statement> {
    if segments == [] then [] else KeptOne(sql, segments[0]) + Kept(sql, segments[1..])
  }

  function Pieces(sql: string): seq<Segment> {
    Segments(0, Semicolons(sql, 0), |sql|)
  }

  function Split(sql: string): seq<Statement> {
    Kept(sql, Pieces(sql))
  }

  lemma SegmentsCut(sql: string, start: nat, cut: nat, rest: seq<nat>)
    ensures Kept(sql, Segments(start, [cut] + rest, |sql|))
      == KeptOne(sql, Segment(start, cut)) + Kept(sql, Segments(cut + 1, rest, |sql|))
  {
    assert ([cut] + rest)[1..] == rest;
    var all := Segments(start, [cut] + rest, |sql|);
    assert all[1..] == Segments(cut + 1, rest, |sql|);
  }

  lemma SegmentsLast(sql: string, start: nat)
    ensures Kept(sql, Segments(start, [], |sql|)) == KeptOne(sql, Segment(start, |sql|))
  {
    assert [Segment(start, |sql|)][1..] == [];
  }

  method Push(sql: string, statements: seq<Statement>, start: nat, end: nat) returns (r: seq<Statement>, next: nat)
    requires start <= end <= |sql|
    ensures r == statements + KeptOne(sql, Segment(start, end)) && next == end + 1
  {
    var raw := sql[start..end];
    r := statements;
    if |Trim(raw)| > 0 {
      r := r + [Statement(Trim(raw), start, end)];
    }
    next := end + 1;
  }

  lemma SemicolonsNext(sql: string, i: nat)
    requires i < |sql|
    ensures KindAt(sql, i).Semicolon? ==> EndAt(sql, i) == i + 1 && Semicolons(sql, i) == [i] + Semicolons(sql, i + 1)
    ensures !KindAt(sql, i).Semicolon? ==> Semicolons(sql, i) == Semicolons(sql, EndAt(sql, i))
  {
    assert [] + Semicolons(sql, EndAt(sql, i)) == Semicolons(sql, EndAt(sql, i));
  }

  /** A semicolon and a newline at a token boundary are tokens by themselves. */
  lemma SingleTokens(sql: string, i: nat)
    requires i < |sql|
    ensures sql[i] == ';' ==> KindAt(sql, i).Semicolon?
    ensures sql[i] == '\n' ==> !KindAt(sql, i).Semicolon? && EndAt(sql, i) == i + 1
  {
    hide QuoteEnd, LineEnd, BlockEnd;
  }

  lemma NewlineNext(sql: string, i: nat)
    requires i < |sql| && sql[i] == '\n'
    ensures Semicolons(sql, i) == Semicolons(sql, i + 1)
  {
    hide Semicolons, KindAt, EndAt;
    SingleTokens(sql, i);
    SemicolonsNext(sql, i);
  }

  /** What is still to be kept from a token boundary on, with the piece begun at `start` open. */
  function Remaining(sql: string, start: nat, i: nat): seq<Statement> {
    Kept(sql, Segments(start, Semicolons(sql, if i <= |sql| then i else |sql|), |sql|))
  }

  lemma AppendTwice(a: seq<Statement>, b: seq<Statement>, c: seq<Statement>)
    ensures a + (b + c) == (a + b) + c
  {
  }

  lemma RemainingCut(sql: string, done: seq<Statement>, start: nat, i: nat)
    requires i < |sql| && sql[i] == ';'
    ensures done + Remaining(sql, start, i)
      == (done + KeptOne(sql, Segment(start, i))) + Remaining(sql, i + 1, i + 1)
  {
    hide Semicolons, KindAt, EndAt, Kept, KeptOne, Segments;
    SingleTokens(sql, i);
    SemicolonsNext(sql, i);
    AppendTwice(done, KeptOne(sql, Segment(start, i)), Remaining(sql, i + 1, i + 1));
    SegmentsCut(sql, start, i, Semicolons(sql, i + 1));
  }

  lemma RemainingEnd(sql: string, done: seq<Statement>, start: nat, i: nat)
    requires i >= |sql|
    ensures done + Remaining(sql, start, i) == done + KeptOne(sql, Segment(start, |sql|))
  {
    SegmentsLast(sql, start);
  }

  lemma RemainingToken(sql: string, start: nat, i: nat, next: nat)
    requires i < |sql| && !KindAt(sql, i).Semicolon?
    requires (if next <= |sql| then next else |sql|) == EndAt(sql, i)
    ensures Remaining(sql, start, i) == Remaining(sql, start, next)
  {
    SemicolonsNext(sql, i);
  }

  /** Past one token that is no top-level semicolon; a line comment takes its newline along. */
  method SkipOther(sql: string, at: nat, ghost start: nat) returns (i: nat)
    requires at < |sql| && !KindAt(sql, at).Semicolon?
    ensures at < i && Remaining(sql, start, at) == Remaining(sql, start, i)
  {
    hide Kept, Segments, Semicolons, LineEnd;
    i := Stripper.SkipToken(sql, at);
    RemainingToken(sql, start, at, i);
    if KindAt(sql, at).LineComment? && i < |sql| {
      LineEndsAtNewline(sql, at + 1);
      NewlineNext(sql, i);
      i := i + 1;
    }
  }

  method SplitStatements(sql: string) returns (statements: seq<Statement>)
    ensures statements == Split(sql)
  {
    statements := [];
    var start: nat, i: nat := 0, 0;
    while i < |sql|
      invariant start <= i && start <= |sql|
      invariant Split(sql) == statements + Remaining(sql, start, i)
      decreases |sql| - i
    {
      if sql[i] == ';' {
        RemainingCut(sql, statements, start, i);
        statements, start := Push(sql, statements, start, i);
        i := i + 1;
      } else {
        i := SkipOther(sql, i, start);
      }
    }
    RemainingEnd(sql, statements, start, i);
    statements, start := Push(sql, statements, start, |sql|);
  }

  // ---- the pieces tile the text ----

  function Raws(sql: string, segments: seq<Segment>): seq<string> {
    seq(|segments|, k requires 0 <= k < |segments| => Raw(sql, segments[k]))
  }

  lemma JoinRaws(sql: string, g: Segment, rest: seq<Segment>)
    requires rest != []
    ensures Join(Raws(sql, [g] + rest), ";") == Raw(sql, g) + ";" + Join(Raws(sql, rest), ";")
  {
    hide Raw;
    assert Raws(sql, [g] + rest)[1..] == Raws(sql, rest);
  }

  lemma {:induction false} SegmentsTile(sql: string, start: nat, cuts: seq<nat>)
    requires CutsFrom(sql, start, cuts)
    ensures Join(Raws(sql, Segments(start, cuts, |sql|)), ";") == sql[start..]
    decreases |cuts|
  {
    hide Join, Raws;
    if cuts == [] {
      LastTile(sql, start);
    } else {
      TextAroundCut(sql, start, cuts[0]);
      SegmentsTile(sql, cuts[0] + 1, cuts[1..]);
      JoinRaws(sql, Segment(start, cuts[0]), Segments(cuts[0] + 1, cuts[1..], |sql|));
    }
  }

  lemma LastTile(sql: string, start: nat)
    requires start <= |sql|
    ensures Join(Raws(sql, Segments(start, [], |sql|)), ";") == sql[start..]
  {
  }

  lemma TextAroundCut(sql: string, start: nat, cut: nat)
    requires start <= cut < |sql| && sql[cut] == ';'
    ensures sql[start..] == sql[start..cut] + ";" + sql[cut + 1..]
  {
  }

  /** The raw pieces, in order and joined by the semicolons cut out, are the text. */
  lemma PiecesTile(sql: string)
    ensures Join(Raws(sql, Pieces(sql)), ";") == sql
  {
    SemicolonsSorted(sql, 0);
    SegmentsTile(sql, 0, Semicolons(sql, 0));
    assert sql[0..] == sql;
  }

  ghost predicate IsPiece(sql: string, g: Segment, st: Statement) {
    !Blank(Raw(sql, g)) && st == StatementOf(sql, g)
  }

  lemma {:induction false} KeptIsPiece(sql: string, segments: seq<Segment>, st: Statement)
    requires st in Kept(sql, segments)
    ensures exists g :: g in segments && IsPiece(sql, g, st)
    decreases |segments|
  {
    if st in KeptOne(sql, segments[0]) {
      TrimEmptyIff(Raw(sql, segments[0]));
      assert IsPiece(sql, segments[0], st);
    } else {
      KeptIsPiece(sql, segments[1..], st);
      var g :| g in segments[1..] && IsPiece(sql, g, st);
      assert g in segments;
    }
  }

  lemma {:induction false} PieceIsKept(sql: string, segments: seq<Segment>, g: Segment)
    requires g in segments && !Blank(Raw(sql, g))
    ensures StatementOf(sql, g) in Kept(sql, segments)
    decreases |segments|
  {
    TrimEmptyIff(Raw(sql, g));
    if g != segments[0] {
      PieceIsKept(sql, segments[1..], g);
    } else {
      assert StatementOf(sql, g) in KeptOne(sql, g);
    }
  }

  /** The statements are exactly the pieces that are not blank. */
  lemma StatementsAreTheNonBlankPieces(sql: string, st: Statement)
    ensures st in Split(sql) <==> exists g :: g in Pieces(sql) && IsPiece(sql, g, st)
  {
    if st in Split(sql) {
      KeptIsPiece(sql, Pieces(sql), st);
    }
    forall g | g in Pieces(sql) && IsPiece(sql, g, st) ensures st in Split(sql) {
      PieceIsKept(sql, Pieces(sql), g);
    }
  }

  ghost predicate InOrder(statements: seq<Statement>, start: nat, n: nat) {
    && (forall k :: 0 <= k < |statements| ==> start <= statements[k].start <= statements[k].end <= n)
    && forall j, k :: 0 <= j < k < |statements| ==> statements[j].end < statements[k].start
  }

  lemma InOrderCons(one: seq<Statement>, rest: seq<Statement>, start: nat, cut: nat, n: nat)
    requires InOrder(one, start, cut) && |one| <= 1 && InOrder(rest, cut + 1, n) && start <= cut <= n
    ensures InOrder(one + rest, start, n)
  {
  }

  lemma OneInOrder(sql: string, start: nat, cut: nat)
    requires start <= cut <= |sql|
    ensures InOrder(KeptOne(sql, Segment(start, cut)), start, cut) && |KeptOne(sql, Segment(start, cut))| <= 1
  {
  }

  lemma LastInOrder(sql: string, start: nat)
    requires start <= |sql|
    ensures InOrder(Kept(sql, Segments(start, [], |sql|)), start, |sql|)
  {
    SegmentsLast(sql, start);
    OneInOrder(sql, start, |sql|);
  }

  lemma {:induction false} KeptInOrder(sql: string, start: nat, cuts: seq<nat>)
    requires CutsFrom(sql, start, cuts)
    ensures InOrder(Kept(sql, Segments(start, cuts, |sql|)), start, |sql|)
    decreases |cuts|
  {
    hide InOrder, KeptOne, Kept, Segments;
    if cuts == [] {
      LastInOrder(sql, start);
    } else {
      OneInOrder(sql, start, cuts[0]);
      KeptInOrder(sql, cuts[0] + 1, cuts[1..]);
      assert [cuts[0]] + cuts[1..] == cuts;
      SegmentsCut(sql, start, cuts[0], cuts[1..]);
      InOrderCons(KeptOne(sql, Segment(start, cuts[0])), Kept(sql, Segments(cuts[0] + 1, cuts[1..], |sql|)),
        start, cuts[0], |sql|);
    }
  }

  /** The statements come in the order of the text and none overlaps another. */
  lemma StatementsInOrder(sql: string)
    ensures InOrder(Split(sql), 0, |sql|)
  {
    SemicolonsSorted(sql, 0);
    KeptInOrder(sql, 0, Semicolons(sql, 0));
  }

  /** Splitting the stripped text cuts it in the same places. */
  lemma StripKeepsPieces(sql: string)
    ensures Pieces(Stripper.Strip(sql)) == Pieces(sql)
  {
    Stripper.StripKeepsLayout(sql);
    Stripper.StripKeepsSemicolons(sql);
  }
}
