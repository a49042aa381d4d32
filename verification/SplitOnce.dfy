/** Every returned statement is one: splitting it again changes nothing. */
module SplitOnce {
  import opened Wrappers
  import opened SqlLexing
  import opened Splitter

  // ---- dropping a prefix that ends at a token boundary ----

  lemma DropStarts(s: string, a: nat, i: nat, pattern: string)
    requires a <= |s| && a + i <= |s|
    ensures Starts(s[a..], i, pattern) == Starts(s, a + i, pattern)
  {
    if i + |pattern| <= |s| - a {
      assert s[a..][i..i + |pattern|] == s[a + i..a + i + |pattern|];
    }
  }

  lemma {:induction false} DropIndexOf(s: string, a: nat, i: nat, pattern: string)
    requires a + i <= |s|
    ensures var r, d := IndexOf(s, pattern, a + i), IndexOf(s[a..], pattern, i);
      r.Some? == d.Some? && (d.Some? ==> r.value == a + d.value)
    decreases |s| - i
  {
    DropStarts(s, a, i, pattern);
    if a + i < |s| {
      DropIndexOf(s, a, i + 1, pattern);
    }
  }

  lemma {:induction false} DropQuoteEnd(s: string, a: nat, i: nat, quote: char)
    requires a + i <= |s|
    ensures a + QuoteEnd(s[a..], i, quote) == QuoteEnd(s, a + i, quote)
    decreases |s| - i
  {
    if a + i < |s| {
      assert s[a..][i] == s[a + i] && (i + 1 < |s[a..]| ==> s[a..][i + 1] == s[a + i + 1]);
      DropQuoteEnd(s, a, i + 1, quote);
      if a + i + 2 <= |s| {
        DropQuoteEnd(s, a, i + 2, quote);
      }
    }
  }

  lemma {:induction false} DropBlockEnd(s: string, a: nat, i: nat, depth: nat)
    requires a + i <= |s|
    ensures a + BlockEnd(s[a..], i, depth) == BlockEnd(s, a + i, depth)
    decreases |s| - i
  {
    if a + i < |s| && depth > 0 {
      if Is(s, a + i, '/') && Is(s, a + i + 1, '*') {
        DropBlockEnd(s, a, i + 2, depth + 1);
      } else if Is(s, a + i, '*') && Is(s, a + i + 1, '/') {
        DropBlockEnd(s, a, i + 2, depth - 1);
      } else {
        DropBlockEnd(s, a, i + 1, depth);
      }
    }
  }

  lemma {:induction false} DropTagEnd(s: string, a: nat, i: nat)
    requires a + i <= |s|
    ensures a + TagEnd(s[a..], i) == TagEnd(s, a + i)
    decreases |s| - i
  {
    if a + i < |s| {
      DropTagEnd(s, a, i + 1);
    }
  }

  lemma DropTagLength(s: string, a: nat, i: nat)
    requires Is(s, a + i, '$')
    ensures TagLength(s[a..], i) == TagLength(s, a + i)
  {
    DropTagEnd(s, a, i + 1);
  }

  lemma DropDollarEnd(s: string, a: nat, i: nat)
    requires Is(s, a + i, '$') && TagLength(s, a + i) > 0 && TagLength(s[a..], i) == TagLength(s, a + i)
    ensures a + DollarEnd(s[a..], i) == DollarEnd(s, a + i)
  {
    hide IndexOf, TagLength;
    var n := TagLength(s, a + i);
    assert s[a..][i..i + n] == s[a + i..a + i + n];
    DropIndexOf(s, a, i + n, s[a + i..a + i + n]);
  }

  lemma DropToken(s: string, a: nat, i: nat)
    requires a + i < |s|
    ensures KindAt(s[a..], i) == KindAt(s, a + i)
    ensures a + EndAt(s[a..], i) == EndAt(s, a + i)
  {
    hide TagLength, QuoteEnd, BlockEnd, IndexOf, DollarEnd;
    if s[a + i] == '$' {
      DropTagLength(s, a, i);
    }
    match KindAt(s, a + i) {
      case SingleQuoted => DropQuoteEnd(s, a, i + 1, '\'');
      case DoubleQuoted => DropQuoteEnd(s, a, i + 1, '"');
      case LineComment => DropIndexOf(s, a, i + 1, "\n");
      case BlockComment => DropBlockEnd(s, a, i + 2, 1);
      case DollarQuoted => DropDollarEnd(s, a, i);
      case _ =>
    }
  }

  lemma {:induction false} DropSemicolons(s: string, a: nat, i: nat)
    requires a + i <= |s| && Semicolons(s, a + i) == []
    ensures Semicolons(s[a..], i) == []
    decreases |s| - i
  {
    if a + i < |s| {
      DropToken(s, a, i);
      DropSemicolons(s, a, EndAt(s, a + i) - a);
    }
  }

  // ---- dropping a suffix no token depends on ----

  /** A character that neither continues nor closes any token. */
  predicate Benign(c: char) {
    c !in "'\"-/*$" && !TagPart(c)
  }

  /** The character at the cut, and whatever part of the token lies beyond it, are benign. */
  ghost predicate BenignCut(s: string, m: nat, end: nat) {
    forall k :: m <= k < |s| && (k == m || k < end) ==> Benign(s[k])
  }

  function Min(a: nat, b: nat): nat {
    if a <= b then a else b
  }

  lemma {:induction false} CutQuoteEnd(s: string, m: nat, i: nat, quote: char)
    requires i <= m <= |s| && quote in "'\"" && BenignCut(s, m, QuoteEnd(s, i, quote))
    ensures QuoteEnd(s[..m], i, quote) == Min(QuoteEnd(s, i, quote), m)
    decreases m - i
  {
    if i < m {
      if s[i] != quote {
        CutQuoteEnd(s, m, i + 1, quote);
      } else if quote == '\'' && Is(s, i + 1, '\'') {
        assert i + 1 != m;
        CutQuoteEnd(s, m, i + 2, quote);
      }
    }
  }

  lemma {:induction false} CutBlockEnd(s: string, m: nat, i: nat, depth: nat)
    requires i <= m <= |s| && BenignCut(s, m, BlockEnd(s, i, depth))
    ensures BlockEnd(s[..m], i, depth) == Min(BlockEnd(s, i, depth), m)
    decreases m - i
  {
    if i < m && depth > 0 {
      if Is(s, i, '/') && Is(s, i + 1, '*') {
        assert i + 1 != m;
        CutBlockEnd(s, m, i + 2, depth + 1);
      } else if Is(s, i, '*') && Is(s, i + 1, '/') {
        assert i + 1 != m;
        CutBlockEnd(s, m, i + 2, depth - 1);
      } else {
        CutBlockEnd(s, m, i + 1, depth);
      }
    }
  }

  lemma CutLineEnd(s: string, m: nat, i: nat)
    requires i <= m <= |s|
    ensures LineEnd(s[..m], i) == Min(LineEnd(s, i), m)
  {
    LineEndsAtNewline(s, i);
    LineEndsAtNewline(s[..m], i);
    var a, b := LineEnd(s, i), LineEnd(s[..m], i);
    assert b < m ==> s[b] == '\n';
    assert a < m ==> s[..m][a] == '\n';
  }

  lemma {:induction false} CutTagEnd(s: string, m: nat, i: nat)
    requires i <= m <= |s| && (m == |s| || !TagPart(s[m]))
    ensures TagEnd(s[..m], i) == TagEnd(s, i)
    decreases m - i
  {
    if i < m {
      CutTagEnd(s, m, i + 1);
    }
  }

  lemma CutTagLength(s: string, m: nat, i: nat)
    requires i < m <= |s| && Is(s, i, '$') && (m == |s| || Benign(s[m]))
    ensures TagLength(s[..m], i) == TagLength(s, i)
  {
    CutTagEnd(s, m, i + 1);
  }

  lemma CutStarts(s: string, m: nat, k: nat, pattern: string)
    requires m <= |s|
    ensures Starts(s[..m], k, pattern) <==> k + |pattern| <= m && Starts(s, k, pattern)
  {
    if k + |pattern| <= m {
      assert s[..m][k..k + |pattern|] == s[k..k + |pattern|];
    }
  }

  lemma CutIndexOf(s: string, m: nat, i: nat, pattern: string)
    requires i <= m <= |s|
    ensures var r, c := IndexOf(s, pattern, i), IndexOf(s[..m], pattern, i);
      c == if r.Some? && r.value + |pattern| <= m then r else None
  {
    IndexOfIsFirst(s, pattern, i);
    IndexOfIsFirst(s[..m], pattern, i);
    var r, c := IndexOf(s, pattern, i), IndexOf(s[..m], pattern, i);
    if c.Some? {
      CutStarts(s, m, c.value, pattern);
    }
    if r.Some? {
      CutStarts(s, m, r.value, pattern);
    }
  }

  function Tag(s: string, i: nat): string
    requires Is(s, i, '$')
  {
    s[i..i + TagLength(s, i)]
  }

  lemma StartsLast(s: string, k: nat, pattern: string)
    requires pattern != "" && Starts(s, k, pattern)
    ensures s[k + |pattern| - 1] == pattern[|pattern| - 1]
  {
    assert s[k..k + |pattern|][|pattern| - 1] == s[k + |pattern| - 1];
  }

  lemma TagEndsInDollar(s: string, i: nat)
    requires Is(s, i, '$') && TagLength(s, i) > 0
    ensures Tag(s, i)[TagLength(s, i) - 1] == '$'
  {
    var n := TagLength(s, i);
    assert s[i + n - 1] == '$';
  }

  lemma DollarBeforeCut(s: string, m: nat, end: nat)
    requires 0 < end <= |s| && BenignCut(s, m, end) && s[end - 1] == '$'
    ensures end <= m
  {
    assert !Benign(s[end - 1]);
  }

  /** A closing tag never lies across the cut, since its last character is no benign one. */
  lemma ClosesBeforeCut(s: string, m: nat, i: nat)
    requires i < m <= |s| && Is(s, i, '$') && TagLength(s, i) > 0 && BenignCut(s, m, DollarEnd(s, i))
    ensures DollarEnd(s, i) <= m || IndexOf(s, Tag(s, i), i + TagLength(s, i)) == None
  {
    hide TagLength, IndexOf, BenignCut;
    var n, tag := TagLength(s, i), Tag(s, i);
    TagEndsInDollar(s, i);
    IndexOfIsFirst(s, tag, i + n);
    var r := IndexOf(s, tag, i + n);
    if r.Some? {
      StartsLast(s, r.value, tag);
      DollarBeforeCut(s, m, r.value + n);
    }
  }

  lemma CutDollarEnd(s: string, m: nat, i: nat)
    requires i < m <= |s| && Is(s, i, '$') && TagLength(s, i) > 0 && BenignCut(s, m, DollarEnd(s, i))
    requires TagLength(s[..m], i) == TagLength(s, i)
    ensures DollarEnd(s[..m], i) == Min(DollarEnd(s, i), m)
  {
    hide TagLength, IndexOf;
    ClosesBeforeCut(s, m, i);
    assert Tag(s[..m], i) == Tag(s, i);
    CutIndexOf(s, m, i + TagLength(s, i), Tag(s, i));
  }

  lemma CutToken(s: string, m: nat, i: nat)
    requires i < m <= |s| && BenignCut(s, m, EndAt(s, i))
    ensures KindAt(s[..m], i) == KindAt(s, i)
    ensures EndAt(s[..m], i) == Min(EndAt(s, i), m)
  {
    if s[i] == '$' {
      CutTagLength(s, m, i);
    }
    match KindAt(s, i) {
      case SingleQuoted => CutQuoteEnd(s, m, i + 1, '\'');
      case DoubleQuoted => CutQuoteEnd(s, m, i + 1, '"');
      case LineComment => CutLineEnd(s, m, i + 1);
      case BlockComment =>
        assert i + 1 != m;
        CutBlockEnd(s, m, i + 2, 1);
      case DollarQuoted => CutDollarEnd(s, m, i);
      case _ =>
    }
  }

  ghost predicate CutHere(s: string, m: nat, i: nat)
    requires i <= |s|
  {
    && (forall c :: c in Semicolons(s, i) ==> m <= c)
    && (m in Semicolons(s, i) || forall k :: m <= k < |s| ==> Benign(s[k]))
  }

  lemma CutNext(s: string, m: nat, i: nat)
    requires i < m <= |s| && CutHere(s, m, i)
    ensures !KindAt(s, i).Semicolon? && CutHere(s, m, EndAt(s, i)) && BenignCut(s, m, EndAt(s, i))
  {
    SemicolonsNext(s, i);
    var cuts := Semicolons(s, i);
    assert cuts != [] ==> cuts[0] in cuts;
    SemicolonsSorted(s, EndAt(s, i));
    SemicolonsSorted(s, i);
  }

  /** A text cut before its first top-level semicolon, or before trailing spaces, has none left. */
  lemma {:induction false} CutSemicolons(s: string, m: nat, i: nat)
    requires i <= m <= |s| && CutHere(s, m, i)
    ensures Semicolons(s[..m], i) == []
    decreases m - i
  {
    if i < m {
      CutNext(s, m, i);
      CutToken(s, m, i);
      SemicolonsNext(s[..m], i);
      if EndAt(s, i) <= m {
        CutSemicolons(s, m, EndAt(s, i));
      }
    }
  }

  // ---- the statements ----

  lemma SpaceIsBenign(c: char)
    requires Space(c)
    ensures Benign(c) && c != ';'
  {
  }

  lemma {:induction false} SkipSpaces(s: string, i: nat, lead: nat)
    requires i <= lead <= |s| && forall k :: i <= k < lead ==> Space(s[k])
    ensures Semicolons(s, i) == Semicolons(s, lead)
    decreases lead - i
  {
    if i < lead {
      SpaceIsBenign(s[i]);
      assert KindAt(s, i) == Other;
      SemicolonsNext(s, i);
      SkipSpaces(s, i + 1, lead);
    }
  }

  lemma TrimKeepsSingle(s: string)
    requires Semicolons(s, 0) == []
    ensures Semicolons(Trim(s), 0) == []
  {
    hide Semicolons, TrimStart, TrimEnd, Benign;
    var t := TrimStart(s);
    TrimStartDrops(s);
    SkipSpaces(s, 0, |s| - |t|);
    DropSemicolons(s, |s| - |t|, 0);
    var r := TrimEnd(t);
    TrimEndDrops(t);
    forall k | |r| <= k < |t| ensures Benign(t[k]) {
      SpaceIsBenign(t[k]);
    }
    CutSemicolons(t, |r|, 0);
  }

  lemma {:induction false} FirstCut(s: string, i: nat)
    requires i <= |s| && Semicolons(s, i) != []
    ensures var cuts := Semicolons(s, i);
      cuts[0] < |s| && Semicolons(s, cuts[0] + 1) == cuts[1..]
    decreases |s| - i
  {
    SemicolonsNext(s, i);
    if !KindAt(s, i).Semicolon? {
      FirstCut(s, EndAt(s, i));
    }
  }

  lemma PieceIsSingle(s: string, start: nat, end: nat)
    requires start <= end <= |s|
    requires var cuts := Semicolons(s, start); if cuts == [] then end == |s| else end == cuts[0]
    ensures Semicolons(s[start..end], 0) == []
  {
    SemicolonsSorted(s, start);
    CutSemicolons(s, end, start);
    DropSemicolons(s[..end], start, 0);
    assert s[..end][start..] == s[start..end];
  }

  lemma {:induction false} PiecesAreSingle(s: string, start: nat, g: Segment)
    requires start <= |s| && g in Segments(start, Semicolons(s, start), |s|)
    ensures Semicolons(Raw(s, g), 0) == []
    decreases |s| - start
  {
    var cuts := Semicolons(s, start);
    SemicolonsSorted(s, start);
    var end := if cuts == [] then |s| else cuts[0];
    if g == Segment(start, end) {
      PieceIsSingle(s, start, end);
    } else {
      FirstCut(s, start);
      PiecesAreSingle(s, cuts[0] + 1, g);
    }
  }

  /** Splitting a returned statement again gives that statement and nothing else. */
  lemma StatementsAreSingle(sql: string, st: Statement)
    requires st in Split(sql)
    ensures Split(st.sql) == [Statement(st.sql, 0, |st.sql|)]
  {
    StatementsAreTheNonBlankPieces(sql, st);
    var g :| g in Pieces(sql) && IsPiece(sql, g, st);
    PiecesAreSingle(sql, 0, g);
    TrimKeepsSingle(Raw(sql, g));
    TrimTrimmed(Raw(sql, g));
    TrimEmptyIff(Raw(sql, g));
    SegmentsLast(st.sql, 0);
    assert st.sql[0..|st.sql|] == st.sql;
  }
}
