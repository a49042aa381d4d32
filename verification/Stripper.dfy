module Stripper {
  // stripLiterals.

  import opened SqlLexing

  /** Everything but the newlines becomes a space. */
  function Blank(s: string): (r: string)
    ensures |r| == |s| && forall k :: 0 <= k < |s| ==> r[k] == if s[k] == '\n' then '\n' else ' '
  {
    seq(|s|, k requires 0 <= k < |s| => if s[k] == '\n' then '\n' else ' ')
  }

  predicate Hidden(k: Kind) {
    k.SingleQuoted? || k.LineComment? || k.BlockComment? || k.DollarQuoted?
  }

  /** What the token at i becomes. */
  function Shown(sql: string, i: nat): (piece: string)
    requires i < |sql|
    ensures |piece| == EndAt(sql, i) - i
  {
    var text := sql[i..EndAt(sql, i)];
    if Hidden(KindAt(sql, i)) then Blank(text) else text
  }

  /** Literals and comments blanked from the token boundary i on; quoted identifiers stay. */
  function StripFrom(sql: string, i: nat): (r: string)
    requires i <= |sql|
    ensures |r| == |sql| - i
    decreases |sql| - i
  {
    if i == |sql| then "" else Shown(sql, i) + StripFrom(sql, EndAt(sql, i))
  }

  function Strip(sql: string): string {
    StripFrom(sql, 0)
  }

  method SkipQuoted(sql: string, start: nat, quote: char) returns (i: nat)
    requires start < |sql|
    ensures start < i && (if i <= |sql| then i else |sql|) == QuoteEnd(sql, start + 1, quote)
  {
    i := start + 1;
    while i < |sql|
      invariant start < i <= |sql| && QuoteEnd(sql, start + 1, quote) == QuoteEnd(sql, i, quote)
      decreases |sql| - i
    {
      if sql[i] == quote {
        if quote == '\'' && Is(sql, i + 1, '\'') {
          i := i + 2;
          continue;
        }
        break;
      }
      i := i + 1;
    }
    i := i + 1;
  }

  method SkipBlock(sql: string, start: nat) returns (i: nat)
    requires start + 2 <= |sql|
    ensures i == BlockEnd(sql, start + 2, 1)
  {
    var depth := 1;
    i := start + 2;
    while i < |sql| && depth > 0
      invariant start < i <= |sql| && depth >= 0
      invariant BlockEnd(sql, start + 2, 1) == BlockEnd(sql, i, depth)
      decreases |sql| - i
    {
      if sql[i] == '/' && Is(sql, i + 1, '*') {
        depth := depth + 1;
        i := i + 2;
      } else if sql[i] == '*' && Is(sql, i + 1, '/') {
        depth := depth - 1;
        i := i + 2;
      } else {
        i := i + 1;
      }
    }
  }

  lemma StripToken(sql: string, i: nat, out: string)
    requires i < |sql|
    ensures out + StripFrom(sql, i) == out + Shown(sql, i) + StripFrom(sql, EndAt(sql, i))
  {
  }

  lemma LineEndNext(sql: string, i: nat)
    requires i < |sql| && sql[i] != '\n'
    ensures LineEnd(sql, i) == LineEnd(sql, i + 1)
  {
    assert !Starts(sql, i, "\n");
  }

  /** Moves past one token; past the end by one when a quote is never closed. */
  method SkipToken(sql: string, start: nat) returns (i: nat)
    requires start < |sql|
    ensures (if i <= |sql| then i else |sql|) == EndAt(sql, start)
  {
    var c := sql[start];
    if c == '\'' || c == '"' {
      i := SkipQuoted(sql, start, c);
    } else if c == '-' && Is(sql, start + 1, '-') {
      LineEndNext(sql, start);
      i := LineEnd(sql, start);
    } else if c == '/' && Is(sql, start + 1, '*') {
      i := SkipBlock(sql, start);
    } else if c == '$' && TagLength(sql, start) > 0 {
      i := DollarEnd(sql, start);
    } else {
      i := start + 1;
    }
  }

  method StripLiterals(sql: string) returns (out: string)
    ensures out == Strip(sql)
  {
    out := "";
    var i := 0;
    while i < |sql|
      invariant 0 <= i && Strip(sql) == out + StripFrom(sql, if i <= |sql| then i else |sql|)
      decreases |sql| - i
    {
      var start, before := i, out;
      i := SkipToken(sql, start);
      var end := if i <= |sql| then i else |sql|;
      if Hidden(KindAt(sql, start)) {
        out := out + Blank(sql[start..end]);
      } else {
        out := out + sql[start..end];
      }
      StripToken(sql, start, before);
    }
    assert out + "" == out;
  }

  /** One character within a token, and what it is shown as. */
  lemma ShownPointwise(sql: string, i: nat, k: nat)
    requires i < |sql| && i <= k < EndAt(sql, i)
    ensures var c := Shown(sql, i)[k - i];
      (c == sql[k] || c == ' ') && (c == '\n' <==> sql[k] == '\n')
  {
    hide KindAt, EndAt;
    assert sql[i..EndAt(sql, i)][k - i] == sql[k];
  }

  /** Position k of the text from i on, in the stripped text. */
  lemma {:induction false} StripPointwise(sql: string, i: nat, k: nat)
    requires i <= k < |sql|
    ensures var c := StripFrom(sql, i)[k - i];
      (c == sql[k] || c == ' ') && (c == '\n' <==> sql[k] == '\n')
    decreases |sql| - i
  {
    hide KindAt, EndAt, Shown;
    var end := EndAt(sql, i);
    assert StripFrom(sql, i) == Shown(sql, i) + StripFrom(sql, end);
    if k < end {
      ShownPointwise(sql, i, k);
    } else {
      StripPointwise(sql, end, k);
    }
  }

  /** Stripping keeps the length, every line break, and every character it does not blank. */
  lemma StripKeepsLayout(sql: string)
    ensures |Strip(sql)| == |sql|
    ensures forall k :: 0 <= k < |sql| ==> Strip(sql)[k] == sql[k] || Strip(sql)[k] == ' '
    ensures forall k :: 0 <= k < |sql| ==> (Strip(sql)[k] == '\n' <==> sql[k] == '\n')
  {
    forall k | 0 <= k < |sql|
      ensures Strip(sql)[k] == sql[k] || Strip(sql)[k] == ' '
      ensures Strip(sql)[k] == '\n' <==> sql[k] == '\n'
    {
      StripPointwise(sql, 0, k);
    }
  }

  /** `out` is some text whose part from i on is the stripped one. */
  ghost predicate StrippedFrom(sql: string, out: string, i: nat) {
    |out| == |sql| && i <= |sql| && out[i..] == StripFrom(sql, i)
  }

  lemma StrippedNext(sql: string, out: string, i: nat)
    requires i < |sql| && StrippedFrom(sql, out, i)
    ensures StrippedFrom(sql, out, EndAt(sql, i))
    ensures Hidden(KindAt(sql, i)) ==> forall k :: i <= k < EndAt(sql, i) ==> out[k] == ' ' || out[k] == '\n'
    ensures !Hidden(KindAt(sql, i)) ==> out[i..EndAt(sql, i)] == sql[i..EndAt(sql, i)]
  {
    var end, piece := EndAt(sql, i), Shown(sql, i);
    assert out[i..] == piece + StripFrom(sql, end);
    assert out[i..end] == out[i..][..end - i] == piece;
    assert out[end..] == out[i..][end - i..] == StripFrom(sql, end);
    assert forall k :: i <= k < end ==> out[k] == out[i..end][k - i];
  }

  lemma StrippedAt(sql: string, out: string, i: nat, k: nat)
    requires StrippedFrom(sql, out, i) && i <= k < |sql|
    ensures out[k] == sql[k] || out[k] == ' '
  {
    StripPointwise(sql, i, k);
    assert out[k] == out[i..][k - i];
  }

  /** Each character from i on is the same or a space. */
  ghost predicate BlankedFrom(sql: string, out: string, i: nat) {
    |out| == |sql| && forall k :: i <= k < |sql| ==> out[k] == sql[k] || out[k] == ' '
  }

  /** Blanking creates no dollar-quote tag. */
  lemma NoNewTag(sql: string, out: string, i: nat)
    requires BlankedFrom(sql, out, i) && Is(sql, i, '$') && Is(out, i, '$')
    ensures TagLength(out, i) > 0 ==> TagLength(sql, i) > 0
  {
    var n := TagLength(out, i);
    TagEndStops(out, i + 1);
    if n > 2 {
      assert forall k :: i < k < i + n ==> out[k] == sql[k];
      SameTagEnd(sql, out, i + 1, i + n - 1);
    }
  }

  lemma {:induction false} SameTagEnd(sql: string, out: string, i: nat, end: nat)
    requires i <= end < |sql| == |out| && !TagPart(out[end])
    requires forall k :: i <= k <= end ==> out[k] == sql[k]
    requires forall k :: i <= k < end ==> TagPart(out[k])
    ensures TagEnd(sql, i) == end
    decreases end - i
  {
    if i < end {
      SameTagEnd(sql, out, i + 1, end);
    }
  }

  lemma {:induction false} SameDoubleQuote(sql: string, out: string, i: nat)
    requires |out| == |sql| && i <= |sql|
    requires var end := QuoteEnd(sql, i, '"'); out[i..end] == sql[i..end]
    ensures QuoteEnd(out, i, '"') == QuoteEnd(sql, i, '"')
    decreases |sql| - i
  {
    var end := QuoteEnd(sql, i, '"');
    if i < |sql| {
      assert i < end;
      assert out[i] == out[i..end][0] == sql[i];
      if sql[i] != '"' {
        assert out[i + 1..end] == out[i..end][1..] == sql[i + 1..end];
        SameDoubleQuote(sql, out, i + 1);
      }
    }
  }

  /** A token that is kept is lexed again as itself. */
  lemma KeptTokenStays(sql: string, out: string, i: nat)
    requires i < |sql| && StrippedFrom(sql, out, i) && !Hidden(KindAt(sql, i))
    ensures KindAt(out, i) == KindAt(sql, i) && EndAt(out, i) == EndAt(sql, i)
  {
    StrippedNext(sql, out, i);
    var end := EndAt(sql, i);
    assert out[i] == out[i..end][0] == sql[i];
    if sql[i] == '"' {
      assert out[i + 1..end] == out[i..end][1..] == sql[i + 1..end];
      SameDoubleQuote(sql, out, i + 1);
    } else if i + 1 < |sql| {
      StrippedAt(sql, out, i, i + 1);
    }
    if sql[i] == '$' {
      forall k | i <= k < |sql| ensures out[k] == sql[k] || out[k] == ' ' {
        StrippedAt(sql, out, i, k);
      }
      NoNewTag(sql, out, i);
    }
  }

  lemma BlankIsOther(out: string, i: nat)
    requires i < |out| && (out[i] == ' ' || out[i] == '\n')
    ensures KindAt(out, i) == Other && EndAt(out, i) == i + 1
  {
  }

  /** No token from i on is a literal or a comment. */
  predicate NothingHidden(sql: string, i: nat)
    requires i <= |sql|
    decreases |sql| - i
  {
    i == |sql| || (!Hidden(KindAt(sql, i)) && NothingHidden(sql, EndAt(sql, i)))
  }

  lemma {:induction false} BlankRun(out: string, i: nat, end: nat)
    requires i <= end <= |out| && forall k :: i <= k < end ==> out[k] == ' ' || out[k] == '\n'
    ensures Semicolons(out, i) == Semicolons(out, end)
    ensures NothingHidden(out, i) == NothingHidden(out, end)
    decreases end - i
  {
    if i < end {
      BlankIsOther(out, i);
      BlankRun(out, i + 1, end);
      assert [] + Semicolons(out, i + 1) == Semicolons(out, i + 1);
    }
  }

  ghost predicate SameFrom(sql: string, out: string, i: nat)
    requires i <= |sql| && i <= |out|
  {
    Semicolons(out, i) == Semicolons(sql, i) && NothingHidden(out, i)
  }

  lemma SameAtHidden(sql: string, out: string, i: nat)
    requires i < |sql| && StrippedFrom(sql, out, i) && Hidden(KindAt(sql, i)) && SameFrom(sql, out, EndAt(sql, i))
    ensures SameFrom(sql, out, i)
  {
    StrippedNext(sql, out, i);
    BlankRun(out, i, EndAt(sql, i));
  }

  lemma SameAtKept(sql: string, out: string, i: nat)
    requires i < |sql| && StrippedFrom(sql, out, i) && !Hidden(KindAt(sql, i)) && SameFrom(sql, out, EndAt(sql, i))
    ensures SameFrom(sql, out, i)
  {
    KeptTokenStays(sql, out, i);
  }

  lemma {:induction false} StrippedLexes(sql: string, out: string, i: nat)
    requires StrippedFrom(sql, out, i)
    ensures SameFrom(sql, out, i)
    decreases |sql| - i
  {
    if i < |sql| {
      StrippedNext(sql, out, i);
      StrippedLexes(sql, out, EndAt(sql, i));
      if Hidden(KindAt(sql, i)) {
        SameAtHidden(sql, out, i);
      } else {
        SameAtKept(sql, out, i);
      }
    }
  }

  /** Stripping moves no top-level semicolon, and makes or removes none. */
  lemma StripKeepsSemicolons(sql: string)
    ensures Semicolons(Strip(sql), 0) == Semicolons(sql, 0)
  {
    assert Strip(sql)[0..] == Strip(sql);
    StrippedLexes(sql, Strip(sql), 0);
  }

  /** No literal, dollar quote or comment is left, so a keyword scan sees only code and quoted identifiers. */
  lemma StripLeavesNothingHidden(sql: string)
    ensures NothingHidden(Strip(sql), 0)
  {
    assert Strip(sql)[0..] == Strip(sql);
    StrippedLexes(sql, Strip(sql), 0);
  }

  lemma {:induction false} CleanIsFixed(sql: string, i: nat)
    requires i <= |sql| && NothingHidden(sql, i)
    ensures StripFrom(sql, i) == sql[i..]
    decreases |sql| - i
  {
    if i < |sql| {
      CleanIsFixed(sql, EndAt(sql, i));
      assert sql[i..EndAt(sql, i)] + sql[EndAt(sql, i)..] == sql[i..];
    }
  }

  lemma StripIdempotent(sql: string)
    ensures Strip(Strip(sql)) == Strip(sql)
  {
    StripLeavesNothingHidden(sql);
    CleanIsFixed(Strip(sql), 0);
  }
}
