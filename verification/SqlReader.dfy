module SqlReader {
  // Every SQL text can be read as tokens.

  import opened SqlLexing
  import opened SqlTokens
  import opened SplitOnce
  import Stripper

  lemma {:induction false} ReadQuoted(s: string) returns (body: string, closed: bool, after: string)
    ensures s == Doubled(body) + (if closed then "'" else "") + after
    ensures if closed then !Begins(after, '\'') else after == ""
    decreases |s|
  {
    if s == "" {
      body, closed, after := "", false, "";
    } else if s[0] != '\'' {
      body, closed, after := ReadQuoted(s[1..]);
      DoubledCons(s[0], body);
      body := [s[0]] + body;
    } else if Begins(s[1..], '\'') {
      body, closed, after := ReadQuoted(s[2..]);
      DoubledCons('\'', body);
      body := "'" + body;
      assert s == "''" + s[2..];
    } else {
      body, closed, after := "", true, s[1..];
    }
  }

  lemma DoubledCons(c: char, body: string)
    ensures Doubled([c] + body) == (if c == '\'' then "''" else [c]) + Doubled(body)
  {
    assert ([c] + body)[1..] == body;
  }

  lemma CharPrepended(c: char, parts: seq<Part>, after: string)
    requires WellParts(parts, after)
    requires var rest := PartsThen(parts, after); !(c == '/' && Begins(rest, '*')) && !(c == '*' && Begins(rest, '/'))
    ensures PartsThen([Char(c)] + parts, after) == [c] + PartsThen(parts, after) && WellParts([Char(c)] + parts, after)
  {
    assert ([Char(c)] + parts)[1..] == parts;
  }

  lemma NestedPrepended(inner: seq<Part>, parts: seq<Part>, after: string)
    requires WellParts(parts, after) && WellParts(inner, Closed(PartsThen(parts, after)))
    ensures PartsThen([Nested(inner)] + parts, after) == Opened(PartsThen(inner, Closed(PartsThen(parts, after))))
    ensures WellParts([Nested(inner)] + parts, after)
  {
    var all := [Nested(inner)] + parts;
    assert all[1..] == parts;
    NestedText(all, after);
  }

  lemma LevelPrepended(parts: seq<Part>, levels: seq<seq<Part>>)
    requires WellLevels(levels) && WellParts(parts, LevelsText(levels))
    ensures LevelsText([parts] + levels) == Opened(PartsThen(parts, LevelsText(levels))) && WellLevels([parts] + levels)
  {
    assert ([parts] + levels)[1..] == levels;
  }

  /** What stands after the parts of a comment: its end, or more comments that stay open. */
  function Tail(closed: bool, levels: seq<seq<Part>>, after: string): string {
    if closed then Closed(after) else LevelsText(levels)
  }

  lemma {:induction false} ReadParts(s: string)
    returns (parts: seq<Part>, closed: bool, levels: seq<seq<Part>>, after: string)
    ensures s == PartsThen(parts, Tail(closed, levels, after)) && WellParts(parts, Tail(closed, levels, after))
    ensures WellLevels(levels) && (closed || after == "") && (closed ==> |after| < |s|)
    decreases |s|
  {
    hide PartsText, PartsThen, WellParts;
    if s == "" {
      parts, closed, levels, after := [], false, [], "";
      NothingRead("");
    } else if s[0] == '/' && Begins(s[1..], '*') {
      assert s == Opened(s[2..]);
      var inner, c, l, a := ReadParts(s[2..]);
      if c {
        parts, closed, levels, after := ReadParts(a);
        NestedPrepended(inner, parts, Tail(closed, levels, after));
        parts := [Nested(inner)] + parts;
      } else {
        LevelPrepended(inner, l);
        NothingRead(LevelsText([inner] + l));
        parts, closed, levels, after := [], false, [inner] + l, "";
      }
    } else if s[0] == '*' && Begins(s[1..], '/') {
      assert s == Closed(s[2..]);
      NothingRead(s);
      parts, closed, levels, after := [], true, [], s[2..];
    } else {
      parts, closed, levels, after := ReadParts(s[1..]);
      CharPrepended(s[0], parts, Tail(closed, levels, after));
      parts := [Char(s[0])] + parts;
    }
  }

  lemma NothingRead(after: string)
    ensures PartsThen([], after) == after && WellParts([], after)
  {
  }

  lemma {:induction false} ReadUntil(s: string, c: char) returns (body: string, after: string)
    ensures s == body + after && c !in body && (after == "" || after[0] == c)
    decreases |s|
  {
    if s == "" || s[0] == c {
      body, after := "", s;
    } else {
      body, after := ReadUntil(s[1..], c);
      body := [s[0]] + body;
    }
  }

  lemma SplitAtMark(x: string, mark: string) returns (body: string, closed: bool, after: string)
    requires |mark| <= |x| && x[..|mark|] == mark
    ensures closed || after == ""
    ensures x == mark + (if closed then body + mark + after else body)
    ensures if closed then Absent(mark, body + mark + after, |body|) else Absent(mark, body, |body| + 1)
  {
    hide IndexOf;
    var n, s := |mark|, x[|mark|..];
    var close := IndexOf(x, mark, n);
    IndexOfIsFirst(x, mark, n);
    var upto := if close.Some? then close.value - n else |s| + 1;
    forall k: nat | k < upto ensures !Occurs(mark, s, k) {
      OccursStarts(mark, x, n, s, k);
    }
    assert Absent(mark, s, upto);
    assert x == mark + s;
    if close.Some? {
      body, closed, after := s[..upto], true, s[upto + n..];
      OccursStarts(mark, x, n, s, upto);
      assert s == body + mark + after;
    } else {
      body, closed, after := s, false, "";
    }
  }

  lemma ReadDollar(x: string) returns (t: Token, after: string)
    requires OpensDollar(x)
    ensures x == TokenText(t) + after && Fits(t, after)
  {
    hide Absent, ValidTag;
    var n: nat :| OpensWith(x, n);
    var tag := x[1..n + 1];
    assert x[..n + 2] == Mark(tag);
    hide Mark;
    var body, closed, a := SplitAtMark(x, Mark(tag));
    MarkedText(Mark(tag), body, closed, a);
    t, after := Dollar(tag, body, closed), a;
  }

  lemma BlockRead(parts: seq<Part>, after: string)
    ensures Opened(PartsThen(parts, Closed(after))) == TokenText(Block(parts)) + after
  {
    hide PartsText;
  }

  lemma ReadComment(x: string) returns (t: Token, after: string)
    requires x != "" && x[0] == '/' && Begins(x[1..], '*')
    ensures x == TokenText(t) + after && Fits(t, after)
  {
    var parts, closed, levels, a := ReadParts(x[2..]);
    assert x == "/*" + x[2..];
    hide WellParts, PartsText, PartsThen;
    if closed {
      BlockRead(parts, a);
      t, after := Block(parts), a;
    } else {
      LevelPrepended(parts, levels);
      t, after := OpenBlock([parts] + levels), "";
    }
  }

  lemma ReadToken(x: string) returns (t: Token, after: string)
    requires x != ""
    ensures x == TokenText(t) + after && Fits(t, after)
  {
    hide WellParts, PartsText, Doubled, OpensDollar, LevelsText, WellLevels;
    var rest := x[1..];
    if x[0] == '\'' {
      var body, closed, a := ReadQuoted(rest);
      t, after := Single(body, closed), a;
    } else if x[0] == '"' {
      var body, a := ReadUntil(rest, '"');
      if a == "" {
        t, after := Double(body, false), "";
      } else {
        t, after := Double(body, true), a[1..];
      }
    } else if x[0] == '-' && Begins(rest, '-') {
      var body, a := ReadUntil(x[2..], '\n');
      t, after := Line(body), a;
    } else if x[0] == '/' && Begins(rest, '*') {
      t, after := ReadComment(x);
    } else if x[0] == '$' && OpensDollar(x) {
      t, after := ReadDollar(x);
    } else {
      t, after := if x[0] == ';' then Semi else Plain(x[0]), rest;
    }
  }

  lemma TokensPrepended(t: Token, tokens: seq<Token>)
    requires WellFormed(tokens) && Fits(t, Render(tokens))
    ensures WellFormed([t] + tokens) && Render([t] + tokens) == TokenText(t) + Render(tokens)
  {
    assert ([t] + tokens)[1..] == tokens;
  }

  /** Every text whatever is put together from tokens, so what follows speaks of all texts. */
  lemma {:induction false} EveryTextHasTokens(sql: string) returns (tokens: seq<Token>)
    ensures WellFormed(tokens) && Render(tokens) == sql
    decreases |sql|
  {
    if sql == "" {
      tokens := [];
    } else {
      var t, after := ReadToken(sql);
      TokenEnds(sql, t, after);
      tokens := EveryTextHasTokens(after);
      TokensPrepended(t, tokens);
      tokens := [t] + tokens;
    }
  }

  /** So every text is cut exactly at the semicolons that stand by themselves in it. */
  lemma EveryTextIsCutThere(sql: string) returns (tokens: seq<Token>)
    ensures WellFormed(tokens) && Render(tokens) == sql && Semicolons(sql, 0) == Semis(tokens, 0)
  {
    tokens := EveryTextHasTokens(sql);
    CutsAreTheFreeSemicolons(tokens);
  }

  // ---- what is left when literals and comments are blanked ----

  /** Line breaks stay, everything else is a space. */
  function Spaces(text: string): (r: string)
    ensures |r| == |text| && forall k :: 0 <= k < |text| ==> r[k] == if text[k] == '\n' then '\n' else ' '
  {
    if text == "" then "" else [if text[0] == '\n' then '\n' else ' '] + Spaces(text[1..])
  }

  /** Plain characters, semicolons and quoted identifiers stay; strings and comments become spaces. */
  function Bared(tokens: seq<Token>): string {
    if tokens == [] then ""
    else
      var t := tokens[0];
      (if t.Plain? || t.Semi? || t.Double? then TokenText(t) else Spaces(TokenText(t))) + Bared(tokens[1..])
  }

  lemma BlankIsSpaces(text: string)
    ensures Stripper.Blank(text) == Spaces(text)
  {
    hide Stripper.Blank, Spaces;
    assert forall k :: 0 <= k < |text| ==> Stripper.Blank(text)[k] == Spaces(text)[k];
  }

  lemma ShownIs(sql: string, i: nat)
    requires i < |sql|
    ensures var k, text := KindAt(sql, i), sql[i..EndAt(sql, i)];
      Stripper.Shown(sql, i) == if k.Other? || k.Semicolon? || k.DoubleQuoted? then text else Spaces(text)
  {
    hide KindAt, EndAt, Stripper.Blank, Spaces;
    BlankIsSpaces(sql[i..EndAt(sql, i)]);
  }

  lemma SliceIs(sql: string, i: nat, piece: string, after: string)
    requires i <= |sql| && sql[i..] == piece + after
    ensures i + |piece| <= |sql| && sql[i..i + |piece|] == piece
  {
    assert |sql[i..]| == |sql| - i;
    assert sql[i..i + |piece|] == sql[i..][..|piece|] == piece;
  }

  lemma TokenShown(sql: string, i: nat, t: Token, after: string)
    requires i <= |sql| && sql[i..] == TokenText(t) + after && Fits(t, after)
    ensures i < |sql| && EndAt(sql, i) == i + |TokenText(t)| && sql[EndAt(sql, i)..] == after
    ensures Stripper.Shown(sql, i) == if t.Plain? || t.Semi? || t.Double? then TokenText(t) else Spaces(TokenText(t))
  {
    hide *;
    TokenEnds(sql[i..], t, after);
    At(sql, i, TokenText(t), after);
    DropToken(sql, i, 0);
    SliceIs(sql, i, TokenText(t), after);
    ShownIs(sql, i);
  }

  lemma BaredCons(tokens: seq<Token>)
    requires tokens != []
    ensures var t := tokens[0];
      Bared(tokens) == (if t.Plain? || t.Semi? || t.Double? then TokenText(t) else Spaces(TokenText(t))) + Bared(tokens[1..])
  {
  }

  lemma StripNext(sql: string, i: nat)
    requires i < |sql|
    ensures Stripper.StripFrom(sql, i) == Stripper.Shown(sql, i) + Stripper.StripFrom(sql, EndAt(sql, i))
  {
  }

  lemma NothingStripped(sql: string, i: nat)
    requires i <= |sql| && sql[i..] == Render([])
    ensures Stripper.StripFrom(sql, i) == Bared([])
  {
    assert |sql[i..]| == 0;
  }

  lemma {:induction false} StripsFrom(sql: string, i: nat, tokens: seq<Token>)
    requires i <= |sql| && sql[i..] == Render(tokens) && WellFormed(tokens)
    ensures Stripper.StripFrom(sql, i) == Bared(tokens)
    decreases |tokens|
  {
    hide *;
    if tokens == [] {
      NothingStripped(sql, i);
    } else {
      RenderCons(tokens);
      TokenShown(sql, i, tokens[0], Render(tokens[1..]));
      StripNext(sql, i);
      BaredCons(tokens);
      StripsFrom(sql, EndAt(sql, i), tokens[1..]);
    }
  }

  /** Every text stripped is its tokens with exactly the strings and comments blanked. */
  lemma EveryTextIsBared(sql: string) returns (tokens: seq<Token>)
    ensures WellFormed(tokens) && Render(tokens) == sql && Stripper.Strip(sql) == Bared(tokens)
  {
    tokens := EveryTextHasTokens(sql);
    assert sql[0..] == sql;
    StripsFrom(sql, 0, tokens);
  }
}
