module SqlTokens {
  // Where SQL text is cut, said of texts put together from their tokens.

  import opened Wrappers
  import opened SqlLexing
  import opened SplitOnce
  import opened Splitter

  /** A piece of a block comment: a character, or a comment inside it. */
  datatype Part = Char(c: char) | Nested(parts: seq<Part>)

  /** What a text consists of. An unclosed comment has a level for every comment still open in it. */
  datatype Token =
    | Plain(c: char)
    | Semi
    | Single(body: string, closed: bool)
    | Double(body: string, closed: bool)
    | Line(body: string)
    | Block(parts: seq<Part>)
    | OpenBlock(levels: seq<seq<Part>>)
    | Dollar(tag: string, body: string, closed: bool)

  /** Inside single quotes a quote is written twice. */
  function Doubled(s: string): string {
    if s == "" then "" else (if s[0] == '\'' then "''" else [s[0]]) + Doubled(s[1..])
  }

  function PartsText(parts: seq<Part>): string {
    if parts == [] then ""
    else (match parts[0] case Char(c) => [c] case Nested(inner) => "/*" + PartsText(inner) + "*/") + PartsText(parts[1..])
  }

  function Opened(rest: string): string {
    "/*" + rest
  }

  function Closed(rest: string): string {
    "*/" + rest
  }

  function PartsThen(parts: seq<Part>, after: string): string {
    PartsText(parts) + after
  }

  function LevelsText(levels: seq<seq<Part>>): string {
    if levels == [] then "" else Opened(PartsThen(levels[0], LevelsText(levels[1..])))
  }

  function TokenText(t: Token): string {
    match t
    case Plain(c) => [c]
    case Semi => ";"
    case Single(body, closed) => "'" + Doubled(body) + (if closed then "'" else "")
    case Double(body, closed) => "\"" + body + (if closed then "\"" else "")
    case Line(body) => "--" + body
    case Block(parts) => "/*" + PartsText(parts) + "*/"
    case OpenBlock(levels) => LevelsText(levels)
    case Dollar(tag, body, closed) => Mark(tag) + body + (if closed then Mark(tag) else "")
  }

  function Render(tokens: seq<Token>): string {
    if tokens == [] then "" else TokenText(tokens[0]) + Render(tokens[1..])
  }

  predicate Begins(s: string, c: char) {
    s != "" && s[0] == c
  }

  predicate ValidTag(tag: string) {
    && (tag != "" ==> !('0' <= tag[0] <= '9'))
    && forall i :: 0 <= i < |tag| ==>
         'A' <= tag[i] <= 'Z' || 'a' <= tag[i] <= 'z' || tag[i] == '_' || '0' <= tag[i] <= '9'
  }

  predicate OpensWith(s: string, n: nat) {
    n + 2 <= |s| && s[0] == '$' && ValidTag(s[1..n + 1]) && s[n + 1] == '$'
  }

  /** A dollar quote opens here, with some tag. */
  ghost predicate OpensDollar(s: string) {
    exists n: nat :: OpensWith(s, n)
  }

  /** No two neighbouring characters open or close a comment by accident. */
  predicate WellParts(parts: seq<Part>, after: string) {
    parts == [] || (
      var rest := PartsThen(parts[1..], after);
      && WellParts(parts[1..], after)
      && match parts[0]
         case Char(c) => !(c == '/' && Begins(rest, '*')) && !(c == '*' && Begins(rest, '/'))
         case Nested(inner) => WellParts(inner, Closed(rest)))
  }

  predicate WellLevels(levels: seq<seq<Part>>) {
    levels == [] || (WellParts(levels[0], LevelsText(levels[1..])) && WellLevels(levels[1..]))
  }

  predicate Occurs(pattern: string, s: string, k: nat) {
    k + |pattern| <= |s| && s[k..k + |pattern|] == pattern
  }

  /** The pattern occurs nowhere in s before `upto`. */
  ghost predicate Absent(pattern: string, s: string, upto: nat) {
    forall k: nat :: k < upto ==> !Occurs(pattern, s, k)
  }

  function Mark(tag: string): string {
    "$" + tag + "$"
  }

  /** The token is what it says when `after` follows it. */
  ghost predicate Fits(t: Token, after: string) {
    match t
    case Plain(c) =>
      && c != ';' && c != '\'' && c != '"' && !(c == '-' && Begins(after, '-')) && !(c == '/' && Begins(after, '*'))
      && (c == '$' ==> !OpensDollar([c] + after))
    case Semi => true
    case Single(_, closed) => if closed then !Begins(after, '\'') else after == ""
    case Double(body, closed) => '"' !in body && (closed || after == "")
    case Line(body) => '\n' !in body && (after == "" || after[0] == '\n')
    case Block(parts) => WellParts(parts, Closed(after))
    case OpenBlock(levels) => levels != [] && WellLevels(levels) && after == ""
    case Dollar(tag, body, closed) =>
      && ValidTag(tag) && (closed || after == "")
      && if closed then Absent(Mark(tag), body + Mark(tag) + after, |body|) else Absent(Mark(tag), body, |body| + 1)
  }

  ghost predicate WellFormed(tokens: seq<Token>) {
    tokens == [] || (Fits(tokens[0], Render(tokens[1..])) && WellFormed(tokens[1..]))
  }

  /** Where the semicolons that stand by themselves are. */
  function Semis(tokens: seq<Token>, from: nat): seq<nat> {
    if tokens == [] then []
    else (if tokens[0].Semi? then [from] else []) + Semis(tokens[1..], from + |TokenText(tokens[0])|)
  }

  // ---- each token is skipped whole ----

  /** Reading past a piece of the text. */
  lemma At(x: string, i: nat, piece: string, rest: string)
    requires i <= |x| && x[i..] == piece + rest
    ensures i + |piece| <= |x| && x[i + |piece|..] == rest
    ensures forall k :: 0 <= k < |piece| ==> x[i + k] == piece[k]
    ensures rest != "" ==> i + |piece| < |x| && x[i + |piece|] == rest[0]
  {
    assert |x[i..]| == |x| - i;
    assert x[i + |piece|..] == x[i..][|piece|..];
    forall k | 0 <= k < |piece| ensures x[i + k] == piece[k] { assert x[i + k] == x[i..][k]; }
    if rest != "" { assert x[i + |piece|] == x[i..][|piece|]; }
  }

  lemma Two(x: string, i: nat, a: char, b: char, rest: string)
    requires i <= |x| && x[i..] == [a, b] + rest
    ensures i + 2 <= |x| && x[i] == a && x[i + 1] == b
  {
    assert |x[i..]| >= 2 && x[i] == x[i..][0] && x[i + 1] == x[i..][1];
  }

  lemma DoubledNext(body: string)
    requires body != ""
    ensures Doubled(body) == (if body[0] == '\'' then "''" else [body[0]]) + Doubled(body[1..])
  {
  }

  lemma NothingDoubled()
    ensures Doubled("") == ""
  {
  }

  lemma JoinedLater(piece: string, text: string, after: string)
    ensures (piece + text) + after == piece + (text + after)
  {
  }

  lemma QuoteSteps(x: string, i: nat)
    requires i < |x|
    ensures x[i] != '\'' ==> QuoteEnd(x, i, '\'') == QuoteEnd(x, i + 1, '\'')
    ensures x[i] == '\'' && i + 1 < |x| && x[i + 1] == '\'' ==> QuoteEnd(x, i, '\'') == QuoteEnd(x, i + 2, '\'')
  {
  }

  lemma {:induction false} QuotePass(x: string, i: nat, body: string, after: string)
    requires i <= |x| && x[i..] == Doubled(body) + after
    ensures i + |Doubled(body)| <= |x|
    ensures QuoteEnd(x, i, '\'') == QuoteEnd(x, i + |Doubled(body)|, '\'')
    decreases |body|
  {
    hide *;
    if body == "" {
      NothingDoubled();
    } else {
      DoubledNext(body);
      var rest := Doubled(body[1..]) + after;
      JoinedLater(if body[0] == '\'' then "''" else [body[0]], Doubled(body[1..]), after);
      if body[0] == '\'' {
        At(x, i, "''", rest);
        Two(x, i, '\'', '\'', rest);
        QuoteSteps(x, i);
        QuotePass(x, i + 2, body[1..], after);
      } else {
        At(x, i, [body[0]], rest);
        assert x[i + 0] == body[0];
        QuoteSteps(x, i);
        QuotePass(x, i + 1, body[1..], after);
      }
    }
  }

  lemma QuoteStops(x: string, j: nat)
    requires j <= |x| && (j < |x| ==> x[j] == '\'' && !Is(x, j + 1, '\''))
    ensures QuoteEnd(x, j, '\'') == if j < |x| then j + 1 else j
  {
  }

  lemma SingleEnds(x: string, body: string, closed: bool, after: string)
    requires x == TokenText(Single(body, closed)) + after && Fits(Single(body, closed), after)
    ensures KindAt(x, 0) == SingleQuoted && EndAt(x, 0) == |TokenText(Single(body, closed))|
  {
    hide Doubled, QuoteEnd, LineEnd, BlockEnd, DollarEnd, TagLength;
    var text, tail := Doubled(body), (if closed then "'" else "") + after;
    var j := 1 + |text|;
    assert x[0..] == "'" + (text + tail);
    At(x, 0, "'", text + tail);
    At(x, 1, text, tail);
    QuotePass(x, 1, body, tail);
    if closed { At(x, j, "'", after); }
    QuoteStops(x, j);
  }

  lemma {:induction false} NoQuotePass(x: string, i: nat, j: nat, quote: char)
    requires i <= j <= |x| && quote != '\'' && forall k :: i <= k < j ==> x[k] != quote
    ensures QuoteEnd(x, i, quote) == QuoteEnd(x, j, quote)
    decreases j - i
  {
    if i < j { NoQuotePass(x, i + 1, j, quote); }
  }

  lemma DoubleEnds(x: string, body: string, closed: bool, after: string)
    requires x == TokenText(Double(body, closed)) + after && Fits(Double(body, closed), after)
    ensures KindAt(x, 0) == DoubleQuoted && EndAt(x, 0) == |TokenText(Double(body, closed))|
  {
    var j := 1 + |body|;
    forall k | 1 <= k < j ensures x[k] != '"' { assert x[k] == body[k - 1]; }
    NoQuotePass(x, 1, j, '"');
    if closed { assert x[j] == '"'; }
  }

  lemma LineEnds(x: string, body: string, after: string)
    requires x == TokenText(Line(body)) + after && Fits(Line(body), after)
    ensures KindAt(x, 0) == LineComment && EndAt(x, 0) == |TokenText(Line(body))|
  {
    var j := 2 + |body|;
    hide IndexOf;
    LineEndsAtNewline(x, 1);
    assert x[1] == '-';
    forall k | 2 <= k < j ensures x[k] != '\n' { assert x[k] == body[k - 2]; }
    if after != "" { assert x[j] == after[0]; }
  }

  lemma CharIsWell(parts: seq<Part>, after: string)
    requires parts != [] && parts[0].Char? && WellParts(parts, after)
    ensures var c, rest := parts[0].c, PartsThen(parts[1..], after);
      && PartsThen(parts, after) == [c] + rest && |PartsText(parts)| == 1 + |PartsText(parts[1..])|
      && !(c == '/' && Begins(rest, '*')) && !(c == '*' && Begins(rest, '/')) && WellParts(parts[1..], after)
  {
  }

  lemma CharStep(x: string, i: nat, depth: nat, parts: seq<Part>, after: string)
    requires i <= |x| && x[i..] == PartsThen(parts, after) && depth > 0
    requires parts != [] && parts[0].Char? && WellParts(parts, after)
    ensures |PartsText(parts)| == 1 + |PartsText(parts[1..])| && WellParts(parts[1..], after)
    ensures i < |x| && x[i + 1..] == PartsThen(parts[1..], after) && BlockEnd(x, i, depth) == BlockEnd(x, i + 1, depth)
  {
    CharIsWell(parts, after);
    hide PartsText, PartsThen, WellParts;
    At(x, i, [parts[0].c], PartsThen(parts[1..], after));
    assert x[i + 0] == parts[0].c;
  }

  lemma OpenStep(x: string, i: nat, depth: nat, rest: string)
    requires i <= |x| && x[i..] == Opened(rest) && depth > 0
    ensures i + 2 <= |x| && x[i + 2..] == rest && BlockEnd(x, i, depth) == BlockEnd(x, i + 2, depth + 1)
  {
    At(x, i, "/*", rest);
    Two(x, i, '/', '*', rest);
  }

  lemma CloseStep(x: string, i: nat, depth: nat, rest: string)
    requires i <= |x| && x[i..] == Closed(rest) && depth > 0
    ensures i + 2 <= |x| && x[i + 2..] == rest && BlockEnd(x, i, depth) == BlockEnd(x, i + 2, depth - 1)
  {
    At(x, i, "*/", rest);
    Two(x, i, '*', '/', rest);
  }

  lemma NestedText(parts: seq<Part>, after: string)
    requires parts != [] && parts[0].Nested?
    ensures |PartsText(parts)| == 4 + |PartsText(parts[0].parts)| + |PartsText(parts[1..])|
    ensures PartsThen(parts, after) == Opened(PartsThen(parts[0].parts, Closed(PartsThen(parts[1..], after))))
  {
    Reassociate(PartsText(parts), PartsText(parts[0].parts), PartsText(parts[1..]), after);
  }

  lemma Reassociate(text: string, inner: string, others: string, after: string)
    requires text == ("/*" + inner + "*/") + others
    ensures text + after == "/*" + (inner + ("*/" + (others + after)))
  {
  }

  lemma NestedIsWell(parts: seq<Part>, after: string)
    requires parts != [] && parts[0].Nested? && WellParts(parts, after)
    ensures WellParts(parts[1..], after) && WellParts(parts[0].parts, Closed(PartsThen(parts[1..], after)))
  {
  }

  lemma NoParts(after: string)
    ensures PartsText([]) == "" && PartsThen([], after) == after
  {
  }

  lemma {:induction false} PartsPass(x: string, i: nat, parts: seq<Part>, after: string, depth: nat) returns (end: nat)
    requires i <= |x| && x[i..] == PartsThen(parts, after) && WellParts(parts, after) && depth > 0
    ensures end == i + |PartsText(parts)| && end <= |x| && x[end..] == after
    ensures BlockEnd(x, i, depth) == BlockEnd(x, end, depth)
    decreases parts
  {
    hide *;
    if parts == [] {
      NoParts(after);
      end := i;
    } else {
      match parts[0] {
        case Char(c) =>
          CharStep(x, i, depth, parts, after);
          end := PartsPass(x, i + 1, parts[1..], after, depth);
        case Nested(inner) =>
          NestedText(parts, after);
          NestedIsWell(parts, after);
          var rest := PartsThen(parts[1..], after);
          OpenStep(x, i, depth, PartsThen(inner, Closed(rest)));
          end := PartsPass(x, i + 2, inner, Closed(rest), depth + 1);
          CloseStep(x, end, depth + 1, rest);
          end := PartsPass(x, end + 2, parts[1..], after, depth);
      }
    }
  }

  lemma BlockStops(x: string, i: nat, depth: nat)
    requires i <= |x| && (i == |x| || depth == 0)
    ensures BlockEnd(x, i, depth) == i
  {
  }

  lemma BlockEnds(x: string, parts: seq<Part>, after: string)
    requires x == TokenText(Block(parts)) + after && Fits(Block(parts), after)
    ensures KindAt(x, 0) == BlockComment && EndAt(x, 0) == |TokenText(Block(parts))|
  {
    hide WellParts, PartsText, QuoteEnd, LineEnd, DollarEnd, TagLength, Doubled, BlockEnd;
    var rest := PartsThen(parts, Closed(after));
    assert x[0..] == "/*" + rest;
    At(x, 0, "/*", rest);
    Two(x, 0, '/', '*', rest);
    var end := PartsPass(x, 2, parts, Closed(after), 1);
    CloseStep(x, end, 1, after);
    BlockStops(x, end + 2, 0);
  }

  lemma LevelsCons(levels: seq<seq<Part>>)
    requires levels != [] && WellLevels(levels)
    ensures LevelsText(levels) == Opened(PartsThen(levels[0], LevelsText(levels[1..])))
    ensures WellParts(levels[0], LevelsText(levels[1..])) && WellLevels(levels[1..])
  {
  }

  lemma {:induction false} LevelsPass(x: string, i: nat, levels: seq<seq<Part>>, depth: nat)
    requires i <= |x| && x[i..] == LevelsText(levels) && WellLevels(levels) && depth > 0
    ensures BlockEnd(x, i, depth) == |x|
    decreases |levels|
  {
    if levels == [] {
      assert |x[i..]| == 0;
    } else {
      LevelsCons(levels);
      hide *;
      OpenStep(x, i, depth, PartsThen(levels[0], LevelsText(levels[1..])));
      var end := PartsPass(x, i + 2, levels[0], LevelsText(levels[1..]), depth + 1);
      LevelsPass(x, end, levels[1..], depth + 1);
    }
  }

  lemma OpenBlockEnds(x: string, levels: seq<seq<Part>>)
    requires x == LevelsText(levels) && levels != [] && WellLevels(levels)
    ensures KindAt(x, 0) == BlockComment && EndAt(x, 0) == |x|
  {
    LevelsCons(levels);
    hide WellParts, PartsText, QuoteEnd, LineEnd, DollarEnd, TagLength, BlockEnd, LevelsText, WellLevels, PartsThen;
    var rest := PartsThen(levels[0], LevelsText(levels[1..]));
    assert x[0..] == "/*" + rest;
    At(x, 0, "/*", rest);
    Two(x, 0, '/', '*', rest);
    var end := PartsPass(x, 2, levels[0], LevelsText(levels[1..]), 1);
    LevelsPass(x, end, levels[1..], 1);
  }

  lemma {:induction false} TagRun(x: string, i: nat, j: nat)
    requires i <= j <= |x| && (forall k :: i <= k < j ==> TagPart(x[k])) && (j == |x| || !TagPart(x[j]))
    ensures TagEnd(x, i) == j
    decreases j - i
  {
    if i < j { TagRun(x, i + 1, j); }
  }

  lemma TagRead(x: string, tag: string, rest: string)
    requires ValidTag(tag) && x == Mark(tag) + rest
    ensures TagLength(x, 0) == |tag| + 2
  {
    var j := 1 + |tag|;
    assert x[j] == '$';
    forall k | 1 <= k < j ensures TagPart(x[k]) { assert x[k] == tag[k - 1]; }
    TagRun(x, 1, j);
    if tag != "" { assert x[1] == tag[0]; }
  }

  lemma TagReadOpens(x: string)
    requires Is(x, 0, '$') && TagLength(x, 0) > 0
    ensures OpensDollar(x)
  {
    var n := TagLength(x, 0);
    TagEndStops(x, 1);
    var tag := x[1..n - 1];
    forall i | 0 <= i < |tag| ensures TagPart(tag[i]) { assert tag[i] == x[1 + i]; }
    assert tag != "" ==> tag[0] == x[1] && TagStart(x[1]);
    assert OpensWith(x, n - 2);
  }

  lemma OccursStarts(pattern: string, x: string, i: nat, s: string, k: nat)
    requires i <= |x| && x[i..] == s
    ensures Occurs(pattern, s, k) <==> Starts(x, i + k, pattern)
  {
    if k + |pattern| <= |s| { assert s[k..k + |pattern|] == x[i + k..i + k + |pattern|]; }
  }

  lemma MarkFound(x: string, n: nat, mark: string, s: string, k: nat)
    requires n <= |x| && x[n..] == s && Absent(mark, s, k) && Occurs(mark, s, k)
    ensures IndexOf(x, mark, n) == Some(n + k)
  {
    assert |x[n..]| == |x| - n && k <= |s|;
    hide IndexOf, Occurs, Starts;
    var close := IndexOf(x, mark, n);
    IndexOfIsFirst(x, mark, n);
    OccursStarts(mark, x, n, s, k);
    if close.Some? { OccursStarts(mark, x, n, s, close.value - n); }
  }

  lemma MarkMissing(x: string, n: nat, mark: string, s: string)
    requires n <= |x| && x[n..] == s && Absent(mark, s, |s| + 1)
    ensures IndexOf(x, mark, n) == None
  {
    hide IndexOf, Occurs, Starts;
    var close := IndexOf(x, mark, n);
    IndexOfIsFirst(x, mark, n);
    assert |x[n..]| == |x| - n;
    if close.Some? { OccursStarts(mark, x, n, s, close.value - n); }
  }

  lemma MarkOccurs(body: string, mark: string, after: string)
    ensures Occurs(mark, body + mark + after, |body|)
  {
  }

  /** The first place where the mark stands again is where the body ends. */
  lemma FirstMark(x: string, mark: string, body: string, closed: bool, after: string)
    requires x == mark + (if closed then body + mark + after else body)
    requires if closed then Absent(mark, body + mark + after, |body|) else Absent(mark, body, |body| + 1)
    ensures IndexOf(x, mark, |mark|) == if closed then Some(|mark| + |body|) else None
  {
    hide IndexOf, Occurs, Absent;
    if closed {
      MarkOccurs(body, mark, after);
      MarkFound(x, |mark|, mark, body + mark + after, |body|);
    } else {
      MarkMissing(x, |mark|, mark, body);
    }
  }

  lemma DollarEnds(x: string, tag: string, body: string, closed: bool, after: string)
    requires x == TokenText(Dollar(tag, body, closed)) + after && Fits(Dollar(tag, body, closed), after)
    ensures KindAt(x, 0) == DollarQuoted && EndAt(x, 0) == |TokenText(Dollar(tag, body, closed))|
  {
    var mark := Mark(tag);
    MarkedText(mark, body, closed, after);
    DollarFits(tag, body, closed, after);
    TokenIsMarked(tag, body, closed);
    hide IndexOf, TagLength, Absent, ValidTag, QuoteEnd, LineEnd, BlockEnd, Fits, TokenText;
    var s := if closed then body + mark + after else body;
    assert x == mark + s && |mark| == |tag| + 2 && mark[0] == '$';
    TagRead(x, tag, s);
    assert x[0..|mark|] == mark;
    FirstMark(x, mark, body, closed, after);
  }

  lemma TokenIsMarked(tag: string, body: string, closed: bool)
    ensures TokenText(Dollar(tag, body, closed)) == Mark(tag) + body + (if closed then Mark(tag) else "")
  {
  }

  lemma DollarFits(tag: string, body: string, closed: bool, after: string)
    requires Fits(Dollar(tag, body, closed), after)
    ensures ValidTag(tag) && (closed || after == "")
    ensures if closed then Absent(Mark(tag), body + Mark(tag) + after, |body|) else Absent(Mark(tag), body, |body| + 1)
  {
  }

  lemma MarkedText(mark: string, body: string, closed: bool, after: string)
    requires closed || after == ""
    ensures (
      mark + body + (if closed then mark else "") + after
      == mark + (if closed then body + mark + after else body))
  {
  }

  lemma PlainEnds(x: string, t: Token, after: string)
    requires (t.Plain? || t.Semi?) && x == TokenText(t) + after && Fits(t, after)
    ensures EndAt(x, 0) == 1 && KindAt(x, 0) == if t.Semi? then Semicolon else Other
  {
    hide QuoteEnd, BlockEnd, LineEnd, TagLength;
    assert after != "" ==> x[1] == after[0];
    if t.Plain? && t.c == '$' {
      assert x == ['$'] + after;
      if TagLength(x, 0) > 0 { TagReadOpens(x); }
    }
  }

  lemma OpenBlockFits(x: string, levels: seq<seq<Part>>, after: string)
    requires x == TokenText(OpenBlock(levels)) + after && Fits(OpenBlock(levels), after)
    ensures KindAt(x, 0) == BlockComment && EndAt(x, 0) == |TokenText(OpenBlock(levels))| > 0
  {
    hide KindAt, EndAt, WellLevels;
    assert x == LevelsText(levels);
    OpenBlockEnds(x, levels);
  }

  lemma TokenEnds(x: string, t: Token, after: string)
    requires x == TokenText(t) + after && Fits(t, after)
    ensures |TokenText(t)| > 0 && EndAt(x, 0) == |TokenText(t)|
    ensures KindAt(x, 0).Semicolon? <==> t.Semi?
    ensures KindAt(x, 0).Other? || KindAt(x, 0).Semicolon? || KindAt(x, 0).DoubleQuoted? <==> t.Plain? || t.Semi? || t.Double?
  {
    hide KindAt, EndAt, Fits;
    match t {
      case OpenBlock(levels) => OpenBlockFits(x, levels, after);
      case Single(body, closed) => SingleEnds(x, body, closed, after);
      case Double(body, closed) => DoubleEnds(x, body, closed, after);
      case Line(body) => LineEnds(x, body, after);
      case Block(parts) => BlockEnds(x, parts, after);
      case Dollar(tag, body, closed) => DollarEnds(x, tag, body, closed, after);
      case _ => PlainEnds(x, t, after);
    }
  }

  lemma RenderCons(tokens: seq<Token>)
    requires tokens != [] && WellFormed(tokens)
    ensures Render(tokens) == TokenText(tokens[0]) + Render(tokens[1..])
    ensures Fits(tokens[0], Render(tokens[1..])) && WellFormed(tokens[1..])
  {
  }

  lemma SemisCons(tokens: seq<Token>, from: nat)
    requires tokens != []
    ensures var rest := Semis(tokens[1..], from + |TokenText(tokens[0])|);
      Semis(tokens, from) == if tokens[0].Semi? then [from] + rest else rest
  {
  }

  /** One token at i is one step of the cutting. */
  lemma OneToken(sql: string, i: nat, t: Token, after: string)
    requires i <= |sql| && sql[i..] == TokenText(t) + after && Fits(t, after)
    ensures i + |TokenText(t)| <= |sql| && sql[i + |TokenText(t)|..] == after
    ensures var rest := Semicolons(sql, i + |TokenText(t)|);
      i < |sql| && Semicolons(sql, i) == if t.Semi? then [i] + rest else rest
  {
    hide *;
    TokenEnds(sql[i..], t, after);
    At(sql, i, TokenText(t), after);
    DropToken(sql, i, 0);
    SemicolonsNext(sql, i);
  }

  lemma NoTokens(sql: string, i: nat)
    requires i <= |sql| && sql[i..] == Render([])
    ensures Semicolons(sql, i) == Semis([], i)
  {
    assert |sql[i..]| == 0;
  }

  lemma {:induction false} SemisFrom(sql: string, i: nat, tokens: seq<Token>)
    requires i <= |sql| && sql[i..] == Render(tokens) && WellFormed(tokens)
    ensures Semicolons(sql, i) == Semis(tokens, i)
    decreases |tokens|
  {
    hide *;
    if tokens == [] {
      NoTokens(sql, i);
    } else {
      RenderCons(tokens);
      SemisCons(tokens, i);
      OneToken(sql, i, tokens[0], Render(tokens[1..]));
      SemisFrom(sql, i + |TokenText(tokens[0])|, tokens[1..]);
    }
  }

  /**
   * Of any text put together from tokens the cuts are exactly the semicolons that are tokens: none
   * inside single quotes, doubled ones included, double quotes, line comments, nested block comments
   * or dollar quotes, closed or running to the end, and every other one.
   */
  lemma CutsAreTheFreeSemicolons(tokens: seq<Token>)
    requires WellFormed(tokens)
    ensures Semicolons(Render(tokens), 0) == Semis(tokens, 0)
  {
    assert Render(tokens)[0..] == Render(tokens);
    SemisFrom(Render(tokens), 0, tokens);
  }
}
