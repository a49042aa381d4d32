/** skip_comments, first_keyword and command_words of session_actor.rs. */
module CommandWords {
  import opened Wrappers
  import opened SqlLexing
  import SplitOnce

  /** What str::trim_start removes. */
  predicate Space(c: char) {
    || '\t' <= c <= '\r' || c == ' ' || c == '\U{85}' || c == '\U{A0}' || c == '\U{1680}'
    || '\U{2000}' <= c <= '\U{200A}' || c == '\U{2028}' || c == '\U{2029}' || c == '\U{202F}' || c == '\U{205F}'
    || c == '\U{3000}'
  }

  function TrimStart(s: string): (r: string)
    ensures |r| <= |s|
  {
    if s == "" || !Space(s[0]) then s else TrimStart(s[1..])
  }

  /** What follows a line comment whose text starts at i. */
  function AfterLine(s: string, i: nat): (r: string)
    requires i <= |s|
    ensures |r| <= |s| - i
  {
    var end := LineEnd(s, i);
    if end < |s| then s[end + 1..] else ""
  }

  /** Leading whitespace and comments removed, comments by the character loop of statementSplitter.ts. */
  function Skip(s: string): (r: string)
    ensures |r| <= |s|
    decreases |s|
  {
    var t := TrimStart(s);
    if Starts(t, 0, "--") then Skip(AfterLine(t, 2))
    else if Starts(t, 0, "/*") then Skip(t[BlockEnd(t, 2, 1)..])
    else t
  }

  // ---- the search for the next comment mark agrees with the character loop ----

  predicate Mark(s: string, i: nat) {
    Starts(s, i, "/*") || Starts(s, i, "*/")
  }

  lemma StartsTwo(s: string, i: nat, a: char, b: char)
    ensures Starts(s, i, [a, b]) <==> Is(s, i, a) && Is(s, i + 1, b)
  {
    if i + 2 <= |s| {
      assert s[i..i + 2] == [s[i], s[i + 1]];
    }
  }

  lemma {:induction false} BlockEndSkips(s: string, i: nat, upto: nat, depth: nat)
    requires i <= upto <= |s| && depth > 0
    requires forall k :: i <= k < upto ==> !Mark(s, k)
    ensures BlockEnd(s, i, depth) == BlockEnd(s, upto, depth)
    decreases upto - i
  {
    if i < upto {
      StartsTwo(s, i, '/', '*');
      StartsTwo(s, i, '*', '/');
      assert !Mark(s, i);
      BlockEndSkips(s, i + 1, upto, depth);
    }
  }

  lemma {:induction false} BlockNeverEnds(s: string, i: nat, depth: nat)
    requires i <= |s| && depth > 0 && forall k :: i <= k <= |s| ==> !Starts(s, k, "*/")
    ensures BlockEnd(s, i, depth) == |s|
    decreases |s| - i
  {
    if i < |s| {
      StartsTwo(s, i, '*', '/');
      if Is(s, i, '/') && Is(s, i + 1, '*') {
        BlockNeverEnds(s, i + 2, depth + 1);
      } else {
        BlockNeverEnds(s, i + 1, depth);
      }
    }
  }

  /** What is left of r after a comment that is `depth` deep. */
  function AfterBlock(r: string, depth: nat): string {
    r[BlockEnd(r, 0, depth)..]
  }

  lemma AfterBlockDrop(r: string, at: nat, depth: nat)
    requires at <= |r|
    ensures r[BlockEnd(r, at, depth)..] == AfterBlock(r[at..], depth)
  {
    SplitOnce.DropBlockEnd(r, at, 0, depth);
    var n := BlockEnd(r[at..], 0, depth);
    assert r[at..][n..] == r[at + n..];
  }

  lemma OpenNext(r: string, open: nat, depth: nat)
    requires depth > 0 && Starts(r, open, "/*") && forall k :: 0 <= k < open ==> !Mark(r, k)
    ensures AfterBlock(r, depth) == AfterBlock(r[open + 2..], depth + 1)
  {
    BlockEndSkips(r, 0, open, depth);
    StartsTwo(r, open, '/', '*');
    AfterBlockDrop(r, open + 2, depth + 1);
  }

  lemma CloseNext(r: string, close: nat, depth: nat)
    requires depth > 0 && Starts(r, close, "*/") && forall k :: 0 <= k < close ==> !Mark(r, k)
    ensures AfterBlock(r, depth) == AfterBlock(r[close + 2..], depth - 1)
  {
    BlockEndSkips(r, 0, close, depth);
    StartsTwo(r, close, '*', '/');
    StartsTwo(r, close, '/', '*');
    AfterBlockDrop(r, close + 2, depth - 1);
  }

  /** From just inside a block comment to just after it, by searching for the next mark. */
  lemma NothingAfterBlock(t: string, depth: nat)
    requires depth > 0 && forall k :: 0 <= k <= |t| ==> !Starts(t, k, "*/")
    ensures AfterBlock(t, depth) == ""
  {
    BlockNeverEnds(t, 0, depth);
  }

  lemma AfterBlockClosed(t: string)
    ensures AfterBlock(t, 0) == t
  {
  }

  method SkipBlock(after: string) returns (r: string)
    ensures r == AfterBlock(after, 1)
  {
    hide AfterBlock;
    var depth := 1;
    r := after;
    while depth > 0
      invariant depth >= 0 && AfterBlock(after, 1) == AfterBlock(r, depth)
      decreases |r|, depth
    {
      var open, close := IndexOf(r, "/*", 0), IndexOf(r, "*/", 0);
      IndexOfIsFirst(r, "/*", 0);
      IndexOfIsFirst(r, "*/", 0);
      if open.Some? && close.Some? && open.value < close.value {
        OpenNext(r, open.value, depth);
        depth := depth + 1;
        r := r[open.value + 2..];
      } else if close.Some? {
        CloseNext(r, close.value, depth);
        depth := depth - 1;
        r := r[close.value + 2..];
      } else {
        NothingAfterBlock(r, depth);
        r := "";
        break;
      }
    }
    AfterBlockClosed(r);
  }

  lemma AfterBlockOf(t: string)
    requires Starts(t, 0, "/*")
    ensures AfterBlock(t[2..], 1) == t[BlockEnd(t, 2, 1)..]
    ensures |t[BlockEnd(t, 2, 1)..]| < |t|
  {
    AfterBlockDrop(t, 2, 1);
  }

  method SkipComments(sql: string) returns (rest: string)
    ensures rest == Skip(sql)
  {
    rest := sql;
    while true
      invariant Skip(sql) == Skip(rest)
      decreases |rest|
    {
      ghost var before := rest;
      rest := TrimStart(rest);
      if Starts(rest, 0, "--") {
        rest := AfterLine(rest, 2);
      } else if Starts(rest, 0, "/*") {
        AfterBlockOf(rest);
        rest := SkipBlock(rest[2..]);
      } else {
        break;
      }
    }
  }

  lemma {:induction false} TrimStartTrimmed(s: string)
    ensures TrimStart(s) == "" || !Space(TrimStart(s)[0])
    decreases |s|
  {
    if s != "" && Space(s[0]) {
      TrimStartTrimmed(s[1..]);
    }
  }

  lemma {:induction false} SkipSkipped(s: string)
    ensures Skip(Skip(s)) == Skip(s)
    decreases |s|
  {
    var t := TrimStart(s);
    TrimStartTrimmed(s);
    if Starts(t, 0, "--") {
      SkipSkipped(AfterLine(t, 2));
    } else if Starts(t, 0, "/*") {
      SkipSkipped(t[BlockEnd(t, 2, 1)..]);
    }
  }

  // ---- words ----

  predicate WordChar(c: char) {
    'a' <= c <= 'z' || 'A' <= c <= 'Z' || '0' <= c <= '9' || c == '_'
  }

  function WordLength(s: string): (n: nat)
    ensures n <= |s|
  {
    if s == "" || !WordChar(s[0]) then 0 else 1 + WordLength(s[1..])
  }

  function UpperChar(c: char): char {
    if 'a' <= c <= 'z' then (c as int - 'a' as int + 'A' as int) as char else c
  }

  function Upper(s: string): (r: string)
    ensures |r| == |s|
  {
    seq(|s|, i requires 0 <= i < |s| => UpperChar(s[i]))
  }

  /** first_keyword */
  function FirstKeyword(sql: string): string {
    var t := Skip(sql);
    Upper(t[..WordLength(t)])
  }

  /** The first n words, stopping where something else follows. */
  function Words(sql: string, n: nat): (r: seq<string>)
    ensures |r| <= n
    decreases n
  {
    if n == 0 then []
    else
      var t := Skip(sql);
      var w := WordLength(t);
      if w == 0 then [] else [Upper(t[..w])] + Words(t[w..], n - 1)
  }

  lemma WordsUnfold(s: string, n: nat)
    requires n > 0
    ensures var t := Skip(s);
      Words(s, n) == if FirstKeyword(t) == "" then [] else [FirstKeyword(t)] + Words(t[|FirstKeyword(t)|..], n - 1)
  {
    SkipSkipped(s);
  }

  method CommandWordsOf(sql: string) returns (tokens: seq<string>)
    ensures tokens == Words(sql, 5)
  {
    var rest := sql;
    tokens := [];
    ghost var left := Words(sql, 5);
    for i := 0 to 5
      invariant left == Words(rest, 5 - i) && Words(sql, 5) == tokens + left
    {
      WordsUnfold(rest, 5 - i);
      rest := SkipComments(rest);
      var word := FirstKeyword(rest);
      if word == "" {
        break;
      }
      rest := rest[|word|..];
      tokens := tokens + [word];
      left := left[1..];
    }
  }

  /** The first keyword is the first of the command words. */
  lemma FirstKeywordIsFirstWord(sql: string)
    ensures FirstKeyword(sql) == if Words(sql, 5) == [] then "" else Words(sql, 5)[0]
  {
  }

  // ---- what may stand between words ----

  predicate BlockCloses(s: string, i: nat, depth: nat)
    requires i <= |s|
    decreases |s| - i
  {
    depth == 0 || (i < |s| &&
      if Is(s, i, '/') && Is(s, i + 1, '*') then BlockCloses(s, i + 2, depth + 1)
      else if Is(s, i, '*') && Is(s, i + 1, '/') then BlockCloses(s, i + 2, depth - 1)
      else BlockCloses(s, i + 1, depth))
  }

  /** Whitespace, line comments with their newline, and block comments that close, nested ones inside. */
  predicate Gap(g: string)
    decreases |g|
  {
    || g == ""
    || (Space(g[0]) && Gap(g[1..]))
    || (Starts(g, 0, "--") && LineEnd(g, 2) < |g| && Gap(g[LineEnd(g, 2) + 1..]))
    || (Starts(g, 0, "/*") && BlockCloses(g, 2, 1) && Gap(g[BlockEnd(g, 2, 1)..]))
  }

  lemma {:induction false} BlockClosesEarly(g: string, rest: string, i: nat, depth: nat)
    requires i <= |g| && BlockCloses(g, i, depth)
    ensures BlockEnd(g + rest, i, depth) == BlockEnd(g, i, depth)
    decreases |g| - i
  {
    if depth > 0 {
      assert i + 1 < |g| ==> (g + rest)[i + 1] == g[i + 1];
      if i + 1 == |g| {
        assert !BlockCloses(g, i + 1, depth);
      }
      if Is(g, i, '/') && Is(g, i + 1, '*') {
        BlockClosesEarly(g, rest, i + 2, depth + 1);
      } else if Is(g, i, '*') && Is(g, i + 1, '/') {
        BlockClosesEarly(g, rest, i + 2, depth - 1);
      } else {
        BlockClosesEarly(g, rest, i + 1, depth);
      }
    }
  }

  lemma LineEndsEarly(g: string, rest: string, i: nat)
    requires i <= |g| && LineEnd(g, i) < |g|
    ensures LineEnd(g + rest, i) == LineEnd(g, i)
  {
    LineEndsAtNewline(g, i);
    LineEndsAtNewline(g + rest, i);
    var a, b := LineEnd(g, i), LineEnd(g + rest, i);
    assert forall k :: 0 <= k < |g| ==> (g + rest)[k] == g[k];
  }

  lemma StartsEarly(g: string, rest: string, mark: string)
    requires Starts(g, 0, mark)
    ensures Starts(g + rest, 0, mark)
  {
    assert (g + rest)[..|mark|] == g[..|mark|];
  }

  lemma SkipSpace(s: string)
    requires s != "" && Space(s[0])
    ensures Skip(s) == Skip(s[1..])
  {
  }

  lemma LineGap(g: string, rest: string)
    requires Starts(g, 0, "--") && LineEnd(g, 2) < |g|
    ensures Skip(g + rest) == Skip(g[LineEnd(g, 2) + 1..] + rest)
  {
    hide LineEnd;
    StartsEarly(g, rest, "--");
    LineEndsEarly(g, rest, 2);
    assert (g + rest)[LineEnd(g, 2) + 1..] == g[LineEnd(g, 2) + 1..] + rest;
  }

  lemma BlockGap(g: string, rest: string)
    requires Starts(g, 0, "/*") && BlockCloses(g, 2, 1)
    ensures Skip(g + rest) == Skip(g[BlockEnd(g, 2, 1)..] + rest)
  {
    hide BlockEnd, BlockCloses;
    StartsEarly(g, rest, "/*");
    BlockClosesEarly(g, rest, 2, 1);
    assert (g + rest)[BlockEnd(g, 2, 1)..] == g[BlockEnd(g, 2, 1)..] + rest;
  }

  lemma {:induction false} GapSkips(g: string, rest: string)
    requires Gap(g)
    ensures Skip(g + rest) == Skip(rest)
    decreases |g|
  {
    hide BlockEnd, LineEnd, BlockCloses, Skip;
    if g == "" {
      assert g + rest == rest;
    } else if Space(g[0]) {
      SkipSpace(g + rest);
      assert (g + rest)[1..] == g[1..] + rest;
      GapSkips(g[1..], rest);
    } else if Starts(g, 0, "--") {
      LineGap(g, rest);
      GapSkips(g[LineEnd(g, 2) + 1..], rest);
    } else {
      BlockGap(g, rest);
      GapSkips(g[BlockEnd(g, 2, 1)..], rest);
    }
  }

  predicate Word(w: string) {
    w != "" && forall k :: 0 <= k < |w| ==> WordChar(w[k])
  }

  lemma {:induction false} WordEnds(w: string, rest: string)
    requires (forall k :: 0 <= k < |w| ==> WordChar(w[k])) && (rest == "" || !WordChar(rest[0]))
    ensures WordLength(w + rest) == |w|
    decreases |w|
  {
    if w == "" {
      assert w + rest == rest;
    } else {
      assert (w + rest)[1..] == w[1..] + rest;
      WordEnds(w[1..], rest);
    }
  }

  lemma WordIsNotSkipped(s: string)
    requires s != "" && WordChar(s[0])
    ensures Skip(s) == s
  {
  }

  lemma WordsStep(g: string, w: string, rest: string, n: nat)
    requires Gap(g) && Word(w) && (rest == "" || !WordChar(rest[0])) && n > 0
    ensures Words(g + (w + rest), n) == [Upper(w)] + Words(rest, n - 1)
  {
    GapSkips(g, w + rest);
    WordIsNotSkipped(w + rest);
    WordEnds(w, rest);
    assert (w + rest)[..|w|] == w && (w + rest)[|w|..] == rest;
  }

  datatype Spaced = Spaced(gap: string, word: string)

  /** Words, each behind its gap, then the rest of the statement. */
  function Render(items: seq<Spaced>, tail: string): string {
    if items == [] then tail else items[0].gap + (items[0].word + Render(items[1..], tail))
  }

  predicate WellSpaced(items: seq<Spaced>, tail: string) {
    && (forall k :: 0 <= k < |items| ==> Gap(items[k].gap) && Word(items[k].word))
    && (forall k :: 1 <= k < |items| ==> items[k].gap != "")
    && (tail == "" || !WordChar(tail[0]))
  }

  function Uppers(items: seq<Spaced>): seq<string> {
    seq(|items|, k requires 0 <= k < |items| => Upper(items[k].word))
  }

  /** The first n words, when the items and then the tail are read in order. */
  function FirstWords(items: seq<Spaced>, tail: string, n: nat): seq<string> {
    if n == 0 then []
    else if items == [] then Words(tail, n)
    else [Upper(items[0].word)] + FirstWords(items[1..], tail, n - 1)
  }

  lemma GapHead(g: string)
    requires Gap(g) && g != ""
    ensures !WordChar(g[0])
  {
  }

  lemma RenderHead(items: seq<Spaced>, tail: string)
    requires WellSpaced(items, tail) && (items == [] || items[0].gap != "")
    ensures Render(items, tail) == "" || !WordChar(Render(items, tail)[0])
  {
    if items != [] {
      GapHead(items[0].gap);
    }
  }

  /**
   * Whatever whitespace and nested comments stand before and between the words, the command words
   * are those words, then the words of what follows them.
   */
  lemma {:induction false} WordsOfRendered(items: seq<Spaced>, tail: string, n: nat)
    requires WellSpaced(items, tail)
    ensures Words(Render(items, tail), n) == FirstWords(items, tail, n)
    decreases n
  {
    hide Words, Gap, WordChar;
    if n > 0 && items != [] {
      var rest := items[1..];
      RenderHead(rest, tail);
      WordsStep(items[0].gap, items[0].word, Render(rest, tail), n);
      WordsOfRendered(rest, tail, n - 1);
    }
  }

  lemma {:induction false} SameFirstWords(a: seq<Spaced>, b: seq<Spaced>, tail: string, n: nat)
    requires Uppers(a) == Uppers(b)
    ensures FirstWords(a, tail, n) == FirstWords(b, tail, n)
    decreases n
  {
    assert |Uppers(a)| == |Uppers(b)|;
    if n > 0 && a != [] {
      assert Uppers(a)[0] == Uppers(b)[0];
      assert Uppers(a)[1..] == Uppers(a[1..]) && Uppers(b)[1..] == Uppers(b[1..]);
      SameFirstWords(a[1..], b[1..], tail, n - 1);
    }
  }

  /** Only the words and the tail matter: the gaps, and the case of the letters, do not. */
  lemma GapsDoNotMatter(a: seq<Spaced>, b: seq<Spaced>, tail: string)
    requires WellSpaced(a, tail) && WellSpaced(b, tail) && Uppers(a) == Uppers(b)
    ensures Words(Render(a, tail), 5) == Words(Render(b, tail), 5)
  {
    WordsOfRendered(a, tail, 5);
    WordsOfRendered(b, tail, 5);
    SameFirstWords(a, b, tail, 5);
  }

  /** When nothing but punctuation follows, the command words are the words. */
  lemma {:induction false} WordsThenPunctuation(items: seq<Spaced>, tail: string, n: nat)
    requires forall k: nat :: k <= n ==> Words(tail, k) == []
    ensures FirstWords(items, tail, n) == if |items| <= n then Uppers(items) else Uppers(items)[..n]
    decreases n
  {
    if n > 0 && items != [] {
      WordsThenPunctuation(items[1..], tail, n - 1);
      assert Uppers(items) == [Upper(items[0].word)] + Uppers(items[1..]);
    }
  }
}
