/** The lexical rules of SQL text that both scanners of statementSplitter.ts follow. */
module SqlLexing {
  import opened Wrappers

  /** JavaScript's s[i] === c: false past the end. */
  predicate Is(s: string, i: nat, c: char) {
    i < |s| && s[i] == c
  }

  predicate Starts(s: string, i: nat, prefix: string) {
    i + |prefix| <= |s| && s[i..i + |prefix|] == prefix
  }

  /** String.indexOf. */
  function IndexOf(s: string, pattern: string, i: nat): (r: Option<nat>)
    requires i <= |s|
    ensures r.Some? ==> i <= r.value && r.value + |pattern| <= |s|
    decreases |s| - i
  {
    if Starts(s, i, pattern) then Some(i) else if i == |s| then None else IndexOf(s, pattern, i + 1)
  }

  /** It is the first occurrence from i on, and None says there is none. */
  lemma {:induction false} IndexOfIsFirst(s: string, pattern: string, i: nat)
    requires i <= |s|
    ensures var r := IndexOf(s, pattern, i);
      && (r.Some? ==> Starts(s, r.value, pattern))
      && forall k :: i <= k < (if r.Some? then r.value else |s| + 1) ==> !Starts(s, k, pattern)
    decreases |s| - i
  {
    if !Starts(s, i, pattern) && i < |s| {
      IndexOfIsFirst(s, pattern, i + 1);
    }
  }

  /** From inside a quoted token to just after its closing quote; '' stays inside a single-quoted one. */
  function QuoteEnd(sql: string, i: nat, quote: char): (end: nat)
    requires i <= |sql|
    ensures i <= end <= |sql|
    decreases |sql| - i
  {
    if i == |sql| then i
    else if sql[i] != quote then QuoteEnd(sql, i + 1, quote)
    else if quote == '\'' && Is(sql, i + 1, '\'') then QuoteEnd(sql, i + 2, quote)
    else i + 1
  }

  /** The newline that ends a line comment, or the end of the text. */
  function LineEnd(sql: string, i: nat): (end: nat)
    requires i <= |sql|
    ensures i <= end <= |sql|
  {
    var newline := IndexOf(sql, "\n", i);
    if newline.Some? then newline.value else |sql|
  }

  lemma LineEndsAtNewline(sql: string, i: nat)
    requires i <= |sql|
    ensures var end := LineEnd(sql, i);
      (end < |sql| ==> sql[end] == '\n') && forall k :: i <= k < end ==> sql[k] != '\n'
  {
    IndexOfIsFirst(sql, "\n", i);
    assert forall k :: i <= k < |sql| && sql[k] == '\n' ==> Starts(sql, k, "\n");
  }

  /** Block comments nest. */
  function BlockEnd(sql: string, i: nat, depth: nat): (end: nat)
    requires i <= |sql|
    ensures i <= end <= |sql|
    decreases |sql| - i
  {
    if i == |sql| || depth == 0 then i
    else if Is(sql, i, '/') && Is(sql, i + 1, '*') then BlockEnd(sql, i + 2, depth + 1)
    else if Is(sql, i, '*') && Is(sql, i + 1, '/') then BlockEnd(sql, i + 2, depth - 1)
    else BlockEnd(sql, i + 1, depth)
  }

  predicate TagStart(c: char) {
    'A' <= c <= 'Z' || 'a' <= c <= 'z' || c == '_'
  }

  predicate TagPart(c: char) {
    TagStart(c) || '0' <= c <= '9'
  }

  function TagEnd(sql: string, i: nat): (end: nat)
    requires i <= |sql|
    ensures i <= end <= |sql|
    decreases |sql| - i
  {
    if i == |sql| || !TagPart(sql[i]) then i else TagEnd(sql, i + 1)
  }

  lemma {:induction false} TagEndStops(sql: string, i: nat)
    requires i <= |sql|
    ensures forall k :: i <= k < TagEnd(sql, i) ==> TagPart(sql[k])
    ensures TagEnd(sql, i) < |sql| ==> !TagPart(sql[TagEnd(sql, i)])
    decreases |sql| - i
  {
    if i < |sql| && TagPart(sql[i]) {
      TagEndStops(sql, i + 1);
    }
  }

  /** Length of the opening tag of a dollar quote at i, $$ or $name$; 0 when there is none. */
  function TagLength(sql: string, i: nat): (n: nat)
    requires Is(sql, i, '$')
    ensures n == 0 || (2 <= n && i + n <= |sql|)
  {
    if Is(sql, i + 1, '$') then 2
    else if i + 1 < |sql| && TagStart(sql[i + 1]) && Is(sql, TagEnd(sql, i + 1), '$') then
      TagEnd(sql, i + 1) + 1 - i
    else 0
  }

  function DollarEnd(sql: string, i: nat): (end: nat)
    requires Is(sql, i, '$') && TagLength(sql, i) > 0
    ensures i < end <= |sql|
  {
    var n := TagLength(sql, i);
    var close := IndexOf(sql, sql[i..i + n], i + n);
    if close.None? then |sql| else close.value + n
  }

  datatype Kind = SingleQuoted | DoubleQuoted | LineComment | BlockComment | DollarQuoted | Semicolon | Other

  function KindAt(sql: string, i: nat): Kind
    requires i < |sql|
  {
    if sql[i] == '\'' then SingleQuoted
    else if sql[i] == '"' then DoubleQuoted
    else if sql[i] == '-' && Is(sql, i + 1, '-') then LineComment
    else if sql[i] == '/' && Is(sql, i + 1, '*') then BlockComment
    else if sql[i] == '$' && TagLength(sql, i) > 0 then DollarQuoted
    else if sql[i] == ';' then Semicolon
    else Other
  }

  /** Where the token starting at i ends. */
  function EndAt(sql: string, i: nat): (end: nat)
    requires i < |sql|
    ensures i < end <= |sql|
  {
    match KindAt(sql, i)
    case SingleQuoted => QuoteEnd(sql, i + 1, '\'')
    case DoubleQuoted => QuoteEnd(sql, i + 1, '"')
    case LineComment => LineEnd(sql, i + 1)
    case BlockComment => BlockEnd(sql, i + 2, 1)
    case DollarQuoted => DollarEnd(sql, i)
    case Semicolon => i + 1
    case Other => i + 1
  }

  /** Positions of the semicolons outside every quote and comment, from the token boundary i on. */
  function Semicolons(sql: string, i: nat): seq<nat>
    requires i <= |sql|
    decreases |sql| - i
  {
    if i == |sql| then []
    else (if KindAt(sql, i).Semicolon? then [i] else []) + Semicolons(sql, EndAt(sql, i))
  }

  ghost predicate CutsFrom(sql: string, start: nat, cuts: seq<nat>) {
    && start <= |sql|
    && (forall k :: 0 <= k < |cuts| ==> start <= cuts[k] < |sql| && sql[cuts[k]] == ';')
    && forall j, k :: 0 <= j < k < |cuts| ==> cuts[j] < cuts[k]
  }

  lemma CutsCons(sql: string, start: nat, one: seq<nat>, next: nat, rest: seq<nat>)
    requires start < next <= |sql| && CutsFrom(sql, next, rest)
    requires one == [] || (one == [start] && sql[start] == ';')
    ensures CutsFrom(sql, start, one + rest)
  {
    var cuts := one + rest;
    forall k | 0 <= k < |cuts| ensures start <= cuts[k] < |sql| && sql[cuts[k]] == ';' {
      if k >= |one| {
        assert cuts[k] == rest[k - |one|];
      }
    }
  }

  /** The cuts are semicolons, in increasing order. */
  lemma {:induction false} SemicolonsSorted(sql: string, i: nat)
    requires i <= |sql|
    ensures CutsFrom(sql, i, Semicolons(sql, i))
    decreases |sql| - i
  {
    if i < |sql| {
      SemicolonsSorted(sql, EndAt(sql, i));
      CutsCons(sql, i, if KindAt(sql, i).Semicolon? then [i] else [], EndAt(sql, i), Semicolons(sql, EndAt(sql, i)));
    }
  }
}
