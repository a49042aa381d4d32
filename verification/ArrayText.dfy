/** arrayTree and arrayText of valueText.ts, and a reader for array text. */
module ArrayText {
  import opened Wrappers
  import opened Decimal

  /** An element: NULL, a value with text, a binary or unknown value, or a nested array value. */
  datatype Cell = Null | Text(text: string) | Unprintable | NestedArray

  datatype Dimension = Dimension(lower: int, length: int)

  datatype Tree = Leaf(cell: Cell) | Node(items: seq<Tree>)

  const MAX_SAFE_INTEGER: nat := 0x1F_FFFF_FFFF_FFFF
  const MAX_DIMENSIONS: nat := 6

  // ---- nesting a row-major payload ----

  function Product(lengths: seq<nat>): nat {
    if lengths == [] then 1 else lengths[0] * Product(lengths[1..])
  }

  /** How many values n elements of the given shape hold. */
  function Span(n: nat, rest: seq<nat>): nat {
    n * Product(rest)
  }

  lemma SpanStep(n: nat, rest: seq<nat>)
    ensures Span(n + 1, rest) == Product(rest) + Span(n, rest) && Span(0, rest) == 0
  {
    assert (n + 1) * Product(rest) == Product(rest) + n * Product(rest);
  }

  lemma SpanMono(m: nat, n: nat, rest: seq<nat>)
    requires m <= n
    ensures Span(m, rest) <= Span(n, rest)
  {
    MulMono(m, n, Product(rest));
  }

  /** One element of an array: a leaf, or an array of the remaining lengths. */
  function Item(rest: seq<nat>, values: seq<Cell>): Tree
    requires |values| == Product(rest)
    decreases |rest|, 0, 0
  {
    if rest == [] then Leaf(values[0]) else Node(Grow(rest[0], rest[1..], values))
  }

  /** n elements, each holding the next Product(rest) values. */
  function Grow(n: nat, rest: seq<nat>, values: seq<Cell>): (items: seq<Tree>)
    requires |values| == Span(n, rest)
    ensures |items| == n
    decreases |rest|, 1, n
  {
    if n == 0 then []
    else
      SpanStep(n - 1, rest);
      var p := Product(rest);
      [Item(rest, values[..p])] + Grow(n - 1, rest, values[p..])
  }

  function Flatten(t: Tree): seq<Cell> {
    match t
    case Leaf(cell) => [cell]
    case Node(items) => FlattenAll(items)
  }

  function FlattenAll(items: seq<Tree>): seq<Cell> {
    if items == [] then [] else Flatten(items[0]) + FlattenAll(items[1..])
  }

  lemma {:induction false} FlattenItem(rest: seq<nat>, values: seq<Cell>)
    requires |values| == Product(rest)
    ensures Flatten(Item(rest, values)) == values
    decreases |rest|, 0, 0
  {
    if rest != [] {
      FlattenGrown(rest[0], rest[1..], values);
    }
  }

  /** Flattening gives the payload back. */
  lemma {:induction false} FlattenGrown(n: nat, rest: seq<nat>, values: seq<Cell>)
    requires |values| == Span(n, rest)
    ensures FlattenAll(Grow(n, rest, values)) == values
    decreases |rest|, 1, n
  {
    hide Span, Product, Item, Flatten;
    SpanStep(if n > 0 then n - 1 else 0, rest);
    if n == 0 {
      assert values == [];
    } else {
      var p := Product(rest);
      FlattenItem(rest, values[..p]);
      FlattenGrown(n - 1, rest, values[p..]);
      assert Grow(n, rest, values)[1..] == Grow(n - 1, rest, values[p..]);
      assert values[..p] + values[p..] == values;
    }
  }

  ghost predicate HasShape(t: Tree, lengths: seq<nat>)
    decreases lengths
  {
    if lengths == [] then t.Leaf?
    else t.Node? && |t.items| == lengths[0] && forall k :: 0 <= k < |t.items| ==> HasShape(t.items[k], lengths[1..])
  }

  lemma {:induction false} ItemShape(rest: seq<nat>, values: seq<Cell>)
    requires |values| == Product(rest)
    ensures HasShape(Item(rest, values), rest)
    decreases |rest|, 0, 0
  {
    if rest != [] {
      GrownShape(rest[0], rest[1..], values);
    }
  }

  lemma {:induction false} GrownShape(n: nat, rest: seq<nat>, values: seq<Cell>)
    requires |values| == Span(n, rest)
    ensures forall k :: 0 <= k < n ==> HasShape(Grow(n, rest, values)[k], rest)
    decreases |rest|, 1, n
  {
    hide Span, Product, Item, HasShape;
    if n > 0 {
      SpanStep(n - 1, rest);
      var p := Product(rest);
      ItemShape(rest, values[..p]);
      GrownShape(n - 1, rest, values[p..]);
    }
  }

  // ---- row-major addressing ----

  predicate ValidIndex(lengths: seq<nat>, index: seq<nat>) {
    |index| == |lengths| && forall k :: 0 <= k < |index| ==> index[k] < lengths[k]
  }

  /** Where the element at a multi-index stands in the payload. */
  function RowMajor(lengths: seq<nat>, index: seq<nat>): nat
    requires |index| == |lengths|
  {
    if lengths == [] then 0 else Span(index[0], lengths[1..]) + RowMajor(lengths[1..], index[1..])
  }

  function At(t: Tree, index: seq<nat>): Option<Cell>
    decreases index
  {
    if index == [] then (if t.Leaf? then Some(t.cell) else None)
    else if t.Leaf? || index[0] >= |t.items| then None
    else At(t.items[index[0]], index[1..])
  }

  lemma {:induction false} RowMajorInside(lengths: seq<nat>, index: seq<nat>)
    requires ValidIndex(lengths, index)
    ensures RowMajor(lengths, index) < Product(lengths)
    decreases lengths
  {
    if lengths != [] {
      RowMajorInside(lengths[1..], index[1..]);
      SpanStep(index[0], lengths[1..]);
      SpanMono(index[0] + 1, lengths[0], lengths[1..]);
    }
  }

  lemma {:induction false} NthItem(n: nat, rest: seq<nat>, values: seq<Cell>, k: nat)
    requires |values| == Span(n, rest) && k < n
    ensures Span(k, rest) + Product(rest) <= |values|
    ensures Grow(n, rest, values)[k] == Item(rest, values[Span(k, rest)..Span(k, rest) + Product(rest)])
    decreases n
  {
    hide Item, Product, Span;
    var p := Product(rest);
    SpanStep(n - 1, rest);
    if k > 0 {
      SpanStep(k - 1, rest);
      NthItem(n - 1, rest, values[p..], k - 1);
      var at := Span(k - 1, rest);
      assert values[p..][at..at + p] == values[p + at..p + at + p];
    }
  }

  /** The element at a multi-index is the payload's at the row-major offset. */
  lemma {:induction false} RowMajorAt(lengths: seq<nat>, values: seq<Cell>, index: seq<nat>)
    requires |values| == Product(lengths) && ValidIndex(lengths, index)
    ensures RowMajor(lengths, index) < |values|
    ensures At(Item(lengths, values), index) == Some(values[RowMajor(lengths, index)])
    decreases lengths
  {
    RowMajorInside(lengths, index);
    if lengths != [] {
      var rest, k := lengths[1..], index[0];
      var at, p := Span(k, rest), Product(rest);
      NthItem(lengths[0], rest, values, k);
      RowMajorInside(rest, index[1..]);
      RowMajorAt(rest, values[at..at + p], index[1..]);
    }
  }

  // ---- arrayTree ----

  function Lengths(dimensions: seq<Dimension>): seq<nat>
    requires forall k :: 0 <= k < |dimensions| ==> dimensions[k].length >= 0
  {
    seq(|dimensions|, k requires 0 <= k < |dimensions| => dimensions[k].length as nat)
  }

  /** The product of the declared lengths, 0 for no dimension. */
  function Count(dimensions: seq<Dimension>): int {
    if dimensions == [] then 0 else CountFrom(dimensions)
  }

  function CountFrom(dimensions: seq<Dimension>): int {
    if dimensions == [] then 1 else dimensions[0].length * CountFrom(dimensions[1..])
  }

  predicate Accepts(dimensions: seq<Dimension>, values: seq<Cell>) {
    && Count(dimensions) == |values| && |values| <= MAX_SAFE_INTEGER
    && |dimensions| <= MAX_DIMENSIONS
    && (forall k :: 0 <= k < |dimensions| ==> dimensions[k].length >= 0)
    && (|dimensions| > 1 ==> forall k :: 0 <= k < |dimensions| ==> dimensions[k].length != 0)
    && (forall k :: 0 <= k < |values| ==> values[k] != NestedArray)
  }

  /** The lengths multiplied up one after the other. */
  ghost function Total(dimensions: seq<Dimension>): int {
    if dimensions == [] then 0
    else if |dimensions| == 1 then dimensions[0].length
    else Total(dimensions[..|dimensions| - 1]) * dimensions[|dimensions| - 1].length
  }

  /** The payload has the declared size, in at most six dimensions, none of them negative, none empty beside another, and holds no array. */
  ghost predicate Fitting(dimensions: seq<Dimension>, values: seq<Cell>) {
    && Total(dimensions) == |values| <= 9_007_199_254_740_991 && |dimensions| <= 6
    && (forall k :: 0 <= k < |dimensions| ==> dimensions[k].length >= 0)
    && (|dimensions| > 1 ==> forall k :: 0 <= k < |dimensions| ==> dimensions[k].length > 0)
    && forall k :: 0 <= k < |values| ==> !values[k].NestedArray?
  }

  lemma Associates(a: int, b: int, c: int)
    ensures a * (b * c) == (a * b) * c
  {
  }

  lemma {:induction false} CountSnoc(dimensions: seq<Dimension>)
    requires dimensions != []
    ensures CountFrom(dimensions) == CountFrom(dimensions[..|dimensions| - 1]) * dimensions[|dimensions| - 1].length
  {
    var init, last := dimensions[..|dimensions| - 1], dimensions[|dimensions| - 1].length;
    if init != [] {
      CountSnoc(dimensions[1..]);
      assert dimensions[1..][..|dimensions| - 2] == init[1..];
      Associates(dimensions[0].length, CountFrom(init[1..]), last);
    } else {
      assert dimensions[1..] == [];
    }
  }

  lemma {:induction false} TotalIsCount(dimensions: seq<Dimension>)
    ensures Total(dimensions) == Count(dimensions)
  {
    if |dimensions| > 0 { CountSnoc(dimensions); }
    if |dimensions| > 1 { TotalIsCount(dimensions[..|dimensions| - 1]); }
  }

  lemma FittingIff(dimensions: seq<Dimension>, values: seq<Cell>)
    ensures Accepts(dimensions, values) <==> Fitting(dimensions, values)
  {
    hide Count, Total;
    TotalIsCount(dimensions);
  }

  lemma {:induction false} CountIsProduct(dimensions: seq<Dimension>)
    requires forall k :: 0 <= k < |dimensions| ==> dimensions[k].length >= 0
    ensures CountFrom(dimensions) == Product(Lengths(dimensions))
    decreases dimensions
  {
    if dimensions != [] {
      CountIsProduct(dimensions[1..]);
      assert Lengths(dimensions)[1..] == Lengths(dimensions[1..]);
    }
  }

  lemma {:induction false} GrowSnoc(n: nat, rest: seq<nat>, a: seq<Cell>, b: seq<Cell>)
    requires |a| == Span(n, rest) && |b| == Product(rest)
    ensures |a + b| == Span(n + 1, rest)
    ensures Grow(n + 1, rest, a + b) == Grow(n, rest, a) + [Item(rest, b)]
    decreases n
  {
    hide Item, Product, Span;
    var p := Product(rest);
    SpanStep(n, rest);
    if n == 0 {
      SpanStep(0, rest);
      assert a + b == b && (a + b)[..p] == b;
      assert Grow(0, rest, (a + b)[p..]) == [];
    } else {
      SpanStep(n - 1, rest);
      GrowSnoc(n - 1, rest, a[p..], b);
      assert (a + b)[..p] == a[..p] && (a + b)[p..] == a[p..] + b;
    }
  }

  /** One element of the level at `depth`, from the captured index on. */
  method NestOne(lengths: seq<nat>, values: seq<Cell>, depth: nat, start: nat) returns (item: Tree, index: nat)
    requires depth < |lengths| && start + Product(lengths[depth + 1..]) <= |values|
    ensures index == start + Product(lengths[depth + 1..]) <= |values|
    ensures item == Item(lengths[depth + 1..], values[start..index])
    decreases |lengths| - depth, 0
  {
    if depth == |lengths| - 1 {
      item, index := Leaf(values[start]), start + 1;
    } else {
      var children;
      children, index := Nest(lengths, values, depth + 1, start);
      item := Node(children);
    }
  }

  /** The captured index runs through the payload once, in order. */
  method Nest(lengths: seq<nat>, values: seq<Cell>, depth: nat, start: nat) returns (items: seq<Tree>, index: nat)
    requires depth < |lengths| && start + Product(lengths[depth..]) <= |values|
    ensures index == start + Product(lengths[depth..]) <= |values|
    ensures Node(items) == Item(lengths[depth..], values[start..index])
    decreases |lengths| - depth, 1
  {
    hide Item, Span, Product, Grow;
    ghost var rest := lengths[depth + 1..];
    LevelSpan(lengths, depth);
    items, index := [], start;
    var j: nat := 0;
    GrowNone(rest);
    assert values[start..start] == [];
    while j < lengths[depth]
      invariant 0 <= j <= lengths[depth] && index == start + Span(j, rest) <= |values|
      invariant items == Grow(j, rest, values[start..index])
    {
      SpanMono(j + 1, lengths[depth], rest);
      SpanStep(j, rest);
      ghost var before := index;
      var item;
      item, index := NestOne(lengths, values, depth, index);
      GrowSnoc(j, rest, values[start..before], values[before..index]);
      assert values[start..before] + values[before..index] == values[start..index];
      items := items + [item];
      j := j + 1;
    }
    LevelItem(lengths, depth, values[start..index]);
  }

  lemma LevelSpan(lengths: seq<nat>, depth: nat)
    requires depth < |lengths|
    ensures Product(lengths[depth..]) == Span(lengths[depth], lengths[depth + 1..])
  {
    assert lengths[depth..][0] == lengths[depth] && lengths[depth..][1..] == lengths[depth + 1..];
  }

  lemma LevelItem(lengths: seq<nat>, depth: nat, values: seq<Cell>)
    requires depth < |lengths| && |values| == Span(lengths[depth], lengths[depth + 1..])
    ensures |values| == Product(lengths[depth..])
    ensures Item(lengths[depth..], values) == Node(Grow(lengths[depth], lengths[depth + 1..], values))
  {
    LevelSpan(lengths, depth);
    assert lengths[depth..][0] == lengths[depth] && lengths[depth..][1..] == lengths[depth + 1..];
    hide Product, Grow, Span;
  }

  lemma GrowNone(rest: seq<nat>)
    ensures Span(0, rest) == 0 && Grow(0, rest, []) == []
  {
    SpanStep(0, rest);
  }

  /** What an accepted array is nested as. */
  function Nested(dimensions: seq<Dimension>, values: seq<Cell>): seq<Tree>
    requires Accepts(dimensions, values)
  {
    if values == [] then []
    else
      CountIsProduct(dimensions);
      Item(Lengths(dimensions), values).items
  }

  method ArrayTree(dimensions: seq<Dimension>, values: seq<Cell>) returns (r: Option<seq<Tree>>)
    ensures r.Some? <==> Fitting(dimensions, values)
    ensures r.Some? ==> Accepts(dimensions, values) && r.value == Nested(dimensions, values)
  {
    FittingIff(dimensions, values);
    hide Fitting;
    if !Accepts(dimensions, values) {
      return None;
    }
    if Count(dimensions) == 0 {
      return Some([]);
    }
    CountIsProduct(dimensions);
    var lengths := Lengths(dimensions);
    assert lengths[0..] == lengths && values[0..|values|] == values;
    var items, index := Nest(lengths, values, 0, 0);
    r := Some(items);
  }

  lemma {:induction false} ProductZero(lengths: seq<nat>, k: nat)
    requires k < |lengths| && lengths[k] == 0
    ensures Product(lengths) == 0
    decreases lengths
  {
    if k > 0 {
      ProductZero(lengths[1..], k - 1);
    }
  }

  /**
   * Whenever the payload is accepted, flattening the tree gives it back, every depth has its
   * declared length, and each multi-index leads to the value at the row-major offset.
   */
  lemma ArrayTreeIsLossless(dimensions: seq<Dimension>, values: seq<Cell>)
    requires Accepts(dimensions, values) && values != []
    ensures FlattenAll(Nested(dimensions, values)) == values
    ensures HasShape(Node(Nested(dimensions, values)), Lengths(dimensions))
    ensures forall index :: ValidIndex(Lengths(dimensions), index) ==>
      RowMajor(Lengths(dimensions), index) < |values|
      && At(Node(Nested(dimensions, values)), index) == Some(values[RowMajor(Lengths(dimensions), index)])
  {
    CountIsProduct(dimensions);
    var lengths := Lengths(dimensions);
    FlattenItem(lengths, values);
    GrownShape(lengths[0], lengths[1..], values);
    forall index | ValidIndex(lengths, index)
      ensures RowMajor(lengths, index) < |values|
      ensures At(Item(lengths, values), index) == Some(values[RowMajor(lengths, index)])
    {
      RowMajorAt(lengths, values, index);
    }
  }

  // ---- arrayText ----

  /** Every backslash and quote behind a backslash. */
  function EscapeElement(s: string): string {
    if s == "" then "" else (if s[0] in "\\\"" then ['\\', s[0]] else [s[0]]) + EscapeElement(s[1..])
  }

  predicate Printable(t: Tree) {
    match t
    case Leaf(cell) => cell.Null? || cell.Text?
    case Node(items) => AllPrintable(items)
  }

  predicate AllPrintable(items: seq<Tree>) {
    items == [] || (Printable(items[0]) && AllPrintable(items[1..]))
  }

  /** The text of an element; a binary, unknown or nested value has none. */
  function ItemText(t: Tree): string {
    match t
    case Leaf(cell) =>
      if cell.Null? then "NULL" else if cell.Text? then "\"" + EscapeElement(cell.text) + "\"" else ""
    case Node(items) => "{" + ItemsText(items) + "}"
  }

  function ItemsText(items: seq<Tree>): string {
    if items == [] then ""
    else if |items| == 1 then ItemText(items[0])
    else ItemText(items[0]) + "," + ItemsText(items[1..])
  }

  function Bound(d: Dimension): string {
    "[" + Signed(d.lower) + ":" + Signed(d.lower + d.length - 1) + "]"
  }

  function Bounds(dimensions: seq<Dimension>): string {
    if dimensions == [] then "" else Bound(dimensions[0]) + Bounds(dimensions[1..])
  }

  predicate DefaultBounds(dimensions: seq<Dimension>) {
    forall k :: 0 <= k < |dimensions| ==> dimensions[k].lower == 1
  }

  /** None where the source raises an error. */
  function ArrayText(dimensions: seq<Dimension>, values: seq<Cell>): Option<string> {
    if !Accepts(dimensions, values) || !AllPrintable(Nested(dimensions, values)) then None
    else
      var text := "{" + ItemsText(Nested(dimensions, values)) + "}";
      Some(if values == [] || DefaultBounds(dimensions) then text else Bounds(dimensions) + "=" + text)
  }

  lemma {:induction false} PrintableFlat(t: Tree)
    ensures Printable(t) <==> forall c :: c in Flatten(t) ==> c.Null? || c.Text?
    decreases t
  {
    match t {
      case Leaf(cell) => assert Flatten(t) == [cell];
      case Node(items) => AllPrintableFlat(items);
    }
  }

  lemma {:induction false} AllPrintableFlat(items: seq<Tree>)
    ensures AllPrintable(items) <==> forall c :: c in FlattenAll(items) ==> c.Null? || c.Text?
    decreases items
  {
    if items != [] {
      PrintableFlat(items[0]);
      AllPrintableFlat(items[1..]);
    }
  }

  /**
   * An array has text exactly when its payload fits and every element is NULL or has text; bounds
   * stand before it exactly when it is not empty and some lower bound is not 1.
   */
  lemma PrintsIff(dimensions: seq<Dimension>, values: seq<Cell>)
    ensures var text := ArrayText(dimensions, values);
      && (text.Some? <==> Fitting(dimensions, values) && forall k :: 0 <= k < |values| ==> values[k].Null? || values[k].Text?)
      && (text.Some? && values == [] ==> text.value == "{}")
      && (text.Some? && values != [] ==>
            text.value != "" && (text.value[0] == '[' <==> exists k :: 0 <= k < |dimensions| && dimensions[k].lower != 1))
  {
    FittingIff(dimensions, values);
    if Accepts(dimensions, values) {
      AllPrintableFlat(Nested(dimensions, values));
      if values != [] {
        ArrayTreeIsLossless(dimensions, values);
        assert forall k :: 0 <= k < |values| ==> values[k] in values;
        if !DefaultBounds(dimensions) { BoundsStart(dimensions); }
      }
    }
  }

  /** An element's text has backslashes only for its quotes and backslashes. */
  lemma {:induction false} PlainElement(s: string)
    requires forall k :: 0 <= k < |s| ==> s[k] != '"' && s[k] != '\\'
    ensures EscapeElement(s) == s
  {
    if s != "" { PlainElement(s[1..]); }
  }

  // ---- a reader for section 8.15.6 of the PostgreSQL manual ----

  datatype TextAt = TextAt(text: string, rest: string)
  datatype TreeAt = TreeAt(tree: Tree, rest: string)
  datatype TreesAt = TreesAt(items: seq<Tree>, rest: string)

  function Cons(c: char, r: Option<TextAt>): Option<TextAt> {
    if r.None? then None else Some(TextAt([c] + r.value.text, r.value.rest))
  }

  /** A quoted element, from just after its opening quote; a backslash takes the next character as it is. */
  function ReadQuoted(s: string): (r: Option<TextAt>)
    ensures r.Some? ==> |r.value.rest| < |s|
    decreases |s|
  {
    if s == "" then None
    else if s[0] == '"' then Some(TextAt("", s[1..]))
    else if s[0] != '\\' then Cons(s[0], ReadQuoted(s[1..]))
    else if |s| == 1 then None
    else Cons(s[1], ReadQuoted(s[2..]))
  }

  function ReadItem(s: string): (r: Option<TreeAt>)
    ensures r.Some? ==> |r.value.rest| < |s|
    decreases |s|, 0
  {
    if s == "" then None
    else if s[0] == '{' then
      var items := ReadItems(s[1..]);
      if items.None? then None else Some(TreeAt(Node(items.value.items), items.value.rest))
    else if s[0] == '"' then
      var text := ReadQuoted(s[1..]);
      if text.None? then None else Some(TreeAt(Leaf(Text(text.value.text)), text.value.rest))
    else if |s| >= 4 && s[..4] == "NULL" then Some(TreeAt(Leaf(Null), s[4..]))
    else None
  }

  /** Elements separated by commas, up to and over the closing brace. */
  function ReadItems(s: string): (r: Option<TreesAt>)
    ensures r.Some? ==> |r.value.rest| < |s|
    decreases |s|, 1
  {
    var first := ReadItem(s);
    if first.None? || first.value.rest == "" then None
    else if first.value.rest[0] == '}' then Some(TreesAt([first.value.tree], first.value.rest[1..]))
    else if first.value.rest[0] != ',' then None
    else
      var more := ReadItems(first.value.rest[1..]);
      if more.None? then None else Some(TreesAt([first.value.tree] + more.value.items, more.value.rest))
  }

  /** Lengths seen along the first elements. */
  function ShapeOf(t: Tree): seq<nat>
    decreases t
  {
    if t.Leaf? || t.items == [] then [] else [|t.items|] + ShapeOf(t.items[0])
  }

  datatype BoundsAt = BoundsAt(dimensions: seq<Dimension>, rest: string)

  /** [lower:upper] for each dimension, up to and over the equals sign. */
  function ReadBounds(s: string): Option<BoundsAt>
    decreases |s|
  {
    if s == "" then None
    else if s[0] == '=' then Some(BoundsAt([], s[1..]))
    else
      var colon := Until(s, ':');
      var close := Until(s, ']');
      if s[0] != '[' || !(1 <= colon < close < |s|) then None
      else
        var lower, upper := ReadInt(s[1..colon]), ReadInt(s[colon + 1..close]);
        var more := ReadBounds(s[close + 1..]);
        if lower.None? || upper.None? || more.None? then None
        else
          var d := Dimension(lower.value, upper.value - lower.value + 1);
          Some(BoundsAt([d] + more.value.dimensions, more.value.rest))
  }

  datatype ArrayRead = ArrayRead(dimensions: seq<Dimension>, items: seq<Tree>)

  function Defaulted(lengths: seq<nat>): seq<Dimension> {
    seq(|lengths|, k requires 0 <= k < |lengths| => Dimension(1, lengths[k]))
  }

  function ReadArray(s: string): Option<ArrayRead> {
    var bounds := if s != "" && s[0] == '[' then ReadBounds(s) else Some(BoundsAt([], s));
    if bounds.None? || bounds.value.rest == "" || bounds.value.rest[0] != '{' then None
    else
      var items := ReadItems(bounds.value.rest[1..]);
      if items.None? || items.value.rest != "" then None
      else
        var tree := Node(items.value.items);
        Some(ArrayRead(if s[0] == '[' then bounds.value.dimensions else Defaulted(ShapeOf(tree)), items.value.items))
  }

  // ---- reading back ----

  lemma EscapedText(f: string, rest: string)
    ensures f == "" ==> EscapeElement(f) + "\"" + rest == "\"" + rest
    ensures f != "" ==>
      EscapeElement(f) + "\"" + rest == (if f[0] in "\\\"" then ['\\', f[0]] else [f[0]]) + (EscapeElement(f[1..]) + "\"" + rest)
  {
  }

  lemma ReadQuotedNext(c: char, tail: string)
    ensures ReadQuoted("\"" + tail) == Some(TextAt("", tail))
    ensures ReadQuoted((if c in "\\\"" then ['\\', c] else [c]) + tail) == Cons(c, ReadQuoted(tail))
  {
    assert ("\"" + tail)[1..] == tail && ([c] + tail)[1..] == tail && (['\\', c] + tail)[2..] == tail;
  }

  lemma {:induction false} EscapedReads(f: string, rest: string)
    ensures ReadQuoted(EscapeElement(f) + "\"" + rest) == Some(TextAt(f, rest))
    decreases |f|
  {
    EscapedText(f, rest);
    hide ReadQuoted, EscapeElement;
    if f == "" {
      ReadQuotedNext(' ', rest);
    } else {
      EscapedReads(f[1..], rest);
      ReadQuotedNext(f[0], EscapeElement(f[1..]) + "\"" + rest);
      assert [f[0]] + f[1..] == f;
    }
  }

  function Size(t: Tree): nat {
    match t
    case Leaf(_) => 1
    case Node(items) => 1 + SizeAll(items)
  }

  function SizeAll(items: seq<Tree>): nat {
    if items == [] then 0 else 1 + Size(items[0]) + SizeAll(items[1..])
  }

  /** No array in the tree is empty. */
  predicate Full(t: Tree) {
    match t
    case Leaf(_) => true
    case Node(items) => items != [] && AllFull(items)
  }

  predicate AllFull(items: seq<Tree>) {
    items == [] || (Full(items[0]) && AllFull(items[1..]))
  }

  lemma LeafReads(cell: Cell, rest: string)
    requires cell.Null? || cell.Text?
    ensures ReadItem(ItemText(Leaf(cell)) + rest) == Some(TreeAt(Leaf(cell), rest))
  {
    var s := ItemText(Leaf(cell)) + rest;
    if cell.Text? {
      var inner := EscapeElement(cell.text) + "\"" + rest;
      assert s == "\"" + inner && s[1..] == inner;
      EscapedReads(cell.text, rest);
    } else {
      assert s[..4] == "NULL" && s[4..] == rest;
    }
  }

  lemma {:induction false} ItemReads(t: Tree, rest: string)
    requires Printable(t) && Full(t)
    ensures ReadItem(ItemText(t) + rest) == Some(TreeAt(t, rest))
    decreases Size(t), 0
  {
    match t
    case Leaf(cell) => LeafReads(cell, rest);
    case Node(items) =>
      var inner := ItemsText(items) + "}" + rest;
      assert ItemText(t) + rest == "{" + inner;
      assert ("{" + inner)[1..] == inner;
      ItemsRead(items, rest);
  }

  lemma LastRead(first: Tree, rest: string)
    requires ReadItem(ItemText(first) + ("}" + rest)) == Some(TreeAt(first, "}" + rest))
    ensures ReadItems(ItemText(first) + ("}" + rest)) == Some(TreesAt([first], rest))
  {
    hide ReadItem, ItemText;
    assert ("}" + rest)[1..] == rest;
  }

  lemma MoreRead(first: Tree, text: string, more: TreesAt)
    requires ReadItem(ItemText(first) + ("," + text)) == Some(TreeAt(first, "," + text))
    requires ReadItems(text) == Some(more)
    ensures ReadItems(ItemText(first) + ("," + text)) == Some(TreesAt([first] + more.items, more.rest))
  {
    hide ReadItem, ItemText;
    assert ("," + text)[1..] == text;
  }

  lemma {:induction false} ItemsRead(items: seq<Tree>, rest: string)
    requires items != [] && AllPrintable(items) && AllFull(items)
    ensures ReadItems(ItemsText(items) + "}" + rest) == Some(TreesAt(items, rest))
    decreases SizeAll(items), 1
  {
    hide ReadItem, ReadItems, ItemText, Printable, Full;
    var first := items[0];
    if |items| == 1 {
      assert items == [first];
      ItemReads(first, "}" + rest);
      LastRead(first, rest);
      assert ItemsText(items) + "}" + rest == ItemText(first) + ("}" + rest);
    } else {
      var text := ItemsText(items[1..]) + "}" + rest;
      ItemsRead(items[1..], rest);
      ItemReads(first, "," + text);
      MoreRead(first, text, TreesAt(items[1..], rest));
      assert ItemsText(items) + "}" + rest == ItemText(first) + ("," + text);
      assert [first] + items[1..] == items;
    }
  }

  // ---- bounds ----

  lemma SignedHasNo(n: int, c: char)
    requires !IsDigit(c) && c != '-'
    ensures c !in Signed(n)
  {
    NatReads(Abs(n));
    DigitsHaveNo(Nat(Abs(n)), c);
  }

  lemma BoundReads(d: Dimension, rest: string)
    ensures var s := Bound(d) + rest;
      var colon, close := Until(s, ':'), Until(s, ']');
      && s[0] == '[' && 1 <= colon < close < |s|
      && s[1..colon] == Signed(d.lower) && s[colon + 1..close] == Signed(d.lower + d.length - 1)
      && s[close + 1..] == rest
  {
    hide Signed, Until;
    var a, b := Signed(d.lower), Signed(d.lower + d.length - 1);
    SignedHasNo(d.lower, ':');
    SignedHasNo(d.lower, ']');
    SignedHasNo(d.lower + d.length - 1, ']');
    var s := Bound(d) + rest;
    assert s == ("[" + a) + (":" + b + "]" + rest);
    UntilFirst("[" + a, ':', ":" + b + "]" + rest);
    assert s == ("[" + a + ":" + b) + ("]" + rest);
    UntilFirst("[" + a + ":" + b, ']', "]" + rest);
  }

  lemma BoundsText(dimensions: seq<Dimension>, rest: string)
    ensures dimensions == [] ==> Bounds(dimensions) + "=" + rest == "=" + rest
    ensures dimensions != [] ==>
      Bounds(dimensions) + "=" + rest == Bound(dimensions[0]) + (Bounds(dimensions[1..]) + "=" + rest)
  {
    hide Bound;
  }

  lemma {:induction false} BoundsRead(dimensions: seq<Dimension>, rest: string)
    ensures ReadBounds(Bounds(dimensions) + "=" + rest) == Some(BoundsAt(dimensions, rest))
    decreases dimensions
  {
    hide Bound, Signed, Until, ReadInt, Bounds;
    BoundsText(dimensions, rest);
    var s := Bounds(dimensions) + "=" + rest;
    if dimensions == [] {
      assert s[1..] == rest;
    } else {
      var d := dimensions[0];
      var after := Bounds(dimensions[1..]) + "=" + rest;
      BoundReads(d, after);
      SignedReads(d.lower);
      SignedReads(d.lower + d.length - 1);
      BoundsRead(dimensions[1..], rest);
      assert [d] + dimensions[1..] == dimensions;
      assert Dimension(d.lower, d.lower + d.length - 1 - d.lower + 1) == d;
    }
  }

  // ---- lossless ----

  lemma {:induction false} ShapeIsFull(t: Tree, lengths: seq<nat>)
    requires HasShape(t, lengths) && forall k :: 0 <= k < |lengths| ==> lengths[k] > 0
    ensures Full(t) && ShapeOf(t) == lengths
    decreases lengths
  {
    if lengths != [] {
      ShapeIsFull(t.items[0], lengths[1..]);
      ItemsAreFull(t.items, lengths[1..]);
      assert [lengths[0]] + lengths[1..] == lengths;
    }
  }

  lemma {:induction false} ItemsAreFull(items: seq<Tree>, lengths: seq<nat>)
    requires forall k :: 0 <= k < |items| ==> HasShape(items[k], lengths)
    requires forall k :: 0 <= k < |lengths| ==> lengths[k] > 0
    ensures AllFull(items)
    decreases lengths, |items|
  {
    if items != [] {
      if lengths != [] {
        ItemsAreFull(items[0].items, lengths[1..]);
      }
      ItemsAreFull(items[1..], lengths);
    }
  }

  /**
   * A non-empty array that prints reads back to the same bounds, nesting and elements, with NULL,
   * "NULL", quotes and backslashes kept apart.
   */
  lemma ArrayTextRoundTrip(dimensions: seq<Dimension>, values: seq<Cell>)
    requires values != [] && ArrayText(dimensions, values).Some?
    ensures ReadArray(ArrayText(dimensions, values).value) == Some(ArrayRead(dimensions, Nested(dimensions, values)))
  {
    hide Nested, ReadItems, ItemsText, ReadBounds, Bounds, Product, HasShape, FlattenAll, AllFull, ShapeOf;
    var items := Nested(dimensions, values);
    NestedIsFull(dimensions, values);
    ItemsRead(items, "");
    var text := "{" + ItemsText(items) + "}";
    assert text[1..] == ItemsText(items) + "}" == ItemsText(items) + "}" + "";
    if !DefaultBounds(dimensions) {
      BoundsRead(dimensions, text);
      BoundsStart(dimensions);
    } else {
      DefaultedBack(dimensions);
    }
  }

  lemma BoundsStart(dimensions: seq<Dimension>)
    requires dimensions != []
    ensures Bounds(dimensions) != "" && Bounds(dimensions)[0] == '['
  {
  }

  lemma DefaultedBack(dimensions: seq<Dimension>)
    requires DefaultBounds(dimensions) && forall k :: 0 <= k < |dimensions| ==> dimensions[k].length >= 0
    ensures Defaulted(Lengths(dimensions)) == dimensions
  {
  }

  lemma NestedIsFull(dimensions: seq<Dimension>, values: seq<Cell>)
    requires Accepts(dimensions, values) && values != []
    ensures var items := Nested(dimensions, values);
      items != [] && AllFull(items) && ShapeOf(Node(items)) == Lengths(dimensions)
  {
    CountIsProduct(dimensions);
    var lengths := Lengths(dimensions);
    forall k: nat | k < |lengths| ensures lengths[k] > 0 {
      if lengths[k] == 0 {
        ProductZero(lengths, k);
      }
    }
    ArrayTreeIsLossless(dimensions, values);
    ShapeIsFull(Node(Nested(dimensions, values)), lengths);
  }
}
