module Interval {
  // fmt_interval of decoder.rs, and a reader for what it prints.

  import opened Wrappers
  import opened Quoting
  import opened Decimal
  import opened Clock

  /** Rust's i / 12, toward zero. */
  function TruncDiv12(a: int): int {
    if a >= 0 then a / 12 else -(-a / 12)
  }

  datatype Part = Years(n: int) | Months(n: int) | DayCount(n: int) | Time(us: int)

  function UnitName(p: Part): string
    requires !p.Time?
  {
    var name := match p case Years(_) => "year" case Months(_) => "mon" case _ => "day";
    if Abs(p.n) == 1 then name else name + "s"
  }

  /** The fraction of a second with its trailing zeros cut. */
  function FractionText(us: nat): string
    requires us < SECOND
  {
    TrimZeros(Fixed(us, 6))
  }

  function TimeText(us: int): string {
    var a := Abs(us);
    (if us < 0 then "-" else "") + ClockText(a / HOUR, a / MINUTE % 60, a / SECOND % 60, FractionText(a % SECOND))
  }

  function PartText(p: Part): string {
    if p.Time? then TimeText(p.us) else Signed(p.n) + " " + UnitName(p)
  }

  function PartTexts(parts: seq<Part>): (texts: seq<string>)
    ensures |texts| == |parts|
  {
    seq(|parts|, i requires 0 <= i < |parts| => PartText(parts[i]))
  }

  function One(keep: bool, p: Part): seq<Part> {
    if keep then [p] else []
  }

  /** The parts shown: those that are not zero, or a zero time when all are. */
  function PartsOf(months: int, days: int, us: int): seq<Part> {
    var years := TruncDiv12(months);
    var mons := months - 12 * years;
    var counts := One(years != 0, Years(years)) + One(mons != 0, Months(mons)) + One(days != 0, DayCount(days));
    counts + One(us != 0 || counts == [], Time(us))
  }

  function IntervalText(months: int, days: int, us: int): string {
    Join(PartTexts(PartsOf(months, days, us)), " ")
  }

  lemma PartTextsSnoc(parts: seq<Part>, p: Part)
    ensures PartTexts(parts + [p]) == PartTexts(parts) + [PartText(p)]
  {
  }

  method Push(texts: seq<string>, ghost parts: seq<Part>, keep: bool, p: Part) returns (r: seq<string>)
    requires texts == PartTexts(parts)
    ensures r == PartTexts(parts + One(keep, p))
  {
    r := texts;
    PartTextsSnoc(parts, p);
    assert parts + [] == parts;
    if keep {
      r := r + [PartText(p)];
    }
  }

  method FmtInterval(months: int, days: int, us: int) returns (text: string)
    ensures text == IntervalText(months, days, us)
  {
    hide Join, PartTexts, TruncDiv12;
    var years := TruncDiv12(months);
    var mons := months - 12 * years;
    ghost var shown: seq<Part> := [];
    assert PartTexts(shown) == [];
    var parts := Push([], shown, years != 0, Years(years));
    shown := shown + One(years != 0, Years(years));
    parts := Push(parts, shown, mons != 0, Months(mons));
    shown := shown + One(mons != 0, Months(mons));
    parts := Push(parts, shown, days != 0, DayCount(days));
    shown := shown + One(days != 0, DayCount(days));
    assert shown == One(years != 0, Years(years)) + One(mons != 0, Months(mons)) + One(days != 0, DayCount(days));
    parts := Push(parts, shown, us != 0 || parts == [], Time(us));
    text := Join(parts, " ");
  }

  // ---- the wording ----

  /** Years and months are the truncated quotient and remainder, and only what is not zero is shown, in this order. */
  lemma PartsShown(months: int, days: int, us: int) returns (y: int, m: int)
    ensures months == 12 * y + m && -12 < m < 12
    ensures (months >= 0 ==> y >= 0 && m >= 0) && (months <= 0 ==> y <= 0 && m <= 0)
    ensures PartsOf(months, days, us) ==
      (if y != 0 then [Years(y)] else []) + (if m != 0 then [Months(m)] else [])
      + (if days != 0 then [DayCount(days)] else [])
      + (if us != 0 || (months == 0 && days == 0) then [Time(us)] else [])
  {
    y := TruncDiv12(months);
    m := months - 12 * y;
    assert (y == 0 && m == 0) <==> months == 0;
    hide TruncDiv12;
    var counts := One(y != 0, Years(y)) + One(m != 0, Months(m)) + One(days != 0, DayCount(days));
    assert counts == [] <==> y == 0 && m == 0 && days == 0;
  }

  /** The unit is singular exactly at one and at minus one. */
  lemma UnitWording(n: int)
    ensures PartText(Years(n)) == Signed(n) + (if n == 1 || n == -1 then " year" else " years")
    ensures PartText(Months(n)) == Signed(n) + (if n == 1 || n == -1 then " mon" else " mons")
    ensures PartText(DayCount(n)) == Signed(n) + (if n == 1 || n == -1 then " day" else " days")
  {
    assert " " + "year" == " year" && " " + ("year" + "s") == " years";
    assert " " + "mon" == " mon" && " " + ("mon" + "s") == " mons";
    assert " " + "day" == " day" && " " + ("day" + "s") == " days";
    var s := Signed(n);
    assert s + " " + "year" == s + " year" && s + " " + ("year" + "s") == s + " years";
    assert s + " " + "mon" == s + " mon" && s + " " + ("mon" + "s") == s + " mons";
    assert s + " " + "day" == s + " day" && s + " " + ("day" + "s") == s + " days";
  }

  lemma {:induction false} TrimmedEnd(s: string)
    ensures TrimZeros(s) == "" || TrimZeros(s)[|TrimZeros(s)| - 1] != '0'
    decreases |s|
  {
    if s != "" && s[|s| - 1] == '0' { TrimmedEnd(s[..|s| - 1]); }
  }

  /** The fraction is there exactly when the second is not whole, and never ends in a zero. */
  lemma FractionWording(us: nat)
    requires us < SECOND
    ensures var f := FractionText(us);
      && (f == "" <==> us == 0) && |f| <= 6 && Digits(f) && Value(f) * Pow10(6 - |f|) == us
      && (f != "" ==> f[|f| - 1] != '0')
  {
    FractionTextReads(us);
    TrimmedEnd(Fixed(us, 6));
    hide TrimZeros, Pow10, Digits;
    var f := FractionText(us);
    if f != "" && us == 0 {
      LastFigureCounts(f, Pow10(6 - |f|));
    }
  }

  /** A time is a clock after a minus exactly when it is negative: two digits of hours, or more without a zero in front. */
  lemma TimeWording(us: int)
    ensures var a := if us < 0 then -us else us;
      var t := PartText(Time(us));
      var clock := if us < 0 then t[1..] else t;
      var k := Until(clock, ':');
      && t != "" && (t[0] == '-' <==> us < 0)
      && k >= 2 && (k > 2 ==> clock[0] != '0')
      && |clock| == k + 6 + (if a % 1_000_000 == 0 then 0 else 1 + |FractionText(a % 1_000_000)|)
  {
    var a := Abs(us);
    FractionWording(a % SECOND);
    PaddedReads(a / HOUR, 2);
    ClockWording(a / HOUR, a / MINUTE % 60, a / SECOND % 60, FractionText(a % SECOND));
    ClockStarts(a / HOUR, a / MINUTE % 60, a / SECOND % 60, FractionText(a % SECOND));
    hide ClockText, FractionText, Until, Padded;
    var clock := ClockText(a / HOUR, a / MINUTE % 60, a / SECOND % 60, FractionText(a % SECOND));
    assert us < 0 ==> ("-" + clock)[1..] == clock;
    assert us >= 0 ==> "" + clock == clock;
  }

  lemma ClockStarts(h: nat, m: nat, s: nat, fraction: string)
    ensures ClockText(h, m, s, fraction) != "" && ClockText(h, m, s, fraction)[0] != '-'
  {
    PaddedReads(h, 2);
    hide Padded, Fixed;
  }

  /** A run of digits that does not end in zero is not worth zero. */
  lemma LastFigureCounts(f: string, p: nat)
    requires f != "" && Digits(f) && f[|f| - 1] != '0' && p > 0
    ensures Value(f) * p > 0
  {
    assert DigitOf(f[|f| - 1]) > 0;
    assert Value(f) > 0;
  }

  // ---- reading ----

  datatype Span = Span(months: int, days: int, us: int)

  function Plus(a: Span, b: Span): Span {
    Span(a.months + b.months, a.days + b.days, a.us + b.us)
  }

  function ReadUnit(n: int, unit: string): Option<Span> {
    if unit == "year" || unit == "years" then Some(Span(12 * n, 0, 0))
    else if unit == "mon" || unit == "mons" then Some(Span(n, 0, 0))
    else if unit == "day" || unit == "days" then Some(Span(0, n, 0))
    else None
  }

  function ReadTime(s: string): Option<Span> {
    var negative := s != "" && s[0] == '-';
    var clock := ReadClock(if negative then s[1..] else s);
    if clock.None? then None
    else
      var us: int := clock.value;
      Some(Span(0, 0, if negative then -us else us))
  }

  /** A number and a unit, over and over, and at most one clock at the end. */
  function ReadTokens(tokens: seq<string>): Option<Span> {
    if tokens == [] then Some(Span(0, 0, 0))
    else if |tokens| == 1 then ReadTime(tokens[0])
    else
      var n, rest := ReadInt(tokens[0]), ReadTokens(tokens[2..]);
      if n.None? || rest.None? then None
      else
        var first := ReadUnit(n.value, tokens[1]);
        if first.None? then None else Some(Plus(first.value, rest.value))
  }

  function SplitAt(s: string, c: char): (r: seq<string>)
    ensures |r| > 0
    decreases |s|
  {
    var k := Until(s, c);
    if k == |s| then [s] else [s[..k]] + SplitAt(s[k + 1..], c)
  }

  function ReadInterval(s: string): Option<Span> {
    ReadTokens(SplitAt(s, ' '))
  }

  lemma {:induction false} SplitJoined(tokens: seq<string>)
    requires |tokens| > 0 && forall k :: 0 <= k < |tokens| ==> ' ' !in tokens[k]
    ensures SplitAt(Join(tokens, " "), ' ') == tokens
    decreases |tokens|
  {
    var first := tokens[0];
    assert ' ' !in first;
    if |tokens| == 1 {
      UntilAbsent(first, ' ');
      assert tokens == [first];
    } else {
      var rest := Join(tokens[1..], " ");
      var s := Join(tokens, " ");
      assert s == first + (" " + rest);
      UntilFirst(first, ' ', " " + rest);
      assert s[..|first|] == first && s[|first| + 1..] == rest;
      SplitJoined(tokens[1..]);
      assert [first] + tokens[1..] == tokens;
    }
  }

  function Tokens(p: Part): seq<string> {
    if p.Time? then [TimeText(p.us)] else [Signed(p.n), UnitName(p)]
  }

  function AllTokens(parts: seq<Part>): seq<string> {
    if parts == [] then [] else Tokens(parts[0]) + AllTokens(parts[1..])
  }

  lemma JoinTwo(n: string, unit: string, rest: seq<string>)
    ensures Join([n + " " + unit] + rest, " ") == Join([n, unit] + rest, " ")
  {
    var two := [n, unit] + rest;
    assert two[1..] == [unit] + rest && ([unit] + rest)[1..] == rest && ([n + " " + unit] + rest)[1..] == rest;
    if rest == [] {
      assert [n, unit][1..] == [unit];
    } else {
      assert n + " " + (unit + " " + Join(rest, " ")) == n + " " + unit + " " + Join(rest, " ");
    }
  }

  lemma JoinTail(first: string, a: seq<string>, b: seq<string>)
    requires Join(a, " ") == Join(b, " ") && (a == [] <==> b == [])
    ensures Join([first] + a, " ") == Join([first] + b, " ")
  {
    assert ([first] + a)[1..] == a && ([first] + b)[1..] == b;
  }

  lemma {:induction false} JoinParts(parts: seq<Part>)
    ensures Join(PartTexts(parts), " ") == Join(AllTokens(parts), " ")
    ensures parts == [] <==> AllTokens(parts) == []
    decreases |parts|
  {
    hide Join, TimeText, Signed, UnitName;
    if parts == [] {
      assert PartTexts(parts) == AllTokens(parts);
    } else {
      var p, rest := parts[0], AllTokens(parts[1..]);
      assert PartTexts(parts) == [PartText(p)] + PartTexts(parts[1..]);
      JoinParts(parts[1..]);
      JoinTail(PartText(p), PartTexts(parts[1..]), rest);
      if !p.Time? {
        JoinTwo(Signed(p.n), UnitName(p), rest);
      }
    }
  }

  lemma FractionTextReads(us: nat)
    requires us < SECOND
    ensures var f := FractionText(us);
      |f| <= 6 && Digits(f) && Value(f) * Pow10(6 - |f|) == us
  {
    assert Pow10(6) == 1_000_000;
    FixedReads(us, 6);
    TrimZerosKeepsValue(Fixed(us, 6));
  }

  lemma TimeReads(us: int)
    ensures ReadTime(TimeText(us)) == Some(Span(0, 0, us)) && ' ' !in TimeText(us)
  {
    hide ReadClock, FractionText, Value, Padded;
    var a := Abs(us);
    FractionTextReads(a % SECOND);
    SplitCount(a);
    ClockReads(a / HOUR, a / MINUTE % 60, a / SECOND % 60, FractionText(a % SECOND));
    ClockHasNoSpace(a / HOUR, a / MINUTE % 60, a / SECOND % 60, FractionText(a % SECOND));
    var clock := ClockText(a / HOUR, a / MINUTE % 60, a / SECOND % 60, FractionText(a % SECOND));
    if us < 0 {
      assert TimeText(us)[1..] == clock;
    } else {
      assert TimeText(us) == clock;
    }
  }

  lemma ClockHasNoSpace(h: nat, m: nat, s: nat, fraction: string)
    requires m < 100 && s < 100 && Digits(fraction)
    ensures var t := ClockText(h, m, s, fraction);
      ' ' !in t && t != "" && t[0] != '-'
  {
    assert Pow10(2) == 100;
    PaddedReads(h, 2);
    FixedReads(m, 2);
    FixedReads(s, 2);
    DigitsHaveNo(Padded(h, 2), ' ');
    DigitsHaveNo(Fixed(m, 2), ' ');
    DigitsHaveNo(Fixed(s, 2), ' ');
    DigitsHaveNo(fraction, ' ');
    assert ClockText(h, m, s, fraction)[0] == Padded(h, 2)[0];
  }

  function Amount(p: Part): Span {
    match p
    case Years(n) => Span(12 * n, 0, 0)
    case Months(n) => Span(n, 0, 0)
    case DayCount(n) => Span(0, n, 0)
    case Time(us) => Span(0, 0, us)
  }

  function Total(parts: seq<Part>): Span {
    if parts == [] then Span(0, 0, 0) else Plus(Amount(parts[0]), Total(parts[1..]))
  }

  predicate TimeLast(parts: seq<Part>) {
    forall k :: 0 <= k < |parts| - 1 ==> !parts[k].Time?
  }

  lemma UnitReads(p: Part)
    requires !p.Time?
    ensures ReadUnit(p.n, UnitName(p)) == Some(Amount(p)) && ' ' !in UnitName(p)
  {
    assert "year" + "s" == "years" && "mon" + "s" == "mons" && "day" + "s" == "days";
    assert UnitName(p)[0] == (if p.Years? then 'y' else if p.Months? then 'm' else 'd');
  }

  lemma CountStep(p: Part, rest: seq<string>)
    requires !p.Time? && ReadTokens(rest).Some?
    ensures ReadTokens(Tokens(p) + rest) == Some(Plus(Amount(p), ReadTokens(rest).value))
  {
    hide Signed, ReadInt, UnitName, ReadUnit;
    SignedReads(p.n);
    UnitReads(p);
    var all := Tokens(p) + rest;
    assert all[2..] == rest;
  }

  lemma {:induction false} TokensRead(parts: seq<Part>)
    requires TimeLast(parts)
    ensures ReadTokens(AllTokens(parts)) == Some(Total(parts))
    decreases |parts|
  {
    hide Tokens, Amount, ReadTime;
    if parts != [] {
      var p := parts[0];
      TokensRead(parts[1..]);
      if p.Time? {
        assert parts == [p];
        TimeTokenReads(p);
      } else {
        CountStep(p, AllTokens(parts[1..]));
      }
    }
  }

  lemma TimeTokenReads(p: Part)
    requires p.Time?
    ensures AllTokens([p]) == Tokens(p) && ReadTokens(Tokens(p)) == Some(Amount(p)) == Some(Total([p]))
  {
    hide TimeText, ReadTime;
    TimeReads(p.us);
    assert [p][1..] == [];
    assert Tokens(p) + [] == Tokens(p);
  }

  lemma {:induction false} TokensHaveNoSpace(parts: seq<Part>)
    ensures forall k :: 0 <= k < |AllTokens(parts)| ==> ' ' !in AllTokens(parts)[k]
    decreases |parts|
  {
    hide Signed, UnitName, TimeText;
    if parts != [] {
      var p := parts[0];
      TokensHaveNoSpace(parts[1..]);
      if p.Time? {
        TimeReads(p.us);
      } else {
        SignedReads(p.n);
        UnitReads(p);
      }
      assert forall k :: 0 <= k < |Tokens(p)| ==> ' ' !in Tokens(p)[k];
    }
  }

  lemma {:induction false} TotalConcat(a: seq<Part>, b: seq<Part>)
    ensures Total(a + b) == Plus(Total(a), Total(b))
    decreases |a|
  {
    if a == [] {
      assert a + b == b;
    } else {
      assert (a + b)[1..] == a[1..] + b;
      TotalConcat(a[1..], b);
    }
  }

  lemma TotalOne(keep: bool, p: Part)
    ensures Total(One(keep, p)) == if keep then Amount(p) else Span(0, 0, 0)
  {
    assert [p][1..] == [];
  }

  lemma PartsShape(months: int, days: int, us: int)
    ensures TimeLast(PartsOf(months, days, us)) && PartsOf(months, days, us) != []
  {
    hide TruncDiv12;
  }

  /** Four optional parts add up to what each stands for. */
  lemma FourTotal(y: seq<Part>, m: seq<Part>, d: seq<Part>, t: seq<Part>)
    ensures Total(y + m + d + t) == Plus(Plus(Plus(Total(y), Total(m)), Total(d)), Total(t))
  {
    TotalConcat(y, m);
    TotalConcat(y + m, d);
    TotalConcat(y + m + d, t);
  }

  lemma PartsTotal(months: int, days: int, us: int)
    ensures Total(PartsOf(months, days, us)) == Span(months, days, us)
  {
    hide Total, One, TruncDiv12;
    var years := TruncDiv12(months);
    var mons := months - 12 * years;
    var y, m, d := One(years != 0, Years(years)), One(mons != 0, Months(mons)), One(days != 0, DayCount(days));
    var t := One(us != 0 || y + m + d == [], Time(us));
    FourTotal(y, m, d, t);
    TotalOne(years != 0, Years(years));
    TotalOne(mons != 0, Months(mons));
    TotalOne(days != 0, DayCount(days));
    TotalOne(us != 0 || y + m + d == [], Time(us));
    assert Total(y) == Span(12 * years, 0, 0) && Total(m) == Span(mons, 0, 0);
    assert Total(d) == Span(0, days, 0) && Total(t) == Span(0, 0, us);
  }

  /** Every interval reads back as the months, days and microseconds it was printed from. */
  lemma IntervalRoundTrip(months: int, days: int, us: int)
    ensures ReadInterval(IntervalText(months, days, us)) == Some(Span(months, days, us))
  {
    hide PartsOf, AllTokens, ReadTokens, PartTexts, Join, SplitAt, Total;
    var parts := PartsOf(months, days, us);
    PartsShape(months, days, us);
    PartsTotal(months, days, us);
    JoinParts(parts);
    TokensHaveNoSpace(parts);
    TokensRead(parts);
    SplitJoined(AllTokens(parts));
  }
}
