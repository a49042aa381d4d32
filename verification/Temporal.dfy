module Temporal {
  // decode_temporal_raw and fmt_time of decoder.rs: dates and times as text, over the Gregorian
  // calendar.

  import opened Wrappers
  import opened Calendar
  import opened Clock
  import opened Decimal

  // ---- printing ----

  datatype Type = Date | Time | Timestamp | Timestamptz

  const I32_MIN: int := -0x8000_0000
  const I32_MAX: int := 0x7FFF_FFFF
  const I64_MIN: int := -0x8000_0000_0000_0000
  const I64_MAX: int := 0x7FFF_FFFF_FFFF_FFFF

  /** chrono's %.f: nothing, milliseconds or microseconds. */
  function Fraction(us: nat): string
    requires us < SECOND
  {
    if us == 0 then "" else if us % 1000 == 0 then Fixed(us / 1000, 3) else Fixed(us, 6)
  }

  function FmtTime(us: int): Option<string> {
    if us == DAY then Some("24:00:00")
    else if 0 <= us < DAY then
      Some(ClockText(us / HOUR, us / MINUTE % 60, us / SECOND % 60, Fraction(us % SECOND)))
    else None
  }

  function DateText(d: Ymd): string {
    Padded(if d.year <= 0 then 1 - d.year else d.year, 4) + ("-" + Fixed(d.month, 2) + "-" + Fixed(d.day, 2))
  }

  function Bounds(t: Type): (b: (int, int)) {
    if t.Date? then (I32_MIN, I32_MAX) else (I64_MIN, I64_MAX)
  }

  function TimeOf(us: int): string {
    if FmtTime(us).Some? then FmtTime(us).value else ""
  }

  /** The clock time within the day, for the types that have one. */
  function TimeSuffix(t: Type, us: int): string {
    match t
    case Timestamp => "T" + TimeOf(us)
    case Timestamptz => "T" + TimeOf(us) + "Z"
    case _ => ""
  }

  function BcSuffix(year: int): string {
    if year <= 0 then " BC" else ""
  }

  /** The day an offset falls on, rounding down. */
  function Days(t: Type, offset: int): int {
    if t.Date? then offset else offset / DAY
  }

  /** The microseconds into that day. */
  function InDay(offset: int): (us: nat)
    ensures us < DAY
  {
    offset % DAY
  }

  lemma DayAndTime(t: Type, offset: int)
    ensures if t.Date? then Days(t, offset) == offset else Days(t, offset) * DAY + InDay(offset) == offset
  {
  }

  /** What an offset from 2000-01-01 is shown as. */
  function TemporalText(t: Type, offset: int): Option<string> {
    if t.Time? then FmtTime(offset)
    else if offset == Bounds(t).0 then Some("-infinity")
    else if offset == Bounds(t).1 then Some("infinity")
    else
      var d := DateOf(Days(t, offset));
      Some(DateText(d) + TimeSuffix(t, InDay(offset)) + BcSuffix(d.year))
  }

  /** fmt_time never refuses a time within the day. */
  method PushTime(before: string, t: Type, us: nat) returns (value: string)
    requires us < DAY && (t.Timestamp? || t.Timestamptz?)
    ensures FmtTime(us).Some? && value == before + TimeSuffix(t, us)
  {
    var suffix := "T" + FmtTime(us).value;
    if t.Timestamptz? {
      suffix := suffix + "Z";
    }
    value := before + suffix;
  }

  method DecodeTemporal(t: Type, offset: int) returns (r: Option<string>)
    requires Bounds(t).0 <= offset <= Bounds(t).1
    ensures r == TemporalText(t, offset)
  {
    if t.Time? {
      return FmtTime(offset);
    }
    var (min, max) := Bounds(t);
    if offset == min || offset == max {
      return Some(if offset == min then "-infinity" else "infinity");
    }
    var date := DateOf(Days(t, offset));
    var value := DateText(date);
    if !t.Date? {
      value := PushTime(value, t, InDay(offset));
    }
    assert DateText(date) + "" == DateText(date);
    assert value + "" == value;
    if date.year <= 0 {
      value := value + " BC";
    }
    r := Some(value);
  }

  // ---- how the text is written ----

  /** The integer that stands for -infinity: the least of 32 bits for a date, of 64 for a timestamp. */
  function Least(t: Type): int {
    if t.Date? then -2_147_483_648 else -9_223_372_036_854_775_808
  }

  /** The one that stands for infinity. */
  function Greatest(t: Type): int {
    if t.Date? then 2_147_483_647 else 9_223_372_036_854_775_807
  }


  lemma BoundsAre(t: Type)
    ensures Bounds(t) == (Least(t), Greatest(t))
  {
  }

  /** The length of a time of day: no fraction, three decimals or six, as many as are needed. */
  function TimeLength(us: nat): nat {
    if us % 1_000_000 == 0 then 8 else if us % 1_000 == 0 then 12 else 15
  }

  lemma TimeWording(us: nat)
    requires us < DAY
    ensures var t := TimeOf(us);
      Until(t, ':') == 2 && |t| == TimeLength(us)
  {
    ClockWording(us / HOUR, us / MINUTE % 60, us / SECOND % 60, Fraction(us % SECOND));
    hide ClockText;
    assert us / HOUR < 100;
    assert us % SECOND % 1000 == us % 1000 by { ThousandsApart(us); }
  }

  lemma ThousandsApart(us: nat)
    ensures us % 1_000_000 % 1000 == us % 1000
  {
    assert us == us / 1_000_000 * 1000 * 1000 + us % 1_000_000;
    Wrapped(us / 1_000_000 * 1000, us % 1_000_000);
  }

  lemma Wrapped(q: nat, r: nat)
    ensures (q * 1000 + r) % 1000 == r % 1000
  {
  }

  /**
   * How a date or timestamp is written: four digits of year, or more without a zero in front, two of
   * month and day, then for a timestamp T and the time of day, Z with a zone, and BC before year 1.
   */
  lemma DateWording(t: Type, offset: int)
    requires !t.Time? && Bounds(t).0 < offset < Bounds(t).1
    ensures var text := TemporalText(t, offset);
      && text.Some?
      && var k := Until(text.value, '-');
         && k >= 4 && (k > 4 ==> text.value[0] != '0')
         && |text.value| == k + 6 + (if t.Date? then 0 else 1 + TimeLength(InDay(offset)) + (if t.Timestamptz? then 1 else 0))
              + (if DateOf(Days(t, offset)).year <= 0 then 3 else 0)
  {
    hide *;
    NotSentinel(t, offset);
    var d := DateOf(Days(t, offset));
    var tail := TimeSuffix(t, InDay(offset)) + BcSuffix(d.year);
    SuffixLengths(t, InDay(offset), d.year);
    YearWording(d, tail);
    Appended(DateText(d), TimeSuffix(t, InDay(offset)), BcSuffix(d.year));
  }

  lemma NotSentinel(t: Type, offset: int)
    requires !t.Time? && Bounds(t).0 < offset < Bounds(t).1
    ensures var d := DateOf(Days(t, offset));
      TemporalText(t, offset) == Some(DateText(d) + TimeSuffix(t, InDay(offset)) + BcSuffix(d.year))
  {
    hide DateOf, Days, InDay, DateText, TimeSuffix, BcSuffix;
  }

  lemma Appended(a: string, b: string, c: string)
    ensures a + b + c == a + (b + c) && |a + (b + c)| == |a| + |b| + |c|
  {
  }

  lemma SuffixLengths(t: Type, us: nat, year: int)
    requires us < DAY && !t.Time?
    ensures |TimeSuffix(t, us)| == (if t.Date? then 0 else 1 + TimeLength(us) + (if t.Timestamptz? then 1 else 0))
    ensures |BcSuffix(year)| == if year <= 0 then 3 else 0
  {
    TimeWording(us);
    hide TimeOf, TimeLength;
  }

  lemma YearWording(d: Ymd, tail: string)
    ensures var text := DateText(d) + tail;
      var k := Until(text, '-');
      k >= 4 && (k > 4 ==> text[0] != '0') && |DateText(d)| == k + 6
  {
    hide Padded, Until, Fixed, Digits, IsDigit;
    var year := if d.year <= 0 then 1 - d.year else d.year;
    PaddedWording(year, 4);
    PaddedReads(year, 4);
    NoDash(Padded(year, 4));
    var rest := "-" + Fixed(d.month, 2) + "-" + Fixed(d.day, 2) + tail;
    assert DateText(d) + tail == Padded(year, 4) + rest;
    UntilFirst(Padded(year, 4), '-', rest);
  }

  lemma NoDash(s: string)
    requires Digits(s)
    ensures '-' !in s
  {
  }

  // ---- reading ----

  datatype DateAt = DateAt(date: Ymd, rest: string)

  /** A year of any length, two-digit month and day, then the rest. */
  function ReadDate(s: string): Option<DateAt> {
    var k := Until(s, '-');
    if k == 0 || |s| < k + 6 || s[k + 3] != '-' then None
    else if !Digits(s[..k] + s[k + 1..k + 3] + s[k + 4..k + 6]) then None
    else Some(DateAt(Ymd(Value(s[..k]), Value(s[k + 1..k + 3]), Value(s[k + 4..k + 6])), s[k + 6..]))
  }

  predicate EndsWith(s: string, suffix: string) {
    |suffix| <= |s| && s[|s| - |suffix|..] == suffix
  }

  function DropEnd(s: string, n: nat): string {
    if n <= |s| then s[..|s| - n] else ""
  }

  /** The time part: nothing for a date, T and a clock for a timestamp, with Z for one with a zone. */
  function ReadTimePart(t: Type, s: string): Option<nat> {
    if t.Date? then (if s == "" then Some(0) else None)
    else if s == "" || s[0] != 'T' then None
    else if t.Timestamptz? then (if EndsWith(s, "Z") && |s| > 1 then ReadClock(s[1..|s| - 1]) else None)
    else ReadClock(s[1..])
  }

  /** Reads a date or timestamp back as its offset from 2000-01-01. */
  function ReadTemporal(t: Type, s: string): Option<int> {
    var bc := EndsWith(s, " BC");
    ReadBody(t, if bc then DropEnd(s, 3) else s, bc)
  }

  function ReadBody(t: Type, s: string, bc: bool): Option<int> {
    var d := ReadDate(s);
    if d.None? then None
    else
      var date := d.value.date;
      var days := DayNumber(if bc then date.(year := 1 - date.year) else date);
      var us := ReadTimePart(t, d.value.rest);
      if us.None? then None else Some(if t.Date? then days else days * DAY + us.value)
  }

  lemma EmptyReads()
    ensures Value("") == 0 && Digits("")
  {
  }

  lemma FractionReads(us: nat)
    requires us < SECOND
    ensures var f := Fraction(us);
      |f| <= 6 && Digits(f) && Value(f) * Pow10(6 - |f|) == us
  {
    assert Pow10(3) == 1000 && Pow10(6) == 1_000_000 && Pow10(0) == 1;
    hide Pow10, Fixed, Value, Digits;
    if us == 0 {
      EmptyReads();
    } else if us % 1000 == 0 {
      FixedReads(us / 1000, 3);
    } else {
      FixedReads(us, 6);
    }
  }

  lemma MidnightReads()
    ensures ReadClock("24:00:00") == Some(DAY)
  {
    ClockReads(24, 0, 0, "");
    assert Pow10(2) == 100;
    assert Fixed(24, 2) == Fixed(2, 1) + [DigitChar(4)] == "24";
    assert Fixed(0, 2) == Fixed(0, 1) + [DigitChar(0)] == "00";
    assert ClockText(24, 0, 0, "") == "24:00:00";
  }

  lemma InDayReads(us: nat)
    requires us < DAY
    ensures ReadClock(TimeOf(us)) == Some(us)
  {
    hide ReadClock, ClockText, Value, Fraction;
    FractionReads(us % SECOND);
    SplitCount(us);
    ClockReads(us / HOUR, us / MINUTE % 60, us / SECOND % 60, Fraction(us % SECOND));
  }

  /** Every time of day reads back, 24:00 included. */
  lemma TimeRoundTrip(us: nat)
    requires us <= DAY
    ensures FmtTime(us).Some? && ReadClock(FmtTime(us).value) == Some(us)
  {
    if us == DAY {
      MidnightReads();
    } else {
      InDayReads(us);
    }
  }

  lemma DateTextIs(d: Ymd, rest: string)
    ensures DateText(d) + rest == Padded(if d.year <= 0 then 1 - d.year else d.year, 4)
      + ("-" + Fixed(d.month, 2) + "-" + Fixed(d.day, 2) + rest)
  {
    hide Padded, Fixed;
  }

  lemma DateReads(d: Ymd, rest: string)
    requires 1 <= d.month <= 12 && 1 <= d.day <= 31
    ensures ReadDate(DateText(d) + rest)
      == Some(DateAt(d.(year := if d.year <= 0 then 1 - d.year else d.year), rest))
  {
    var shown := if d.year <= 0 then 1 - d.year else d.year;
    var yy, mm, dd := Padded(shown, 4), Fixed(d.month, 2), Fixed(d.day, 2);
    assert Pow10(2) == 100;
    PaddedReads(shown, 4);
    FixedReads(d.month, 2);
    FixedReads(d.day, 2);
    DateTextIs(d, rest);
    hide Padded, Fixed, Value, Digits, Until, Pow10, DateText;
    DigitsTogether(yy, mm, dd);
    Pieces(yy, '-', mm, '-', dd, rest);
    DigitsHaveNo(yy, '-');
    UntilFirst(yy, '-', "-" + mm + "-" + dd + rest);
  }

  lemma TimePartReads(t: Type, us: nat)
    requires !t.Time? && us < DAY
    ensures ReadTimePart(t, TimeSuffix(t, us)) == Some(if t.Date? then 0 else us)
  {
    if !t.Date? {
      InDayReads(us);
      var time := TimeOf(us);
      var s := TimeSuffix(t, us);
      if t.Timestamptz? {
        assert s[1..|s| - 1] == time && s[|s| - 1..] == "Z";
      } else {
        assert s[1..] == time;
      }
    }
  }

  /** A text that ends in a digit or Z does not end in BC. */
  lemma NotBc(s: string)
    requires s != "" && s[|s| - 1] != 'C'
    ensures !EndsWith(s, " BC")
  {
    if |s| >= 3 {
      assert s[|s| - 3..][2] == s[|s| - 1];
    }
  }

  lemma LastCharacter(d: Ymd, t: Type, us: nat)
    requires !t.Time? && us < DAY
    ensures var s := DateText(d) + TimeSuffix(t, us);
      s != "" && s[|s| - 1] != 'C'
  {
    var s := DateText(d) + TimeSuffix(t, us);
    if t.Date? {
      assert s[|s| - 1] == Fixed(d.day, 2)[1];
      assert Fixed(d.day, 2)[1] == DigitChar(d.day % 10);
    } else if t.Timestamp? {
      TimeEndsInDigit(us);
    }
  }

  lemma TimeEndsInDigit(us: nat)
    requires us < DAY
    ensures var time := FmtTime(us).value; time != "" && IsDigit(time[|time| - 1])
  {
    var f := Fraction(us % SECOND);
    FractionReads(us % SECOND);
    var s := us / SECOND % 60;
    assert Fixed(s, 2)[1] == DigitChar(s % 10);
  }

  lemma PartsRead(t: Type, d: Ymd, us: nat)
    requires !t.Time? && 1 <= d.month <= 12 && 1 <= d.day <= 31 && us < DAY
    ensures ReadBody(t, DateText(d) + TimeSuffix(t, us), d.year <= 0)
      == Some(if t.Date? then DayNumber(d) else DayNumber(d) * DAY + us)
  {
    hide DayNumber, DateText, TimeSuffix, ReadTimePart, ReadDate;
    DateReads(d, TimeSuffix(t, us));
    TimePartReads(t, us);
    assert d.year <= 0 ==> d.(year := 1 - (1 - d.year)) == d;
  }

  lemma BodyReads(t: Type, offset: int)
    requires !t.Time?
    ensures var d := DateOf(Days(t, offset));
      ReadBody(t, DateText(d) + TimeSuffix(t, InDay(offset)), d.year <= 0) == Some(offset)
  {
    hide *;
    DateOfCounts(Days(t, offset));
    PartsRead(t, DateOf(Days(t, offset)), InDay(offset));
    DayAndTime(t, offset);
  }

  lemma BcReads(t: Type, body: string, year: int)
    requires body != "" && body[|body| - 1] != 'C'
    ensures ReadTemporal(t, body + BcSuffix(year)) == ReadBody(t, body, year <= 0)
  {
    var s := body + BcSuffix(year);
    if year <= 0 {
      assert s[|s| - 3..] == " BC" && DropEnd(s, 3) == body;
    } else {
      assert s == body;
      NotBc(s);
    }
  }

  /**
   * Every day or microsecond count but the two infinities reads back from its text: the date, the
   * time and the BC suffix lose nothing.
   */
  lemma TemporalRoundTrip(t: Type, offset: int)
    requires !t.Time? && Least(t) < offset < Greatest(t)
    ensures TemporalText(t, offset).Some? && ReadTemporal(t, TemporalText(t, offset).value) == Some(offset)
  {
    BoundsAre(t);
    hide DateOf, DateText, TimeSuffix, ReadTemporal, ReadBody, Days;
    var d := DateOf(Days(t, offset));
    BodyReads(t, offset);
    LastCharacter(d, t, InDay(offset));
    BcReads(t, DateText(d) + TimeSuffix(t, InDay(offset)), d.year);
  }

  lemma NamesAreNoDates(t: Type)
    ensures ReadTemporal(t, "infinity") == None && ReadTemporal(t, "-infinity") == None
  {
    NotBc("infinity");
    NotBc("-infinity");
    UntilAbsent("infinity", '-');
    assert ReadDate("infinity") == None && ReadDate("-infinity") == None;
  }

  /** The infinities, and only they, are shown by name. */
  lemma InfinityIff(t: Type, offset: int)
    requires !t.Time? && Least(t) <= offset <= Greatest(t)
    ensures var s := TemporalText(t, offset);
      && (s == Some("-infinity") <==> offset == Least(t))
      && (s == Some("infinity") <==> offset == Greatest(t))
  {
    BoundsAre(t);
    hide ReadTemporal, DateOf, DateText, TimeSuffix, Days, InDay;
    NamesAreNoDates(t);
    if Bounds(t).0 < offset < Bounds(t).1 {
      TemporalRoundTrip(t, offset);
    }
  }
}
