module TemporalWire {
  // decode_temporal_raw of decoder.rs from the bytes on: payload lengths, signed integers, and
  // times with a zone.

  import opened Wrappers
  import opened Clock
  import opened Decimal
  import opened Temporal

  datatype WireType = Plain(t: Type) | Timetz

  // ---- big-endian integers ----

  function Pow256(n: nat): (p: nat)
    ensures p > 0
  {
    if n == 0 then 1 else 256 * Pow256(n - 1)
  }

  predicate Octets(bytes: seq<nat>) {
    forall i :: 0 <= i < |bytes| ==> bytes[i] < 256
  }

  function Unsigned(bytes: seq<nat>): nat {
    if bytes == [] then 0 else 256 * Unsigned(bytes[..|bytes| - 1]) + bytes[|bytes| - 1]
  }

  /** from_be_bytes of a signed integer: two's complement. */
  function FromBytes(bytes: seq<nat>): int {
    if 2 * Unsigned(bytes) >= Pow256(|bytes|) then Unsigned(bytes) - Pow256(|bytes|) else Unsigned(bytes)
  }

  function ToOctets(n: nat, width: nat): (bytes: seq<nat>)
    ensures |bytes| == width && Octets(bytes)
  {
    if width == 0 then [] else ToOctets(n / 256, width - 1) + [n % 256]
  }

  /** The server's side: a signed integer of `width` bytes, high byte first. */
  function ToBytes(n: int, width: nat): (bytes: seq<nat>)
    ensures |bytes| == width
  {
    var u: int := if n < 0 then n + Pow256(width) else n;
    ToOctets(if u < 0 then 0 else u, width)
  }

  predicate FitsIn(n: int, width: nat) {
    0 <= 2 * n + Pow256(width) && 2 * n < Pow256(width)
  }

  lemma {:induction false} OctetsRead(n: nat, width: nat)
    requires n < Pow256(width)
    ensures Unsigned(ToOctets(n, width)) == n
  {
    if width > 0 {
      OctetsRead(n / 256, width - 1);
      var bytes := ToOctets(n, width);
      assert bytes[..|bytes| - 1] == ToOctets(n / 256, width - 1);
    }
  }

  /** Every integer that fits its width is read back from its bytes. */
  lemma BytesRead(n: int, width: nat)
    requires FitsIn(n, width)
    ensures FromBytes(ToBytes(n, width)) == n
  {
    OctetsRead(if n < 0 then n + Pow256(width) else n, width);
  }

  lemma {:induction false} UnsignedBound(bytes: seq<nat>)
    requires Octets(bytes)
    ensures Unsigned(bytes) < Pow256(|bytes|)
  {
    if bytes != [] { UnsignedBound(bytes[..|bytes| - 1]); }
  }

  lemma FromBytesFits(bytes: seq<nat>)
    requires Octets(bytes)
    ensures FitsIn(FromBytes(bytes), |bytes|)
  {
    UnsignedBound(bytes);
  }

  lemma Widths()
    ensures Pow256(4) == 0x1_0000_0000 && Pow256(8) == 0x1_0000_0000_0000_0000
  {
    assert Pow256(4) == 256 * (256 * (256 * (256 * Pow256(0))));
    assert Pow256(8) == 256 * (256 * (256 * (256 * Pow256(4))));
  }

  // ---- zones ----

  const DAY_SECONDS: int := 86_400

  /** chrono's FixedOffset: the seconds east, as hours and minutes, and seconds when there are any. */
  function ZoneText(west: int): string {
    var a := Abs(west);
    [if west > 0 then '-' else '+'] + Fixed(a / 3600, 2) + ":" + Fixed(a / 60 % 60, 2)
      + (if a % 60 == 0 then "" else ":" + Fixed(a % 60, 2))
  }

  function ReadZone(z: string): Option<int> {
    if (|z| != 6 && |z| != 9) || (z[0] != '+' && z[0] != '-') || z[3] != ':' || (|z| == 9 && z[6] != ':') then None
    else if !Digits(z[1..3] + z[4..6] + if |z| == 9 then z[7..] else "") then None
    else
      var a: int := Value(z[1..3]) * 3600 + Value(z[4..6]) * 60 + if |z| == 9 then Value(z[7..]) else 0;
      Some(if z[0] == '-' then a else -a)
  }

  function ZoneStart(s: string): (k: nat)
    ensures k <= |s|
  {
    if Until(s, '+') < |s| then Until(s, '+') else Until(s, '-')
  }

  /** Reads a time and its zone back: microseconds, and seconds west. */
  function ReadTimetz(s: string): Option<(nat, int)> {
    var time, zone := ReadClock(s[..ZoneStart(s)]), ReadZone(s[ZoneStart(s)..]);
    if time.Some? && zone.Some? then Some((time.value, zone.value)) else None
  }

  lemma ZonePieces(sign: char, hh: string, mm: string, tail: string)
    requires |hh| == 2 && |mm| == 2
    ensures var z := [sign] + hh + ":" + mm + tail;
      |z| == 6 + |tail| && z[0] == sign && z[3] == ':' && z[1..3] == hh && z[4..6] == mm && z[6..] == tail
  {
    var z := [sign] + hh + ":" + mm + tail;
    assert z[1] == hh[0] && z[2] == hh[1] && z[4] == mm[0] && z[5] == mm[1];
  }

  lemma ZoneParts(west: int)
    requires -DAY_SECONDS < west < DAY_SECONDS
    ensures var a, z := Abs(west), ZoneText(west);
      && |z| == (if a % 60 == 0 then 6 else 9)
      && z[0] == (if west > 0 then '-' else '+') && z[3] == ':'
      && z[1..3] == Fixed(a / 3600, 2) && z[4..6] == Fixed(a / 60 % 60, 2)
      && (a % 60 != 0 ==> z[6] == ':' && z[7..] == Fixed(a % 60, 2))
  {
    hide Fixed;
    var a := Abs(west);
    var rest := if a % 60 == 0 then "" else ":" + Fixed(a % 60, 2);
    var z := ZoneText(west);
    ZonePieces(if west > 0 then '-' else '+', Fixed(a / 3600, 2), Fixed(a / 60 % 60, 2), rest);
    assert z == [if west > 0 then '-' else '+'] + Fixed(a / 3600, 2) + ":" + Fixed(a / 60 % 60, 2) + rest;
    hide *;
    if a % 60 != 0 {
      assert z[6..] == rest && z[7..] == z[6..][1..] && rest[1..] == Fixed(a % 60, 2);
    }
  }

  lemma SecondsOf(a: nat)
    ensures a == a / 3600 * 3600 + a / 60 % 60 * 60 + a % 60
  {
    assert a / 3600 == a / 60 / 60;
  }

  lemma ZoneReads(west: int)
    requires -DAY_SECONDS < west < DAY_SECONDS
    ensures ReadZone(ZoneText(west)) == Some(west)
  {
    hide ZoneText, Fixed, Value, Digits, Pow10;
    var a := Abs(west);
    assert Pow10(2) == 100 by { TwoDigits(); }
    ZoneParts(west);
    FixedReads(a / 3600, 2);
    FixedReads(a / 60 % 60, 2);
    FixedReads(a % 60, 2);
    SecondsOf(a);
    DigitsJoin(Fixed(a / 3600, 2), Fixed(a / 60 % 60, 2), if a % 60 == 0 then "" else Fixed(a % 60, 2));
  }

  lemma TwoDigits()
    ensures Pow10(2) == 100
  {
    assert Pow10(2) == 10 * (10 * Pow10(0));
  }

  lemma DigitsJoin(a: string, b: string, c: string)
    ensures Digits(a) && Digits(b) && (c == "" || Digits(c)) ==> Digits(a + b + c)
  {
  }

  lemma ClockCharacters(h: nat, m: nat, s: nat, fraction: string)
    requires m < 100 && s < 100 && Digits(fraction)
    ensures '+' !in ClockText(h, m, s, fraction) && '-' !in ClockText(h, m, s, fraction)
  {
    hide Fixed, Padded, Value, Pow10;
    TwoDigits();
    PaddedReads(h, 2);
    FixedReads(m, 2);
    FixedReads(s, 2);
  }

  /** Nothing in a clock text looks like the sign of a zone. */
  lemma ClockHasNoSign(us: nat)
    requires us <= DAY
    ensures FmtTime(us).Some? && '+' !in FmtTime(us).value && '-' !in FmtTime(us).value
  {
    if us < DAY {
      hide ClockText, Fraction;
      FractionReads(us % SECOND);
      ClockCharacters(us / HOUR, us / MINUTE % 60, us / SECOND % 60, Fraction(us % SECOND));
    }
  }

  lemma ZoneStartsAt(time: string, west: int)
    requires -DAY_SECONDS < west < DAY_SECONDS && '+' !in time && '-' !in time
    ensures ZoneStart(time + ZoneText(west)) == |time|
  {
    var z := ZoneText(west);
    ZoneParts(west);
    if west > 0 {
      NoPlus(west);
      UntilAbsent(time + z, '+');
      UntilFirst(time, '-', z);
    } else {
      UntilFirst(time, '+', z);
    }
  }

  lemma NoPlus(west: int)
    requires 0 < west < DAY_SECONDS
    ensures '+' !in ZoneText(west)
  {
    hide Fixed, Value;
    TwoDigits();
    FixedReads(west / 3600, 2);
    FixedReads(west / 60 % 60, 2);
    FixedReads(west % 60, 2);
  }

  // ---- the payload ----

  function Width(w: WireType): nat {
    match w
    case Timetz => 12
    case Plain(t) => if t.Date? then 4 else 8
  }

  /** Microseconds and seconds west, as the server sends a time with a zone. */
  function TimetzText(us: int, west: int): Option<string> {
    if FmtTime(us).None? || !(-DAY_SECONDS < west < DAY_SECONDS) then None
    else Some(FmtTime(us).value + ZoneText(west))
  }

  /** What a payload is shown as; None when its length or its contents are wrong. */
  function WireText(w: WireType, bytes: seq<nat>): Option<string> {
    if |bytes| != Width(w) then None
    else if w.Timetz? then TimetzText(FromBytes(bytes[..8]), FromBytes(bytes[8..]))
    else TemporalText(w.t, FromBytes(bytes))
  }

  lemma PayloadInBounds(t: Type, bytes: seq<nat>)
    requires Octets(bytes) && |bytes| == Width(Plain(t))
    ensures Bounds(t).0 <= FromBytes(bytes) <= Bounds(t).1
  {
    FromBytesFits(bytes);
    Widths();
  }

  method DecodeTemporalRaw(w: WireType, bytes: seq<nat>) returns (r: Option<string>)
    requires Octets(bytes)
    ensures r == WireText(w, bytes)
  {
    hide FromBytes, FmtTime, ZoneText, TemporalText;
    if w.Timetz? || w.t.Time? {
      if |bytes| < 8 {
        return None;
      }
      var time := FmtTime(FromBytes(bytes[..8]));
      if time.None? {
        assert w.Plain? && |bytes| == 8 ==> bytes[..8] == bytes && TemporalText(w.t, FromBytes(bytes)) == time by { TimeIsText(w, bytes); }
        return None;
      }
      if w.Timetz? {
        if |bytes| != 12 {
          return None;
        }
        var west := FromBytes(bytes[8..]);
        if !(-DAY_SECONDS < west < DAY_SECONDS) {
          return None;
        }
        return Some(time.value + ZoneText(west));
      }
      if |bytes| != 8 {
        return None;
      }
      TimeIsText(w, bytes);
      return time;
    }
    if |bytes| != Width(w) {
      return None;
    }
    PayloadInBounds(w.t, bytes);
    r := DecodeTemporal(w.t, FromBytes(bytes));
  }

  lemma TimeIsText(w: WireType, bytes: seq<nat>)
    ensures w.Plain? && w.t.Time? && |bytes| == 8 ==>
      bytes[..8] == bytes && TemporalText(w.t, FromBytes(bytes)) == FmtTime(FromBytes(bytes[..8]))
  {
    if |bytes| == 8 { assert bytes[..8] == bytes; }
  }

  /** Every time with a zone that PostgreSQL has reads back, microseconds and zone alike. */
  lemma TimetzRoundTrip(us: nat, west: int)
    requires us <= DAY && -DAY_SECONDS < west < DAY_SECONDS
    ensures var text := WireText(Timetz, ToBytes(us, 8) + ToBytes(west, 4));
      text.Some? && ReadTimetz(text.value) == Some((us, west))
  {
    hide ToBytes, FromBytes, FmtTime, ZoneText, ReadClock, ReadZone, ZoneStart, Pow256;
    var bytes := ToBytes(us, 8) + ToBytes(west, 4);
    assert bytes[..8] == ToBytes(us, 8) && bytes[8..] == ToBytes(west, 4);
    Widths();
    BytesRead(us, 8);
    BytesRead(west, 4);
    TimeRoundTrip(us);
    ClockHasNoSign(us);
    var time := FmtTime(us).value;
    ZoneReads(west);
    ZoneStartsAt(time, west);
    assert (time + ZoneText(west))[..|time|] == time && (time + ZoneText(west))[|time|..] == ZoneText(west);
  }

  /** Every date and timestamp between the infinities reads back from the bytes it was sent as. */
  lemma WireRoundTrip(t: Type, offset: int)
    requires !t.Time? && Least(t) < offset < Greatest(t)
    ensures var text := WireText(Plain(t), ToBytes(offset, if t.Date? then 4 else 8));
      text.Some? && ReadTemporal(t, text.value) == Some(offset)
  {
    BoundsAre(t);
    hide ToBytes, FromBytes, TemporalText, ReadTemporal, Pow256;
    Widths();
    BytesRead(offset, Width(Plain(t)));
    TemporalRoundTrip(t, offset);
  }

  /** A payload is refused exactly for its length, a time outside the day or a zone a day away. */
  lemma RefusedIff(w: WireType, bytes: seq<nat>)
    requires Octets(bytes)
    ensures WireText(w, bytes).None? <==>
      || |bytes| != (if w.Timetz? then 12 else if w.t.Date? then 4 else 8)
      || ((w.Timetz? || w.t.Time?) && !(0 <= FromBytes(bytes[..8]) <= 86_400_000_000))
      || (w.Timetz? && !(-86_400 < FromBytes(bytes[8..]) < 86_400))
  {
    hide FromBytes, ZoneText, ClockText, DateText, TimeSuffix;
    TimeIsText(w, bytes);
  }
}
