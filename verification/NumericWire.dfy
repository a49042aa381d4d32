module NumericWire {
  // NUMERIC from the payload's bytes to a number read back from the text.

  import opened Wrappers
  import opened Decimal
  import opened Numeric

  // ---- what a server sends ----

  function Byte(n: nat): byte
    requires n < 256
  {
    n as byte
  }

  /** An unsigned 16-bit number, high byte first. */
  function U16Bytes(n: nat): (bytes: seq<byte>)
    requires n < 65536
    ensures |bytes| == 2
  {
    [Byte(n / 256), Byte(n % 256)]
  }

  /** A signed one, in two's complement. */
  function I16Bytes(n: int): (bytes: seq<byte>)
    requires -32768 <= n <= 32767
    ensures |bytes| == 2
  {
    U16Bytes(if n < 0 then n + 65536 else n)
  }

  predicate Storable(digits: seq<nat>) {
    |digits| <= 32767 && forall i :: 0 <= i < |digits| ==> digits[i] < 10000
  }

  function DigitBytes(digits: seq<nat>): (bytes: seq<byte>)
    requires forall i :: 0 <= i < |digits| ==> digits[i] < 10000
    ensures |bytes| == 2 * |digits|
  {
    if digits == [] then [] else U16Bytes(digits[0]) + DigitBytes(digits[1..])
  }

  /** The digit count, the weight of the first digit, the sign word, the decimals to show, and the digits. */
  function Payload(sign: nat, weight: int, dscale: nat, digits: seq<nat>): (bytes: seq<byte>)
    requires sign < 65536 && -32768 <= weight <= 32767 && dscale < 65536 && Storable(digits)
    ensures |bytes| == 8 + 2 * |digits|
  {
    I16Bytes(|digits|) + I16Bytes(weight) + U16Bytes(sign) + U16Bytes(dscale) + DigitBytes(digits)
  }

  // ---- the number they stand for ----

  /** The digits as one base-10000 number, the first the most significant. */
  function BaseValue(digits: seq<nat>): nat {
    if digits == [] then 0 else 10000 * BaseValue(digits[..|digits| - 1]) + digits[|digits| - 1]
  }

  function Power(base: nat, n: nat): nat {
    if n == 0 then 1 else base * Power(base, n - 1)
  }

  /**
   * `u` is |value| times 10^dscale rounded down, the value being the digits as one number times
   * 10000 to the power weight + 1 - |digits|.
   */
  ghost predicate RoundedDown(u: int, digits: seq<nat>, weight: int, dscale: nat) {
    var e := weight + 1 - |digits|;
    if e >= 0 then u == BaseValue(digits) * Power(10, dscale + 4 * e)
    else u * Power(10, -4 * e) <= BaseValue(digits) * Power(10, dscale) < (u + 1) * Power(10, -4 * e)
  }

  // ---- reading the text ----

  const FIGURES: string := "0123456789"

  predicate Figure(c: char) {
    c in FIGURES
  }

  function FigureValue(c: char): nat {
    if c in FIGURES then c as int - '0' as int else 0
  }

  predicate Figures(s: string) {
    forall i :: 0 <= i < |s| ==> Figure(s[i])
  }

  function Reading(s: string): nat {
    if s == "" then 0 else 10 * Reading(s[..|s| - 1]) + FigureValue(s[|s| - 1])
  }

  datatype Number = Number(negative: bool, whole: string, decimals: string)

  /** An optional minus, figures, and after a point, figures again; the point needs figures after it. */
  function ReadNumber(text: string): Option<Number> {
    var negative := text != "" && text[0] == '-';
    var rest := if negative then text[1..] else text;
    var k := Until(rest, '.');
    if k == 0 || !Figures(rest[..k]) then None
    else if k == |rest| then Some(Number(negative, rest, ""))
    else if k + 1 == |rest| || !Figures(rest[k + 1..]) then None
    else Some(Number(negative, rest[..k], rest[k + 1..]))
  }

  // ---- decoding undoes encoding ----

  lemma U16Reads(bytes: seq<byte>, i: nat, n: nat)
    requires n < 65536 && i + 1 < |bytes| && bytes[i..i + 2] == U16Bytes(n)
    ensures U16(bytes, i) == n
  {
    assert bytes[i] == bytes[i..i + 2][0] && bytes[i + 1] == bytes[i..i + 2][1];
  }

  lemma I16Reads(bytes: seq<byte>, i: nat, n: int)
    requires -32768 <= n <= 32767 && i + 1 < |bytes| && bytes[i..i + 2] == I16Bytes(n)
    ensures I16(bytes, i) == n
  {
    U16Reads(bytes, i, if n < 0 then n + 65536 else n);
  }

  lemma HeaderParts(a: seq<byte>, b: seq<byte>, c: seq<byte>, d: seq<byte>, rest: seq<byte>)
    requires |a| == |b| == |c| == |d| == 2
    ensures var all := a + b + c + d + rest;
      all[0..2] == a && all[2..4] == b && all[4..6] == c && all[6..8] == d && all[8..] == rest
  {
  }

  lemma {:induction false} DigitsRead(digits: seq<nat>, bytes: seq<byte>, at: nat, i: nat)
    requires forall j :: 0 <= j < |digits| ==> digits[j] < 10000
    requires at + 2 * |digits| == |bytes| && bytes[at..] == DigitBytes(digits) && i < |digits|
    ensures U16(bytes, at + 2 * i) == digits[i]
    decreases |digits|
  {
    assert bytes[at..at + 2] == bytes[at..][..2] == U16Bytes(digits[0]);
    if i == 0 {
      U16Reads(bytes, at, digits[0]);
    } else {
      assert bytes[at + 2..] == bytes[at..][2..] == DigitBytes(digits[1..]);
      DigitsRead(digits[1..], bytes, at + 2, i - 1);
    }
  }

  /** Each header field and every digit is found where it was put. */
  lemma PayloadReads(sign: nat, weight: int, dscale: nat, digits: seq<nat>)
    requires sign < 65536 && -32768 <= weight <= 32767 && dscale < 65536 && Storable(digits)
    ensures var bytes := Payload(sign, weight, dscale, digits);
      && I16(bytes, 0) == |digits| && I16(bytes, 2) == weight && U16(bytes, 4) == sign && U16(bytes, 6) == dscale
      && StoredDigits(bytes, |digits|) == digits
  {
    hide I16Bytes, U16Bytes, DigitBytes, I16, U16;
    var bytes := Payload(sign, weight, dscale, digits);
    HeaderParts(I16Bytes(|digits|), I16Bytes(weight), U16Bytes(sign), U16Bytes(dscale), DigitBytes(digits));
    I16Reads(bytes, 0, |digits|);
    I16Reads(bytes, 2, weight);
    U16Reads(bytes, 4, sign);
    U16Reads(bytes, 6, dscale);
    forall i | 0 <= i < |digits| ensures StoredDigits(bytes, |digits|)[i] == digits[i] {
      DigitsRead(digits, bytes, 8, i);
    }
  }

  // ---- the figures ----

  lemma {:induction false} PowerIsPow10(n: nat)
    ensures Power(10, n) == Pow10(n)
  {
    if n > 0 { PowerIsPow10(n - 1); }
  }

  lemma FigureIsDigit(c: char)
    ensures Figure(c) <==> IsDigit(c)
    ensures FigureValue(c) == DigitOf(c)
  {
    if IsDigit(c) {
      assert FIGURES[c as int - '0' as int] == c;
    }
  }

  lemma {:induction false} ReadingIsValue(s: string)
    ensures Figures(s) <==> Digits(s)
    ensures Reading(s) == Value(s)
    decreases |s|
  {
    if s != "" {
      ReadingIsValue(s[..|s| - 1]);
      FigureIsDigit(s[|s| - 1]);
    }
    forall i | 0 <= i < |s| ensures Figure(s[i]) <==> IsDigit(s[i]) { FigureIsDigit(s[i]); }
  }

  lemma {:induction false} PrefixIsBase(digits: seq<nat>, k: nat)
    requires k <= |digits|
    ensures Prefix(digits, k) == BaseValue(digits[..k])
  {
    if k > 0 {
      PrefixIsBase(digits, k - 1);
      assert digits[..k][..k - 1] == digits[..k - 1];
    }
  }

  lemma FloorIsRounded(u: nat, digits: seq<nat>, weight: int, dscale: nat)
    requires FloorScaled(u, digits, weight, dscale)
    ensures RoundedDown(u, digits, weight, dscale)
  {
    var e := weight + 1 - |digits|;
    PrefixIsBase(digits, |digits|);
    assert digits[..|digits|] == digits;
    PowerIsPow10(dscale);
    hide Prefix, BaseValue, Power, Pow10;
    if e >= 0 {
      PowerIsPow10(dscale + 4 * e);
      assert Pow10(0) == 1 by { OneTimes(); }
    } else {
      PowerIsPow10(-4 * e);
      OneMore(u, Pow10(-4 * e));
    }
  }

  lemma OneTimes()
    ensures Pow10(0) == 1
  {
  }

  lemma OneMore(u: nat, p: nat)
    ensures u * p + p == (u + 1) * p
  {
  }

  lemma FiguresHaveNo(s: string, c: char)
    requires Figures(s) && !Figure(c)
    ensures c !in s
  {
  }

  lemma NoFigures()
    ensures !Figure('.') && !Figure('-')
  {
  }

  lemma SignedText(negative: bool, whole: string, tail: string)
    requires whole != "" && whole[0] != '-'
    ensures var text := (if negative then "-" else "") + (whole + tail);
      && text != "" && (text[0] == '-' <==> negative) && (if negative then text[1..] else text) == whole + tail
  {
  }

  lemma PointBetween(whole: string, frac: string)
    requires '.' !in whole
    ensures Until(whole, '.') == |whole|
    ensures var text := whole + ("." + frac);
      && Until(text, '.') == |whole| && text[..|whole|] == whole && text[|whole| + 1..] == frac
      && |text| == |whole| + 1 + |frac|
  {
    UntilAbsent(whole, '.');
    UntilFirst(whole, '.', "." + frac);
  }

  /** Sign, whole part and decimals come back from the text they are put together to. */
  lemma NumberTextReads(negative: bool, whole: string, frac: string)
    requires whole != "" && Figures(whole) && Figures(frac)
    ensures var text := (if negative then "-" else "") + (whole + (if frac == "" then "" else "." + frac));
      ReadNumber(text) == Some(Number(negative, whole, frac)) && (frac == "" ==> '.' !in text)
  {
    hide Figures, Until;
    NoFigures();
    FiguresHaveNo(whole, '.');
    FiguresHaveNo(whole, '-');
    SignedText(negative, whole, if frac == "" then "" else "." + frac);
    PointBetween(whole, frac);
    if frac == "" {
      assert whole + "" == whole && whole[..|whole|] == whole;
    }
  }

  /** The text stands for this number: its sign, exactly dscale decimals, and |value| rounded down to them. */
  ghost predicate PrintsNumber(text: string, negative: bool, digits: seq<nat>, weight: int, dscale: nat) {
    var r := ReadNumber(text);
    && r.Some? && r.value.negative == negative && |r.value.decimals| == dscale && (dscale == 0 ==> '.' !in text)
    && RoundedDown(Reading(r.value.whole) * Power(10, dscale) + Reading(r.value.decimals), digits, weight, dscale)
  }

  lemma ShownIsText(negative: bool, digits: seq<nat>, weight: int, dscale: nat)
    requires |FracPart(digits, weight, dscale)| == dscale
    ensures var frac := FracPart(digits, weight, dscale);
      Shown(negative, digits, weight, dscale)
        == (if negative then "-" else "") + (IntPart(digits, weight) + (if frac == "" then "" else "." + frac))
      && IntPart(digits, weight) != ""
  {
    hide FracPart;
    var whole, frac := IntPart(digits, weight), FracPart(digits, weight, dscale);
    assert whole != "";
    hide IntPart;
    var sign := if negative then "-" else "";
    assert whole + "" == whole;
    assert sign + whole + "." + frac == sign + (whole + ("." + frac));
  }

  lemma TextIsExact(negative: bool, digits: seq<nat>, weight: int, dscale: nat)
    requires Base10000(digits)
    ensures PrintsNumber(Shown(negative, digits, weight, dscale), negative, digits, weight, dscale)
  {
    hide IntPart, FracPart, Shown, RoundedDown, FloorScaled, Figures, Digits, Value, Reading, Pow10, Power, ReadNumber,
      Base10000;
    var whole, frac := IntPart(digits, weight), FracPart(digits, weight, dscale);
    PrintingIsExact(digits, weight, dscale);
    ShownIsText(negative, digits, weight, dscale);
    ReadingIsValue(whole);
    ReadingIsValue(frac);
    PowerIsPow10(dscale);
    NumberTextReads(negative, whole, frac);
    FloorIsRounded(Value(whole) * Pow10(dscale) + Value(frac), digits, weight, dscale);
  }

  /**
   * From the payload on, for every sign, weight, scale and stored digits: the text reads back to the
   * sign and to |value| times 10^dscale rounded down, with exactly dscale decimals and a point only
   * before them; the three special sign words are named, and every other one is refused.
   */
  lemma PayloadPrintsItsNumber(sign: nat, weight: int, dscale: nat, digits: seq<nat>)
    requires sign < 65536 && -32768 <= weight <= 32767 && dscale < 65536 && Storable(digits)
    ensures var text := Decoded(Payload(sign, weight, dscale, digits), |digits|);
      if sign == 0xC000 then text == Some("NaN")
      else if sign == 0xD000 then text == Some("Infinity")
      else if sign == 0xF000 then text == Some("-Infinity")
      else if sign == 0x0000 || sign == 0x4000 then
        text.Some? && PrintsNumber(text.value, sign == 0x4000, digits, weight, dscale)
      else text == None
  {
    hide Payload, Shown, PrintsNumber, U16, I16, StoredDigits;
    PayloadReads(sign, weight, dscale, digits);
    TextIsExact(sign == 0x4000, digits, weight, dscale);
  }

  /** The payload's own header gives the count DecodeNumericRaw reads its digits by. */
  lemma HeaderCounts(sign: nat, weight: int, dscale: nat, digits: seq<nat>)
    requires sign < 65536 && -32768 <= weight <= 32767 && dscale < 65536 && Storable(digits)
    ensures var bytes := Payload(sign, weight, dscale, digits);
      |bytes| >= 8 && I16(bytes, 0) == |digits| && |bytes| == 8 + 2 * I16(bytes, 0)
  {
    PayloadReads(sign, weight, dscale, digits);
  }
}
