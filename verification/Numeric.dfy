module Numeric {
  // decode_numeric_raw of decoder.rs: PostgreSQL's binary NUMERIC, printed with its declared scale.

  import opened Wrappers
  import opened Decimal

  const NEGATIVE: nat := 0x4000
  const NAN: nat := 0xC000
  const INFINITY: nat := 0xD000
  const MINUS_INFINITY: nat := 0xF000

  newtype byte = b: int | 0 <= b < 256

  function U16(bytes: seq<byte>, i: nat): (v: nat)
    requires i + 1 < |bytes|
    ensures v < 0x1_0000
  {
    256 * bytes[i] as int + bytes[i + 1] as int
  }

  function I16(bytes: seq<byte>, i: nat): int
    requires i + 1 < |bytes|
  {
    var v := U16(bytes, i);
    if v < 0x8000 then v else v - 0x1_0000
  }

  /** The stored base-10000 digit at an index; digits that are not stored are zero. */
  function Group(digits: seq<nat>, i: int): nat {
    if 0 <= i < |digits| then digits[i] else 0
  }

  predicate Base10000(digits: seq<nat>) {
    forall k :: 0 <= k < |digits| ==> digits[k] < 10000
  }

  /** The first k groups as the integer part prints them: the first bare, the others four wide. */
  function IntText(digits: seq<nat>, k: nat): (s: string)
    ensures k > 0 ==> s != ""
  {
    if k == 0 then ""
    else if k == 1 then Nat(Group(digits, 0))
    else IntText(digits, k - 1) + Padded(Group(digits, k - 1), 4)
  }

  function IntPart(digits: seq<nat>, weight: int): string {
    if weight >= 0 then IntText(digits, weight + 1) else "0"
  }

  /** The fraction grown group by group, the next group at index j, until it is long enough; then cut. */
  function FracFrom(digits: seq<nat>, frac: string, j: int, dscale: nat): string
    decreases if |frac| < dscale then dscale - |frac| else 0
  {
    if |frac| >= dscale then frac[..dscale]
    else FracFrom(digits, frac + Padded(Group(digits, j), 4), j + 1, dscale)
  }

  function FracPart(digits: seq<nat>, weight: int, dscale: nat): string {
    FracFrom(digits, "", weight + 1, dscale)
  }

  function SignText(negative: bool): string {
    if negative then "-" else ""
  }

  /** The text of a number with these stored digits. */
  function Shown(negative: bool, digits: seq<nat>, weight: int, dscale: nat): string {
    var whole := SignText(negative) + IntPart(digits, weight);
    if dscale == 0 then whole else whole + "." + FracPart(digits, weight, dscale)
  }

  function StoredDigits(bytes: seq<byte>, n: nat): (digits: seq<nat>)
    requires 8 + 2 * n <= |bytes|
    ensures |digits| == n
  {
    seq(n, i requires 0 <= i < n => U16(bytes, 8 + 2 * i))
  }

  /** A payload whose header counts n digits. */
  function Decoded(bytes: seq<byte>, n: nat): Option<string>
    requires 8 + 2 * n <= |bytes|
  {
    var sign := U16(bytes, 4);
    if sign == NAN then Some("NaN")
    else if sign == INFINITY then Some("Infinity")
    else if sign == MINUS_INFINITY then Some("-Infinity")
    else if sign != 0 && sign != NEGATIVE then None
    else Some(Shown(sign == NEGATIVE, StoredDigits(bytes, n), I16(bytes, 2), U16(bytes, 6)))
  }

  method IntegerPart(digits: seq<nat>, weight: int) returns (intPart: string)
    ensures intPart == IntPart(digits, weight)
  {
    intPart := "";
    if weight >= 0 {
      var gi := 0;
      while gi <= weight
        invariant 0 <= gi <= weight + 1 && intPart == IntText(digits, gi)
        decreases weight + 1 - gi
      {
        var d := Group(digits, gi);
        if intPart == "" {
          intPart := Nat(d);
        } else {
          intPart := intPart + Padded(d, 4);
        }
        gi := gi + 1;
      }
    }
    if intPart == "" {
      intPart := "0";
    }
  }

  lemma {:induction false} FracFromLength(digits: seq<nat>, frac: string, j: int, dscale: nat)
    ensures |FracFrom(digits, frac, j, dscale)| == dscale
    decreases if |frac| < dscale then dscale - |frac| else 0
  {
    if |frac| < dscale {
      FracFromLength(digits, frac + Padded(Group(digits, j), 4), j + 1, dscale);
    }
  }

  method FractionPart(digits: seq<nat>, weight: int, dscale: nat) returns (frac: string)
    ensures frac == FracPart(digits, weight, dscale)
  {
    frac := "";
    var gi := if weight + 1 > 0 then weight + 1 else 0;
    var leadingZeroGroups := if -(weight + 1) > 0 then -(weight + 1) else 0;
    assert Padded(0, 4) == "0000" by {
      assert Pow10(4) == 10000;
    }
    while |frac| < dscale
      invariant leadingZeroGroups >= 0 && (leadingZeroGroups > 0 ==> gi == 0)
      invariant FracPart(digits, weight, dscale) == FracFrom(digits, frac, gi - leadingZeroGroups, dscale)
      decreases dscale - |frac|
    {
      if leadingZeroGroups > 0 {
        frac := frac + "0000";
        leadingZeroGroups := leadingZeroGroups - 1;
      } else {
        frac := frac + Padded(Group(digits, gi), 4);
        gi := gi + 1;
      }
    }
    frac := frac[..dscale];
  }

  /** A negative digit count never comes from a server and is refused here. */
  method DecodeNumericRaw(bytes: seq<byte>) returns (r: Option<string>)
    ensures |bytes| < 8 ==> r == None
    ensures |bytes| >= 8 ==> var n := I16(bytes, 0);
      && (n < 0 || |bytes| < 8 + 2 * n ==> r == None)
      && (0 <= n && 8 + 2 * n <= |bytes| ==> r == Decoded(bytes, n))
  {
    if |bytes| < 8 {
      return None;
    }
    var ndigits := I16(bytes, 0);
    if ndigits < 0 || |bytes| < 8 + 2 * ndigits {
      return None;
    }
    var weight, sign, dscale := I16(bytes, 2), U16(bytes, 4), U16(bytes, 6);
    if sign == NAN { return Some("NaN"); }
    if sign == INFINITY { return Some("Infinity"); }
    if sign == MINUS_INFINITY { return Some("-Infinity"); }
    if sign != 0 && sign != NEGATIVE { return None; }
    var digits := StoredDigits(bytes, ndigits);
    var intPart := IntegerPart(digits, weight);
    var frac := "";
    if dscale > 0 {
      frac := FractionPart(digits, weight, dscale);
    }
    FracFromLength(digits, "", weight + 1, dscale);
    var signStr := if sign == NEGATIVE then "-" else "";
    r := Some(if frac == "" then signStr + intPart else signStr + intPart + "." + frac);
  }

  // ---- exactness ----

  /** The stored digits of the first k groups, as one number; groups before the first are zero. */
  function Prefix(digits: seq<nat>, k: int): nat
    decreases k
  {
    if k <= 0 then 0 else 10000 * Prefix(digits, k - 1) + Group(digits, k - 1)
  }

  lemma PaddedGroup(digits: seq<nat>, i: int)
    requires Base10000(digits)
    ensures var s := Padded(Group(digits, i), 4);
      |s| == 4 && Digits(s) && Value(s) == Group(digits, i)
  {
    Pow10Four(0);
    FixedReads(Group(digits, i), 4);
  }

  lemma {:induction false} IntTextReads(digits: seq<nat>, k: nat)
    requires Base10000(digits) && k > 0
    ensures Digits(IntText(digits, k)) && Value(IntText(digits, k)) == Prefix(digits, k)
    ensures Group(digits, 0) > 0 ==> IntText(digits, k)[0] != '0'
    decreases k
  {
    if k == 1 {
      NatReads(Group(digits, 0));
      assert Prefix(digits, 0) == 0;
    } else {
      IntTextReads(digits, k - 1);
      PaddedGroup(digits, k - 1);
      Pow10Four(0);
      ValueConcat(IntText(digits, k - 1), Padded(Group(digits, k - 1), 4));
    }
  }

  lemma IntPartReads(digits: seq<nat>, weight: int)
    requires Base10000(digits)
    ensures Digits(IntPart(digits, weight)) && Value(IntPart(digits, weight)) == Prefix(digits, weight + 1)
  {
    if weight >= 0 {
      hide IntText, Prefix, Value;
      IntTextReads(digits, weight + 1);
    } else {
      assert "0"[..0] == "";
    }
  }

  /** u counts the digits of the first k groups in units of the last place shown, rounding down. */
  ghost predicate Units(u: nat, digits: seq<nat>, weight: int, dscale: nat, k: int) {
    dscale <= 4 * (k - weight - 1) && Floor(u, Prefix(digits, k), Pow10(4 * (k - weight - 1) - dscale))
  }

  /** Looking at more groups than are shown does not change the units. */
  lemma UnitsStep(u: nat, digits: seq<nat>, weight: int, dscale: nat, k: int)
    requires Base10000(digits) && Units(u, digits, weight, dscale, k)
    ensures Units(u, digits, weight, dscale, k + 1)
  {
    var n := 4 * (k - weight - 1) - dscale;
    Pow10Four(n);
    if k >= 0 {
      assert Floor(Prefix(digits, k), Prefix(digits, k + 1), 10000);
    } else {
      assert Prefix(digits, k + 1) == 0;
    }
    FloorChain(u, Prefix(digits, k), Prefix(digits, k + 1), 10000, Pow10(n));
    assert 4 * (k + 1 - weight - 1) - dscale == 4 + n;
  }

  lemma {:induction false} UnitsStable(u: nat, digits: seq<nat>, weight: int, dscale: nat, k: int, more: nat)
    requires Base10000(digits) && Units(u, digits, weight, dscale, k)
    ensures Units(u, digits, weight, dscale, k + more)
    decreases more
  {
    if more > 0 {
      UnitsStable(u, digits, weight, dscale, k, more - 1);
      UnitsStep(u, digits, weight, dscale, k + more - 1);
    }
  }

  /** Integer part and m groups of fraction together are a prefix of the digits. */
  ghost predicate Grown(digits: seq<nat>, weight: int, frac: string, m: nat) {
    && |frac| == 4 * m && Digits(frac)
    && Prefix(digits, weight + 1) * Pow10(4 * m) + Value(frac) == Prefix(digits, weight + 1 + m)
  }

  lemma GrownNext(digits: seq<nat>, weight: int, frac: string, m: nat)
    requires Base10000(digits) && Grown(digits, weight, frac, m)
    ensures Grown(digits, weight, frac + Padded(Group(digits, weight + 1 + m), 4), m + 1)
  {
    var d := Group(digits, weight + 1 + m);
    Pow10Four(4 * m);
    PaddedGroup(digits, weight + 1 + m);
    ValueConcat(frac, Padded(d, 4));
    Pow10Four(0);
    var whole, p := Prefix(digits, weight + 1), Pow10(4 * m);
    assert 4 * (m + 1) == 4 + 4 * m;
    GrownMul(whole, p, Value(frac), d, Prefix(digits, weight + 1 + m));
    if weight + 1 + m < 0 {
      assert Prefix(digits, weight + 1 + (m + 1)) == 0;
    }
  }

  lemma GrownMul(whole: nat, p: nat, v: nat, d: nat, prefix: nat)
    requires whole * p + v == prefix
    ensures whole * (10000 * p) + (v * 10000 + d) == 10000 * prefix + d
  {
  }

  lemma CutMul(whole: nat, p: nat, v: nat, x: nat)
    ensures whole * (p * x) + v * x == (whole * p + v) * x
  {
  }

  /** Cutting the surplus digits rounds down. */
  lemma FracCut(whole: nat, frac: string, dscale: nat)
    requires dscale <= |frac|
    ensures Floor(whole * Pow10(dscale) + Value(frac[..dscale]), whole * Pow10(|frac|) + Value(frac), Pow10(|frac| - dscale))
  {
    var rest := |frac| - dscale;
    assert frac == frac[..dscale] + frac[dscale..];
    ValueConcat(frac[..dscale], frac[dscale..]);
    ValueBound(frac[dscale..]);
    Pow10Add(dscale, rest);
    CutMul(whole, Pow10(dscale), Value(frac[..dscale]), Pow10(rest));
  }

  ghost predicate ShownRight(digits: seq<nat>, weight: int, shown: string, dscale: nat, k: int) {
    && |shown| == dscale && Digits(shown)
    && Units(Prefix(digits, weight + 1) * Pow10(dscale) + Value(shown), digits, weight, dscale, k)
  }

  lemma {:induction false} FracFromReads(digits: seq<nat>, weight: int, frac: string, m: nat, dscale: nat)
    returns (k: int)
    requires Base10000(digits) && Grown(digits, weight, frac, m)
    ensures ShownRight(digits, weight, FracFrom(digits, frac, weight + 1 + m, dscale), dscale, k)
    decreases if |frac| < dscale then dscale - |frac| else 0
  {
    if |frac| >= dscale {
      k := weight + 1 + m;
      FracCut(Prefix(digits, weight + 1), frac, dscale);
    } else {
      GrownNext(digits, weight, frac, m);
      k := FracFromReads(digits, weight, frac + Padded(Group(digits, weight + 1 + m), 4), m + 1, dscale);
    }
  }

  // ---- the number itself ----

  /** Every stored digit, as one number: the value is this times 10000 to the power weight + 1 - n. */
  function Mantissa(digits: seq<nat>): nat {
    Prefix(digits, |digits|)
  }

  lemma PastEndMul(m: nat, p: nat)
    ensures 10000 * (m * p) == m * (10000 * p)
  {
  }

  lemma {:induction false} PrefixPastEnd(digits: seq<nat>, k: nat)
    ensures Prefix(digits, |digits| + k) == Mantissa(digits) * Pow10(4 * k)
    decreases k
  {
    if k > 0 {
      PrefixPastEnd(digits, k - 1);
      Pow10Four(4 * (k - 1));
      PastEndMul(Mantissa(digits), Pow10(4 * (k - 1)));
      assert 4 + 4 * (k - 1) == 4 * k;
      assert |digits| + k - 1 == |digits| + (k - 1);
    } else {
      assert Pow10(0) == 1;
    }
  }

  /** u is |value| times 10 to the dscale, rounded down. */
  ghost predicate FloorScaled(u: nat, digits: seq<nat>, weight: int, dscale: nat) {
    var e := weight + 1 - |digits|;
    if e >= 0 then Scaled(u, Mantissa(digits), dscale + 4 * e, 0) else Scaled(u, Mantissa(digits), dscale, -4 * e)
  }

  /** With every stored digit in view, the units are the floor of the scaled value. */
  lemma UnitsAreFloor(u: nat, digits: seq<nat>, weight: int, dscale: nat, k: int)
    requires |digits| <= k && Units(u, digits, weight, dscale, k)
    ensures FloorScaled(u, digits, weight, dscale)
  {
    var n := |digits|;
    PrefixPastEnd(digits, k - n);
    var e, cut := weight + 1 - n, 4 * (k - weight - 1) - dscale;
    assert Scaled(u, Mantissa(digits), 4 * (k - n), cut);
    if e >= 0 {
      ScaledShift(u, Mantissa(digits), 4 * (k - n), cut, dscale + 4 * e, 0);
    } else {
      ScaledShift(u, Mantissa(digits), 4 * (k - n), cut, dscale, -4 * e);
    }
  }

  lemma UnitsAreExact(u: nat, digits: seq<nat>, weight: int, dscale: nat, k: int)
    requires Base10000(digits) && Units(u, digits, weight, dscale, k)
    ensures FloorScaled(u, digits, weight, dscale)
  {
    var more := if k < |digits| then |digits| - k else 0;
    UnitsStable(u, digits, weight, dscale, k, more);
    UnitsAreFloor(u, digits, weight, dscale, k + more);
  }

  lemma GrownAtFirst(digits: seq<nat>, weight: int)
    ensures Grown(digits, weight, "", 0)
  {
    assert Pow10(0) == 1;
  }

  /**
   * The printed number is exact: read as units of the last decimal place shown, integer part and
   * fraction together are |value| times 10^dscale rounded down, for any weight and any dscale.
   */
  lemma PrintingIsExact(digits: seq<nat>, weight: int, dscale: nat)
    requires Base10000(digits)
    ensures var whole, frac := IntPart(digits, weight), FracPart(digits, weight, dscale);
      && Digits(whole) && Digits(frac) && |frac| == dscale
      && FloorScaled(Value(whole) * Pow10(dscale) + Value(frac), digits, weight, dscale)
  {
    hide Pow10, Value, FloorScaled, Prefix, Units, Base10000;
    IntPartReads(digits, weight);
    GrownAtFirst(digits, weight);
    var k := FracFromReads(digits, weight, "", 0, dscale);
    UnitsAreExact(Prefix(digits, weight + 1) * Pow10(dscale) + Value(FracPart(digits, weight, dscale)), digits, weight, dscale, k);
  }

  /** A number stored without leading zero digits is printed without them. */
  lemma NoLeadingZero(digits: seq<nat>, weight: int)
    requires Base10000(digits) && digits != [] && digits[0] != 0
    ensures IntPart(digits, weight) == "0" || IntPart(digits, weight)[0] != '0'
  {
    if weight >= 0 {
      IntTextReads(digits, weight + 1);
    }
  }
}
