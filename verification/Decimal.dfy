/** Decimal text: what a run of digits is worth, rounding down by powers of ten, and how numbers are printed. */
module Decimal {
  import opened Wrappers

  function Pow10(n: nat): (p: nat)
    ensures p > 0
  {
    if n == 0 then 1 else 10 * Pow10(n - 1)
  }

  lemma MulAssoc(a: nat, b: nat, c: nat)
    ensures a * (b * c) == (a * b) * c
  {
  }

  lemma {:induction false} Pow10Add(a: nat, b: nat)
    ensures Pow10(a + b) == Pow10(a) * Pow10(b)
    decreases a
  {
    if a > 0 {
      Pow10Add(a - 1, b);
      MulAssoc(10, Pow10(a - 1), Pow10(b));
    }
  }

  lemma Pow10Four(n: nat)
    ensures Pow10(4) == 10000 && Pow10(4 + n) == 10000 * Pow10(n)
  {
    assert Pow10(4) == 10000;
    Pow10Add(4, n);
  }

  /** q is a / b rounded down. */
  predicate Floor(q: nat, a: nat, b: nat) {
    q * b <= a < q * b + b
  }

  lemma MulMono(a: nat, b: nat, x: nat)
    requires a <= b
    ensures a * x <= b * x
  {
  }

  /** Rounding down twice is rounding down once. */
  lemma FloorChain(q: nat, a1: nat, a: nat, x: nat, y: nat)
    requires Floor(a1, a, x) && Floor(q, a1, y)
    ensures Floor(q, a, y * x)
  {
    MulMono(q * y, a1, x);
    MulMono(a1 + 1, q * y + y, x);
    MulAssoc(q, y, x);
    assert (a1 + 1) * x == a1 * x + x;
    assert (q * y + y) * x == (q * y) * x + y * x;
  }

  lemma FloorScale(q: nat, a: nat, b: nat, x: nat)
    requires x > 0
    ensures Floor(q, a, b) <==> Floor(q, a * x, b * x)
  {
    MulAssoc(q, b, x);
    assert (q * b + b) * x == (q * b) * x + b * x;
    if q * b <= a {
      MulMono(q * b, a, x);
    } else {
      MulMono(a + 1, q * b, x);
      assert (a + 1) * x == a * x + x;
    }
    if a < q * b + b {
      MulMono(a + 1, q * b + b, x);
      assert (a + 1) * x == a * x + x;
    } else {
      MulMono(q * b + b, a, x);
    }
  }

  lemma FloorScaleMul(q: nat, m: nat, a: nat, b: nat, x: nat)
    requires x > 0
    ensures Floor(q, m * a, b) <==> Floor(q, m * (a * x), b * x)
  {
    MulAssoc(m, a, x);
    FloorScale(q, m * a, b, x);
  }

  /** q is m times 10^a over 10^c, rounded down. */
  predicate Scaled(q: nat, m: nat, a: nat, c: nat) {
    Floor(q, m * Pow10(a), Pow10(c))
  }

  lemma ScaledBy(q: nat, m: nat, a: nat, c: nat, x: nat, a': nat, c': nat)
    requires a' == a + x && c' == c + x
    ensures Scaled(q, m, a, c) <==> Scaled(q, m, a', c')
  {
    Pow10Add(a, x);
    Pow10Add(c, x);
    FloorScaleMul(q, m, Pow10(a), Pow10(c), Pow10(x));
  }

  /** Only the difference of the two powers of ten matters. */
  lemma ScaledShift(q: nat, m: nat, a: nat, c: nat, a': nat, c': nat)
    requires a + c' == a' + c && Scaled(q, m, a, c)
    ensures Scaled(q, m, a', c')
  {
    if a' >= a {
      ScaledBy(q, m, a, c, a' - a, a', c');
    } else {
      ScaledBy(q, m, a', c', a - a', a, c);
    }
  }

  predicate IsDigit(c: char) {
    '0' <= c <= '9'
  }

  function DigitOf(c: char): (d: nat) {
    if IsDigit(c) then c as int - '0' as int else 0
  }

  function DigitChar(d: nat): char
    requires d < 10
  {
    (d + '0' as int) as char
  }

  predicate Digits(s: string) {
    forall k :: 0 <= k < |s| ==> IsDigit(s[k])
  }

  /** The number a run of digits stands for. */
  function Value(s: string): nat {
    if s == "" then 0 else 10 * Value(s[..|s| - 1]) + DigitOf(s[|s| - 1])
  }

  lemma TenTimes(v: nat, p: nat, r: nat)
    ensures 10 * (v * p + r) == v * (10 * p) + 10 * r
  {
  }

  lemma {:induction false} ValueConcat(a: string, b: string)
    ensures Value(a + b) == Value(a) * Pow10(|b|) + Value(b)
    decreases |b|
  {
    if b == "" {
      assert a + b == a;
    } else {
      var front := b[..|b| - 1];
      assert (a + b)[..|a + b| - 1] == a + front;
      ValueConcat(a, front);
      TenTimes(Value(a), Pow10(|front|), Value(front));
    }
  }

  lemma {:induction false} ValueBound(s: string)
    ensures Value(s) < Pow10(|s|)
    decreases |s|
  {
    if s != "" {
      ValueBound(s[..|s| - 1]);
    }
  }

  /** Rust's {} of an unsigned number. */
  function Nat(n: nat): (s: string)
    ensures s != ""
  {
    if n < 10 then [DigitChar(n)] else Nat(n / 10) + [DigitChar(n % 10)]
  }

  lemma {:induction false} NatReads(n: nat)
    ensures Value(Nat(n)) == n && Digits(Nat(n)) && (n > 0 ==> Nat(n)[0] != '0')
    decreases n
  {
    if n < 10 {
      assert Nat(n)[..0] == "";
    } else {
      NatReads(n / 10);
      var s := Nat(n);
      assert s[..|s| - 1] == Nat(n / 10);
    }
  }

  /** The last `width` digits of n, zeros in front. */
  function Fixed(n: nat, width: nat): (s: string)
    ensures |s| == width
  {
    if width == 0 then "" else Fixed(n / 10, width - 1) + [DigitChar(n % 10)]
  }

  lemma {:induction false} FixedReads(n: nat, width: nat)
    requires n < Pow10(width)
    ensures Value(Fixed(n, width)) == n && Digits(Fixed(n, width))
    decreases width
  {
    if width > 0 {
      FixedReads(n / 10, width - 1);
      var s := Fixed(n, width);
      assert s[..|s| - 1] == Fixed(n / 10, width - 1);
    }
  }

  /** Rust's {:0width}: at least `width` digits, more when they are needed. */
  function Padded(n: nat, width: nat): (s: string)
    ensures s != ""
  {
    if n < Pow10(width) && width > 0 then Fixed(n, width) else Nat(n)
  }

  lemma PaddedReads(n: nat, width: nat)
    ensures Value(Padded(n, width)) == n && Digits(Padded(n, width))
  {
    if n < Pow10(width) && width > 0 {
      FixedReads(n, width);
    } else {
      NatReads(n);
    }
  }

  lemma {:induction false} Pow10Grows(a: nat, b: nat)
    requires Pow10(a) < Pow10(b)
    ensures a < b
    decreases a + b
  {
    if a > 0 && b > 0 { Pow10Grows(a - 1, b - 1); }
  }

  /** Padding stops at the width: a longer number starts with no zero. */
  lemma PaddedWording(n: nat, width: nat)
    requires width > 0
    ensures |Padded(n, width)| >= width && (|Padded(n, width)| > width ==> Padded(n, width)[0] != '0')
  {
    if n >= Pow10(width) {
      NatReads(n);
      ValueBound(Nat(n));
      Pow10Grows(width, |Nat(n)|);
    }
  }

  // ---- signed numbers and simple searches ----

  /** Where c first stands, or the end. */
  function Until(s: string, c: char): (n: nat)
    ensures n <= |s|
  {
    if s == "" || s[0] == c then 0 else 1 + Until(s[1..], c)
  }

  lemma {:induction false} UntilFirst(a: string, c: char, rest: string)
    requires c !in a && rest != "" && rest[0] == c
    ensures Until(a + rest, c) == |a|
    decreases |a|
  {
    if a == "" {
      assert a + rest == rest;
    } else {
      assert (a + rest)[1..] == a[1..] + rest;
      UntilFirst(a[1..], c, rest);
    }
  }

  lemma {:induction false} UntilAbsent(s: string, c: char)
    requires c !in s
    ensures Until(s, c) == |s|
    decreases |s|
  {
    if s != "" {
      UntilAbsent(s[1..], c);
    }
  }

  function Abs(a: int): nat {
    if a < 0 then -a else a
  }

  function Signed(n: int): (s: string)
    ensures s != ""
  {
    if n < 0 then "-" + Nat(-n) else Nat(n)
  }

  /** An optional minus and at least one digit. */
  function ReadInt(s: string): Option<int> {
    var negative := s != "" && s[0] == '-';
    var digits := if negative then s[1..] else s;
    var n: int := Value(digits);
    if digits == "" || !Digits(digits) then None else Some(if negative then -n else n)
  }

  lemma DigitsHaveNo(s: string, c: char)
    requires Digits(s) && !IsDigit(c)
    ensures c !in s
  {
  }

  lemma SignedReads(n: int)
    ensures ReadInt(Signed(n)) == Some(n) && ' ' !in Signed(n)
  {
    NatReads(Abs(n));
    var s := Signed(n);
    DigitsHaveNo(Nat(Abs(n)), ' ');
    if n < 0 {
      assert s[1..] == Nat(-n);
    }
  }
}
