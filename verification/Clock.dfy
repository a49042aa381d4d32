/** Clock text, HH:MM:SS with an optional fraction of up to six decimals, and a reader for such text. */
module Clock {
  import opened Wrappers
  import opened Decimal

  const SECOND: nat := 1_000_000
  const MINUTE: nat := 60_000_000
  const HOUR: nat := 3_600_000_000
  const DAY: nat := 86_400_000_000

  function ClockText(h: nat, m: nat, s: nat, fraction: string): string {
    Padded(h, 2) + (":" + Fixed(m, 2) + ":" + Fixed(s, 2) + (if fraction == "" then "" else "." + fraction))
  }

  function Microseconds(h: nat, m: nat, s: nat, fraction: string): nat
    requires |fraction| <= 6
  {
    h * HOUR + m * MINUTE + s * SECOND + Value(fraction) * Pow10(6 - |fraction|)
  }

  /** Reads hours of any length, two-digit minutes and seconds, and up to six decimals. */
  function ReadClock(t: string): Option<nat> {
    var k := Until(t, ':');
    if k == 0 || |t| < k + 6 then None
    else
      var h, m, s, rest := t[..k], t[k + 1..k + 3], t[k + 4..k + 6], t[k + 6..];
      if !Digits(h + m + s) || t[k + 3] != ':' then None
      else if rest == "" then Some(Microseconds(Value(h), Value(m), Value(s), ""))
      else if rest[0] != '.' || |rest| > 7 || !Digits(rest[1..]) then None
      else Some(Microseconds(Value(h), Value(m), Value(s), rest[1..]))
  }

  /** Where the pieces of head + a + mm + b + ss + tail stand. */
  lemma Pieces(head: string, a: char, m: string, b: char, s: string, tail: string)
    requires |m| == 2 && |s| == 2
    ensures var t, k := head + ([a] + m + [b] + s + tail), |head|;
      && |t| == k + 6 + |tail| && t[..k] == head && t[k] == a && t[k + 3] == b
      && t[k + 1..k + 3] == m && t[k + 4..k + 6] == s && t[k + 6..] == tail
  {
    var after := [a] + m + [b] + s + tail;
    var t, k := head + after, |head|;
    assert forall j :: 0 <= j < |after| ==> t[k + j] == after[j];
    assert after[1] == m[0] && after[2] == m[1] && after[4] == s[0] && after[5] == s[1];
    assert t[k..] == after && after[6..] == tail && t[k + 6..] == t[k..][6..];
  }

  lemma DigitsTogether(a: string, b: string, c: string)
    requires Digits(a) && Digits(b) && Digits(c)
    ensures Digits(a + b + c)
  {
  }

  lemma ClockReads(h: nat, m: nat, s: nat, fraction: string)
    requires m < 100 && s < 100 && |fraction| <= 6 && Digits(fraction)
    ensures ReadClock(ClockText(h, m, s, fraction)) == Some(Microseconds(h, m, s, fraction))
  {
    assert Pow10(2) == 100;
    PaddedReads(h, 2);
    FixedReads(m, 2);
    FixedReads(s, 2);
    hide Padded, Fixed, Value, Digits, Until, Pow10;
    var hh, tail := Padded(h, 2), if fraction == "" then "" else "." + fraction;
    DigitsTogether(hh, Fixed(m, 2), Fixed(s, 2));
    Pieces(hh, ':', Fixed(m, 2), ':', Fixed(s, 2), tail);
    DigitsHaveNo(hh, ':');
    UntilFirst(hh, ':', ":" + Fixed(m, 2) + ":" + Fixed(s, 2) + tail);
    assert fraction != "" ==> tail[1..] == fraction;
  }

  /** How a clock is written: two digits of hours, or more without a zero in front, and the fraction at its length. */
  lemma ClockWording(h: nat, m: nat, s: nat, fraction: string)
    ensures var t := ClockText(h, m, s, fraction);
      var k := Until(t, ':');
      && k >= 2 && (k > 2 ==> t[0] != '0') && (h < 100 ==> k == 2)
      && |t| == k + 6 + (if fraction == "" then 0 else 1 + |fraction|)
  {
    assert Pow10(2) == 100;
    PaddedReads(h, 2);
    PaddedWording(h, 2);
    assert h < 100 ==> |Padded(h, 2)| == 2;
    hide Padded, Fixed, Value, Digits, Until, Pow10;
    var hh, rest := Padded(h, 2), ":" + Fixed(m, 2) + ":" + Fixed(s, 2) + (if fraction == "" then "" else "." + fraction);
    DigitsHaveNo(hh, ':');
    UntilFirst(hh, ':', rest);
  }

  /** Hours, minutes, seconds and the rest add up to the count they were taken from. */
  lemma SplitCount(us: nat)
    ensures us == us / HOUR * HOUR + us / MINUTE % 60 * MINUTE + us / SECOND % 60 * SECOND + us % SECOND
  {
    assert us / MINUTE == us / SECOND / 60;
    assert us / HOUR == us / MINUTE / 60;
  }

  // ---- fractions ----

  function TrimZeros(s: string): (r: string)
    ensures |r| <= |s|
  {
    if s == "" || s[|s| - 1] != '0' then s else TrimZeros(s[..|s| - 1])
  }

  lemma {:induction false} TrimZerosKeepsValue(s: string)
    requires Digits(s)
    ensures Digits(TrimZeros(s)) && Value(TrimZeros(s)) * Pow10(|s| - |TrimZeros(s)|) == Value(s)
    decreases |s|
  {
    if s == "" || s[|s| - 1] != '0' {
      assert Pow10(0) == 1;
    } else {
      var front := s[..|s| - 1];
      TrimZerosKeepsValue(front);
      var n := |front| - |TrimZeros(front)|;
      TenTimes(Value(TrimZeros(front)), Pow10(n), 0);
    }
  }
}
