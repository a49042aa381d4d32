module Calendar {
  // The proleptic Gregorian calendar: stepping from 2000-01-01, counting days, and the 400-year
  // cycle.

  datatype Ymd = Ymd(year: int, month: nat, day: nat)

  const CYCLE: nat := 146_097

  predicate Leap(y: int) {
    y % 4 == 0 && (y % 100 != 0 || y % 400 == 0)
  }

  function MonthLength(y: int, m: nat): nat {
    if m == 2 then (if Leap(y) then 29 else 28) else if m == 4 || m == 6 || m == 9 || m == 11 then 30 else 31
  }

  predicate ValidDate(d: Ymd) {
    1 <= d.month <= 12 && 1 <= d.day <= MonthLength(d.year, d.month)
  }

  function NextDay(d: Ymd): Ymd {
    if d.day < MonthLength(d.year, d.month) then d.(day := d.day + 1)
    else if d.month < 12 then Ymd(d.year, d.month + 1, 1)
    else Ymd(d.year + 1, 1, 1)
  }

  /** The date n days after 2000-01-01, as chrono steps to it. */
  function After2000(n: nat): (d: Ymd)
    ensures ValidDate(d) && d.year >= 2000
  {
    if n == 0 then Ymd(2000, 1, 1) else NextDay(After2000(n - 1))
  }

  function LeapYearsUpTo(y: int): int {
    y / 4 - y / 100 + y / 400
  }

  function DaysBeforeMonth(y: int, m: nat): nat {
    if m <= 1 then 0 else DaysBeforeMonth(y, m - 1) + MonthLength(y, m - 1)
  }

  /** Days from 2000-01-01, by counting leap years; the reader's rule, for any year. */
  function DayNumber(d: Ymd): int {
    365 * (d.year - 2000) + LeapYearsUpTo(d.year - 1) - LeapYearsUpTo(1999) + DaysBeforeMonth(d.year, d.month) + d.day - 1
  }

  lemma Step4(y: int)
    ensures y / 4 - (y - 1) / 4 == if y % 4 == 0 then 1 else 0
  {
  }

  lemma Step100(y: int)
    ensures y / 100 - (y - 1) / 100 == if y % 100 == 0 then 1 else 0
  {
  }

  lemma Step400(y: int)
    ensures y / 400 - (y - 1) / 400 == if y % 400 == 0 then 1 else 0
  {
  }

  lemma Hundreds(y: int)
    ensures y % 100 == 0 ==> y % 4 == 0
    ensures y % 400 == 0 ==> y % 100 == 0
  {
    assert y % 100 == 0 ==> y == 4 * (25 * (y / 100));
    assert y % 400 == 0 ==> y == 100 * (4 * (y / 400));
  }

  lemma LeapStep(y: int)
    ensures LeapYearsUpTo(y) - LeapYearsUpTo(y - 1) == if Leap(y) then 1 else 0
  {
    Step4(y);
    Step100(y);
    Step400(y);
    Hundreds(y);
  }

  lemma YearLength(y: int)
    ensures DaysBeforeMonth(y, 12) + 31 == if Leap(y) then 366 else 365
  {
    var leap := if Leap(y) then 1 else 0;
    assert DaysBeforeMonth(y, 2) == 31;
    assert DaysBeforeMonth(y, 3) == 59 + leap;
    assert DaysBeforeMonth(y, 4) == 90 + leap;
    assert DaysBeforeMonth(y, 5) == 120 + leap;
    assert DaysBeforeMonth(y, 6) == 151 + leap;
    assert DaysBeforeMonth(y, 7) == 181 + leap;
    assert DaysBeforeMonth(y, 8) == 212 + leap;
    assert DaysBeforeMonth(y, 9) == 243 + leap;
    assert DaysBeforeMonth(y, 10) == 273 + leap;
    assert DaysBeforeMonth(y, 11) == 304 + leap;
  }

  lemma NextDayNumber(d: Ymd)
    requires ValidDate(d)
    ensures DayNumber(NextDay(d)) == DayNumber(d) + 1 && ValidDate(NextDay(d))
  {
    if d.day == MonthLength(d.year, d.month) && d.month == 12 {
      YearLength(d.year);
      LeapStep(d.year);
      assert DaysBeforeMonth(d.year + 1, 1) == 0;
    }
  }

  /** Stepping day by day and counting agree. */
  lemma {:induction false} SteppingIsCounting(n: nat)
    ensures DayNumber(After2000(n)) == n
    decreases n
  {
    if n > 0 {
      SteppingIsCounting(n - 1);
      NextDayNumber(After2000(n - 1));
    }
  }

  /** The calendar repeats every 400 years, which are 146097 days. */
  lemma CycleShift(d: Ymd, cycles: int)
    ensures DayNumber(d.(year := d.year + 400 * cycles)) == DayNumber(d) + CYCLE * cycles
  {
    var y := d.year + 400 * cycles;
    CycleLeap(d.year, cycles);
    SameMonths(d.year, y, d.month);
    CycleLeap(d.year - 1, cycles);
    assert y - 1 == d.year - 1 + 400 * cycles;
  }

  lemma Shift4(y: int, j: int)
    ensures (y + 4 * j) / 4 == y / 4 + j && (y + 4 * j) % 4 == y % 4
  {
  }

  lemma Shift100(y: int, j: int)
    ensures (y + 100 * j) / 100 == y / 100 + j && (y + 100 * j) % 100 == y % 100
  {
  }

  lemma Shift400(y: int, j: int)
    ensures (y + 400 * j) / 400 == y / 400 + j && (y + 400 * j) % 400 == y % 400
  {
  }

  lemma CycleLeap(y: int, cycles: int)
    ensures Leap(y + 400 * cycles) == Leap(y)
    ensures LeapYearsUpTo(y + 400 * cycles) == LeapYearsUpTo(y) + 97 * cycles
  {
    Shift4(y, 100 * cycles);
    Shift100(y, 4 * cycles);
    Shift400(y, cycles);
  }

  lemma {:induction false} SameMonths(y: int, y': int, m: nat)
    requires Leap(y) == Leap(y')
    ensures DaysBeforeMonth(y, m) == DaysBeforeMonth(y', m)
    decreases m
  {
    if m > 1 {
      SameMonths(y, y', m - 1);
    }
  }

  /** The date a day count stands for: a day of one 400-year cycle, with the year put back. */
  function DateOf(days: int): Ymd {
    var d := After2000(days % CYCLE);
    d.(year := d.year + days / CYCLE * 400)
  }

  /** Mapping into one cycle and restoring the year loses nothing. */
  lemma DateOfCounts(days: int)
    ensures DayNumber(DateOf(days)) == days && 1 <= DateOf(days).month <= 12 && 1 <= DateOf(days).day <= 31
  {
    hide DayNumber, After2000;
    SteppingIsCounting(days % CYCLE);
    CycleShift(After2000(days % CYCLE), days / CYCLE);
  }
}
