/**
 * The calendar arithmetic the year engine relies on: the Gregorian leap-year
 * rule, month lengths, the day overflow of the JavaScript `Date` constructor,
 * day-of-year ordinals, and millisecond timestamps.
 *
 * Time model: an instant is a local civil date plus the milliseconds elapsed
 * since that date's midnight. Every day is taken to last exactly 24 hours and
 * the local offset from UTC to be fixed (no daylight-saving transitions), so
 * a timestamp is the number of whole days since 1970-01-01 times the length
 * of a day, plus the time of day. Differences and comparisons of these
 * timestamps are those of `Date.prototype.getTime()` under that assumption.
 */
module Calendar {

  /** Milliseconds in one day: 1000 * 60 * 60 * 24. */
  const MsPerDay: int := 86_400_000

  /**
   * The Gregorian rule of `isLeapYear`. JavaScript's `%` truncates toward
   * zero and Dafny's is Euclidean, but both give 0 exactly on multiples, so
   * the rule agrees for negative years too.
   */
  predicate IsLeapYear(y: int) {
    (y % 4 == 0 && y % 100 != 0) || y % 400 == 0
  }

  function DaysInYear(y: int): (n: int)
    ensures n == 365 || n == 366
  {
    if IsLeapYear(y) then 366 else 365
  }

  /** Month lengths, January = 1. */
  function DaysInMonth(y: int, m: int): (n: int)
    requires 1 <= m <= 12
    ensures 28 <= n <= 31
    ensures m == 2 ==> (n == 29 <==> IsLeapYear(y))
  {
    [31, if IsLeapYear(y) then 29 else 28, 31, 30, 31, 30, 31, 31, 30, 31, 30, 31][m - 1]
  }

  datatype CivilDate = CivilDate(year: int, month: int, day: int) {
    predicate Valid() {
      1 <= month <= 12 && 1 <= day <= DaysInMonth(year, month)
    }
  }

  datatype Instant = Instant(date: CivilDate, millis: int) {
    predicate Valid() {
      date.Valid() && 0 <= millis < MsPerDay
    }
  }

  /** `new Date(y, m - 1, d)`: the instant at the start of a date. */
  function Midnight(d: CivilDate): Instant {
    Instant(d, 0)
  }

  /** Days of year `y` before the first of month `m` (m = 13 gives the whole year). */
  function DaysBeforeMonth(y: int, m: int): (n: int)
    requires 1 <= m <= 13
    ensures 28 * (m - 1) <= n <= 31 * (m - 1)
  {
    if m == 1 then 0 else DaysBeforeMonth(y, m - 1) + DaysInMonth(y, m - 1)
  }

  lemma DaysBeforeMonthTotal(y: int)
    ensures DaysBeforeMonth(y, 13) == DaysInYear(y)
  {
    var feb := if IsLeapYear(y) then 29 else 28;
    assert DaysBeforeMonth(y, 2) == 31;
    assert DaysBeforeMonth(y, 3) == 31 + feb;
    assert DaysBeforeMonth(y, 4) == 62 + feb;
    assert DaysBeforeMonth(y, 5) == 92 + feb;
    assert DaysBeforeMonth(y, 6) == 123 + feb;
    assert DaysBeforeMonth(y, 7) == 153 + feb;
    assert DaysBeforeMonth(y, 8) == 184 + feb;
    assert DaysBeforeMonth(y, 9) == 215 + feb;
    assert DaysBeforeMonth(y, 10) == 245 + feb;
    assert DaysBeforeMonth(y, 11) == 276 + feb;
    assert DaysBeforeMonth(y, 12) == 306 + feb;
  }

  lemma {:induction false} DaysBeforeMonthMonotone(y: int, m1: int, m2: int)
    requires 1 <= m1 <= m2 <= 13
    ensures DaysBeforeMonth(y, m1) + 28 * (m2 - m1) <= DaysBeforeMonth(y, m2)
    decreases m2 - m1
  {
    if m1 < m2 {
      DaysBeforeMonthMonotone(y, m1, m2 - 1);
    }
  }

  /** The 1-based day-of-year ordinal of a date. */
  function Ordinal(d: CivilDate): (n: int)
    requires d.Valid()
    ensures 1 <= n <= DaysInYear(d.year)
  {
    DaysBeforeMonthMonotone(d.year, d.month + 1, 13);
    DaysBeforeMonthTotal(d.year);
    DaysBeforeMonth(d.year, d.month) + d.day
  }

  /**
   * `new Date(y, m - 1, d)` for a day count d >= 1 that may exceed the month:
   * the surplus rolls over into the following months, and past December into
   * January of the next year.
   */
  function Normalize(y: int, m: int, d: int): (r: CivilDate)
    requires 1 <= m <= 12 && 1 <= d
    ensures r.Valid()
    decreases d
  {
    if d <= DaysInMonth(y, m) then CivilDate(y, m, d)
    else if m == 12 then Normalize(y + 1, 1, d - DaysInMonth(y, m))
    else Normalize(y, m + 1, d - DaysInMonth(y, m))
  }

  /** `new Date(y, 0, i)`: the i-th day counted from January 1 of year y. */
  function DateOfOrdinal(y: int, i: int): (r: CivilDate)
    requires 1 <= i
    ensures r.Valid()
  {
    Normalize(y, 1, i)
  }

  lemma {:induction false} NormalizeWithinYear(y: int, m: int, d: int)
    requires 1 <= m <= 12 && 1 <= d <= DaysInYear(y) - DaysBeforeMonth(y, m)
    ensures Normalize(y, m, d).year == y
    ensures Ordinal(Normalize(y, m, d)) == DaysBeforeMonth(y, m) + d
    decreases d
  {
    DaysBeforeMonthTotal(y);
    if d > DaysInMonth(y, m) {
      assert m < 12;
      NormalizeWithinYear(y, m + 1, d - DaysInMonth(y, m));
    }
  }

  /** Counting i days from January 1 stays in year y and lands on ordinal i. */
  lemma OrdinalOfDateOfOrdinal(y: int, i: int)
    requires 1 <= i <= DaysInYear(y)
    ensures DateOfOrdinal(y, i).year == y
    ensures Ordinal(DateOfOrdinal(y, i)) == i
  {
    NormalizeWithinYear(y, 1, i);
  }

  /** Within one year, distinct dates have distinct ordinals. */
  lemma OrdinalInjective(a: CivilDate, b: CivilDate)
    requires a.Valid() && b.Valid() && a.year == b.year
    requires Ordinal(a) == Ordinal(b)
    ensures a == b
  {
    if a.month < b.month {
      DaysBeforeMonthMonotone(a.year, a.month + 1, b.month);
      assert false;
    } else if b.month < a.month {
      DaysBeforeMonthMonotone(a.year, b.month + 1, a.month);
      assert false;
    }
  }

  /** Counting a date's own ordinal from January 1 gives the date back. */
  lemma DateOfOrdinalOfDate(d: CivilDate)
    requires d.Valid()
    ensures DateOfOrdinal(d.year, Ordinal(d)) == d
  {
    OrdinalOfDateOfOrdinal(d.year, Ordinal(d));
    OrdinalInjective(DateOfOrdinal(d.year, Ordinal(d)), d);
  }

  /** Multiples of k in [0, y); negative (counting those in [y, 0)) when y < 0. */
  function MultiplesBelow(y: int, k: int): int
    requires 0 < k
  {
    (y + k - 1) / k
  }

  /** Leap years in [0, y), signed as MultiplesBelow is. */
  function LeapYearsBelow(y: int): int {
    MultiplesBelow(y, 4) - MultiplesBelow(y, 100) + MultiplesBelow(y, 400)
  }

  /** Days from 1970-01-01 to January 1 of year y. */
  function DaysBeforeYear(y: int): int {
    365 * (y - 1970) + LeapYearsBelow(y) - LeapYearsBelow(1970)
  }

  lemma MultiplesBelowStep(y: int, k: int)
    requires 0 < k
    ensures MultiplesBelow(y + 1, k) == MultiplesBelow(y, k) + (if y % k == 0 then 1 else 0)
  {
    var q, r := y / k, y % k;
    assert y == q * k + r && 0 <= r < k;
    assert y + k == (q + 1) * k + r;
    DivUnique(y + k, k, q + 1, r);
    if r == 0 {
      DivUnique(y + k - 1, k, q, k - 1);
    } else {
      DivUnique(y + k - 1, k, q + 1, r - 1);
    }
  }

  lemma DivUnique(x: int, k: int, q: int, r: int)
    requires 0 < k && 0 <= r < k && x == q * k + r
    ensures x / k == q
  {
    var q', r' := x / k, x % k;
    assert (q - q') * k == r' - r;
    if q' < q {
      MulAtLeast(q - q', k);
      assert false;
    } else if q < q' {
      MulAtLeast(q' - q, k);
      assert false;
    }
  }

  lemma {:induction false} MulAtLeast(a: int, k: int)
    requires 1 <= a && 0 < k
    ensures k <= a * k
    decreases a
  {
    if a > 1 {
      MulAtLeast(a - 1, k);
      assert a * k == (a - 1) * k + k;
    }
  }

  /** Consecutive years start DaysInYear(y) days apart. */
  lemma DaysBeforeYearStep(y: int)
    ensures DaysBeforeYear(y + 1) == DaysBeforeYear(y) + DaysInYear(y)
  {
    MultiplesBelowStep(y, 4);
    MultiplesBelowStep(y, 100);
    MultiplesBelowStep(y, 400);
    DivisibilityChain(y);
  }

  /** Multiples of 400 are multiples of 100, and those are multiples of 4. */
  lemma DivisibilityChain(y: int)
    ensures y % 400 == 0 ==> y % 100 == 0
    ensures y % 100 == 0 ==> y % 4 == 0
  {
    if y % 400 == 0 {
      DivUnique(y, 100, 4 * (y / 400), 0);
    }
    if y % 100 == 0 {
      DivUnique(y, 4, 25 * (y / 100), 0);
    }
  }

  lemma {:induction false} DaysBeforeYearMonotone(y1: int, y2: int)
    requires y1 <= y2
    ensures DaysBeforeYear(y1) + 365 * (y2 - y1) <= DaysBeforeYear(y2)
    decreases y2 - y1
  {
    if y1 < y2 {
      DaysBeforeYearMonotone(y1, y2 - 1);
      DaysBeforeYearStep(y2 - 1);
    }
  }

  /** Whole days from 1970-01-01 to a date. */
  function DayNumber(d: CivilDate): int
    requires d.Valid()
  {
    DaysBeforeYear(d.year) + Ordinal(d) - 1
  }

  /** A date's day number lies within its own year's range. */
  lemma DayNumberWithinYear(d: CivilDate)
    requires d.Valid()
    ensures DaysBeforeYear(d.year) <= DayNumber(d) < DaysBeforeYear(d.year + 1)
  {
    DaysBeforeYearStep(d.year);
  }

  /** Dates of an earlier year come on earlier days. */
  lemma DayNumberYearOrder(a: CivilDate, b: CivilDate)
    requires a.Valid() && b.Valid() && a.year < b.year
    ensures DayNumber(a) < DayNumber(b)
  {
    DayNumberWithinYear(a);
    DayNumberWithinYear(b);
    DaysBeforeYearMonotone(a.year + 1, b.year);
  }

  /** `getTime()` of an instant, in local milliseconds since 1970-01-01 00:00. */
  function Timestamp(t: Instant): int
    requires t.Valid()
  {
    DayNumber(t.date) * MsPerDay + t.millis
  }

  /** Timestamps order instants by day first, then by time of day. */
  lemma TimestampOrder(a: Instant, b: Instant)
    requires a.Valid() && b.Valid()
    ensures Timestamp(a) < Timestamp(b) <==>
      DayNumber(a.date) < DayNumber(b.date) ||
      (DayNumber(a.date) == DayNumber(b.date) && a.millis < b.millis)
  {
    var da, db := DayNumber(a.date), DayNumber(b.date);
    if da < db {
      assert da * MsPerDay + MsPerDay <= db * MsPerDay;
    } else if db < da {
      assert db * MsPerDay + MsPerDay <= da * MsPerDay;
    }
  }

  /** The rule's values on the years its three clauses tell apart. */
  lemma LeapYearExamples()
    ensures IsLeapYear(2000) && IsLeapYear(2024) && IsLeapYear(2400)
    ensures !IsLeapYear(1900) && !IsLeapYear(2023) && !IsLeapYear(2100)
  {
  }
}
