/**
 * The year engine: aggregate statistics for a year and the ordered grid of
 * its days, each classified as past, today or future relative to a reference
 * instant `now`. The instant is a parameter here; the application reads it
 * from the wall clock.
 */
module Utils {
  import opened Calendar

  datatype YearStats = YearStats(
    year: int,
    totalDays: int,
    daysPassed: int,
    daysLeft: int,
    percentComplete: real)

  datatype DayData = DayData(dayNumber: int, date: CivilDate, isPast: bool, isToday: bool)

  function Min(a: int, b: int): int { if a <= b then a else b }

  function Max(a: int, b: int): int { if a <= b then b else a }

  /** `now.getTime() - startOfYear.getTime()`, with the year starting at local midnight of January 1. */
  function MillisSinceYearStart(year: int, now: Instant): int
    requires now.Valid()
  {
    Timestamp(now) - Timestamp(Midnight(CivilDate(year, 1, 1)))
  }

  /**
   * `getYearStats(year)` evaluated at `now`. The day count is the floor of
   * the elapsed milliseconds over the length of a day, plus one; Dafny's `/`
   * by a positive divisor is that floor. The result is clamped to the year.
   */
  function GetYearStats(year: int, now: Instant): (r: YearStats)
    requires now.Valid()
    ensures r.year == year
    ensures r.totalDays == (if IsLeapYear(year) then 366 else 365)
    ensures 0 <= r.daysPassed <= r.totalDays
    ensures r.daysPassed + r.daysLeft == r.totalDays
    ensures now.date.year > year ==> r.daysPassed == r.totalDays && r.daysLeft == 0
    ensures now.date.year < year ==> r.daysPassed == 0 && r.daysLeft == r.totalDays
    ensures 0.0 <= r.percentComplete <= 100.0
    ensures r.percentComplete == 100.0 <==> r.daysPassed == r.totalDays
  {
    var totalDays := DaysInYear(year);
    var raw :=
      if now.date.year > year then totalDays
      else if now.date.year == year then MillisSinceYearStart(year, now) / MsPerDay + 1
      else 0;
    var daysPassed := Min(totalDays, Max(0, raw));
    var fraction := daysPassed as real / totalDays as real;
    FractionBounds(daysPassed, totalDays);
    YearStats(year, totalDays, daysPassed, totalDays - daysPassed, fraction * 100.0)
  }

  lemma FractionBounds(a: int, b: int)
    requires 0 <= a <= b && 0 < b
    ensures 0.0 <= a as real / b as real <= 1.0
    ensures a as real / b as real == 1.0 <==> a == b
  {
    var f := a as real / b as real;
    assert f * b as real == a as real;
  }

  /**
   * In the year of `now` the count of days passed is the 1-based ordinal of
   * now's date: the floor division recovers the whole days since January 1.
   */
  lemma DaysPassedIsOrdinal(year: int, now: Instant)
    requires now.Valid() && now.date.year == year
    ensures GetYearStats(year, now).daysPassed == Ordinal(now.date) >= 1
    ensures GetYearStats(year, now).daysLeft == DaysInYear(year) - Ordinal(now.date)
  {
    var o := Ordinal(now.date);
    assert Ordinal(CivilDate(year, 1, 1)) == 1;
    assert MillisSinceYearStart(year, now) == (o - 1) * MsPerDay + now.millis;
    DivUnique(MillisSinceYearStart(year, now), MsPerDay, o - 1, now.millis);
  }

  /** The entry the loop of `generateDayGrid` pushes for day number i. */
  function DayAt(year: int, now: Instant, i: int): (d: DayData)
    requires now.Valid() && 1 <= i
    ensures d.dayNumber == i && d.date == DateOfOrdinal(year, i)
  {
    var date := DateOfOrdinal(year, i);
    var isToday := date == now.date;
    var isPast := Timestamp(Midnight(date)) < Timestamp(now) && !isToday;
    DayData(i, date, isPast, isToday)
  }

  /** The grid `generateDayGrid(year)` returns when evaluated at `now`. */
  function DayGrid(year: int, now: Instant): (g: seq<DayData>)
    requires now.Valid()
    ensures |g| == DaysInYear(year)
  {
    seq(DaysInYear(year), k requires 0 <= k => DayAt(year, now, k + 1))
  }

  /** `generateDayGrid(year)` at `now`: one entry per day of the year, pushed in order. */
  method GenerateDayGrid(year: int, now: Instant) returns (days: seq<DayData>)
    requires now.Valid()
    ensures days == DayGrid(year, now)
  {
    days := [];
    var totalDays := if IsLeapYear(year) then 366 else 365;
    var i := 1;
    while i <= totalDays
      invariant 1 <= i <= totalDays + 1
      invariant |days| == i - 1
      invariant forall k :: 0 <= k < i - 1 ==> days[k] == DayAt(year, now, k + 1)
    {
      var date := DateOfOrdinal(year, i);
      var isToday := date == now.date;
      var isPast := Timestamp(Midnight(date)) < Timestamp(now) && !isToday;
      assert DayData(i, date, isPast, isToday) == DayAt(year, now, i);
      PushDay(days, DayData(i, date, isPast, isToday), year, now);
      days := days + [DayData(i, date, isPast, isToday)];
      i := i + 1;
    }
    assert forall k :: 0 <= k < |days| ==> days[k] == DayGrid(year, now)[k];
  }

  /** Pushing the entry of the next day keeps the grid built so far a prefix of DayGrid. */
  lemma PushDay(days: seq<DayData>, entry: DayData, year: int, now: Instant)
    requires now.Valid()
    requires forall k :: 0 <= k < |days| ==> days[k] == DayAt(year, now, k + 1)
    requires entry == DayAt(year, now, |days| + 1)
    ensures forall k :: 0 <= k < |days| + 1 ==> (days + [entry])[k] == DayAt(year, now, k + 1)
  {
  }

  /**
   * Each day's classification, in terms of ordinals: today is now's own
   * ordinal in now's year, and the past is every earlier ordinal of that year
   * and every day of an earlier year.
   */
  lemma DayClassification(year: int, now: Instant, i: int)
    requires now.Valid() && 1 <= i <= DaysInYear(year)
    ensures DayAt(year, now, i).isToday <==> now.date.year == year && i == Ordinal(now.date)
    ensures DayAt(year, now, i).isPast <==>
      now.date.year > year || (now.date.year == year && i < Ordinal(now.date))
    ensures !(DayAt(year, now, i).isPast && DayAt(year, now, i).isToday)
  {
    var date := DateOfOrdinal(year, i);
    OrdinalOfDateOfOrdinal(year, i);
    TimestampOrder(Midnight(date), now);
    if now.date.year == year {
      if i == Ordinal(now.date) {
        DateOfOrdinalOfDate(now.date);
      } else {
        assert date != now.date;
      }
    } else if now.date.year > year {
      DayNumberYearOrder(date, now.date);
    } else {
      DayNumberYearOrder(now.date, date);
    }
  }

  /** The grid is the days of the year in order: entry k is day k + 1, dated by its ordinal. */
  lemma DayGridShape(year: int, now: Instant)
    requires now.Valid()
    ensures |DayGrid(year, now)| == (if IsLeapYear(year) then 366 else 365)
    ensures forall k :: 0 <= k < |DayGrid(year, now)| ==>
      DayGrid(year, now)[k].dayNumber == k + 1 &&
      DayGrid(year, now)[k].date.year == year &&
      Ordinal(DayGrid(year, now)[k].date) == k + 1
  {
    var g := DayGrid(year, now);
    forall k | 0 <= k < |g|
      ensures g[k].dayNumber == k + 1 && g[k].date.year == year && Ordinal(g[k].date) == k + 1
    {
      OrdinalOfDateOfOrdinal(year, k + 1);
    }
  }

  /**
   * The grid entries that are past or today are exactly its first
   * `daysPassed` entries, and the one "today" entry (if any) is the last of them.
   */
  lemma ElapsedIsPrefix(year: int, now: Instant, k: int)
    requires now.Valid() && 0 <= k < |DayGrid(year, now)|
    ensures DayGrid(year, now)[k].isPast || DayGrid(year, now)[k].isToday <==>
      k < GetYearStats(year, now).daysPassed
    ensures DayGrid(year, now)[k].isToday <==>
      now.date.year == year && k == GetYearStats(year, now).daysPassed - 1
    ensures !(DayGrid(year, now)[k].isPast && DayGrid(year, now)[k].isToday)
  {
    DayClassification(year, now, k + 1);
    if now.date.year == year {
      DaysPassedIsOrdinal(year, now);
    }
  }

  /** Past entries form a prefix of the grid. */
  lemma PastIsPrefix(year: int, now: Instant, i: int, j: int)
    requires now.Valid() && 0 <= i <= j < |DayGrid(year, now)|
    requires DayGrid(year, now)[j].isPast
    ensures DayGrid(year, now)[i].isPast
  {
    DayClassification(year, now, j + 1);
    assert now.date.year > year || (now.date.year == year && i + 1 < Ordinal(now.date));
    DayClassification(year, now, i + 1);
  }

  /** Number of entries of s that satisfy p. */
  function CountWhere(s: seq<DayData>, p: DayData -> bool): (n: nat)
    ensures n <= |s|
  {
    if s == [] then 0 else (if p(s[0]) then 1 else 0) + CountWhere(s[1..], p)
  }

  lemma {:induction false} CountPrefix(s: seq<DayData>, p: DayData -> bool, n: int)
    requires 0 <= n <= |s|
    requires forall k :: 0 <= k < |s| ==> (p(s[k]) <==> k < n)
    ensures CountWhere(s, p) == n
  {
    if s != [] {
      assert forall k :: 0 <= k < |s[1..]| ==> s[1..][k] == s[k + 1];
      CountPrefix(s[1..], p, if n == 0 then 0 else n - 1);
    }
  }

  lemma {:induction false} CountSingle(s: seq<DayData>, p: DayData -> bool, j: int)
    requires 0 <= j < |s|
    requires forall k :: 0 <= k < |s| ==> (p(s[k]) <==> k == j)
    ensures CountWhere(s, p) == 1
  {
    assert forall k :: 0 <= k < |s[1..]| ==> s[1..][k] == s[k + 1];
    if j == 0 {
      CountPrefix(s[1..], p, 0);
    } else {
      CountSingle(s[1..], p, j - 1);
    }
  }

  predicate IsElapsed(d: DayData) { d.isPast || d.isToday }

  predicate IsToday(d: DayData) { d.isToday }

  /** Counting the grid's past-or-today entries gives getYearStats's `daysPassed`. */
  lemma ElapsedCountIsDaysPassed(year: int, now: Instant)
    requires now.Valid()
    ensures CountWhere(DayGrid(year, now), IsElapsed) == GetYearStats(year, now).daysPassed
  {
    var g := DayGrid(year, now);
    forall k | 0 <= k < |g|
      ensures IsElapsed(g[k]) <==> k < GetYearStats(year, now).daysPassed
    {
      ElapsedIsPrefix(year, now, k);
    }
    CountPrefix(g, IsElapsed, GetYearStats(year, now).daysPassed);
  }

  /** Exactly one entry is today when now falls in the year, and none otherwise. */
  lemma TodayCount(year: int, now: Instant)
    requires now.Valid()
    ensures CountWhere(DayGrid(year, now), IsToday) == (if now.date.year == year then 1 else 0)
  {
    var g := DayGrid(year, now);
    var stats := GetYearStats(year, now);
    forall k | 0 <= k < |g|
      ensures IsToday(g[k]) <==> now.date.year == year && k == stats.daysPassed - 1
    {
      ElapsedIsPrefix(year, now, k);
    }
    if now.date.year == year {
      DaysPassedIsOrdinal(year, now);
      CountSingle(g, IsToday, stats.daysPassed - 1);
    } else {
      CountPrefix(g, IsToday, 0);
    }
  }

  /** In the leap year 2024, on March 1 (Jan 31 + Feb 29 + 1 = day 61) at any time of day. */
  lemma MarchFirst2024(millis: int)
    requires 0 <= millis < MsPerDay
    ensures var now := Instant(CivilDate(2024, 3, 1), millis);
      |DayGrid(2024, now)| == 366 &&
      GetYearStats(2024, now).daysPassed == 61 &&
      DayGrid(2024, now)[60].isToday &&
      (forall k :: 0 <= k < 60 ==> DayGrid(2024, now)[k].isPast) &&
      (forall k :: 60 < k < 366 ==> !DayGrid(2024, now)[k].isPast && !DayGrid(2024, now)[k].isToday)
  {
    var now := Instant(CivilDate(2024, 3, 1), millis);
    assert Ordinal(now.date) == 61;
    DaysPassedIsOrdinal(2024, now);
    forall k | 0 <= k < 366
      ensures DayGrid(2024, now)[k].isPast <==> k < 60
      ensures DayGrid(2024, now)[k].isToday <==> k == 60
    {
      ElapsedIsPrefix(2024, now, k);
    }
  }
}
