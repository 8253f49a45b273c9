/**
 * The application's year selection: the selected `year`, and the `stats` and
 * `days` derived from it, which an effect recomputes whenever `year` changes.
 * The header's arrows ask for the year before and after `stats.year`, and
 * the change handler accepts a request only inside [MinYear, MaxYear].
 */
module App {
  import opened Calendar
  import opened Utils

  const MinYear: int := 1900
  const MaxYear: int := 2100

  /** The year `handleYearChange(requested)` leaves selected, starting from `current`. */
  function AcceptYear(current: int, requested: int): (y: int)
    ensures y == requested || y == current
    ensures y == requested <==> MinYear <= requested <= MaxYear || requested == current
  {
    if MinYear <= requested <= MaxYear then requested else current
  }

  /** The header's two arrows. */
  datatype YearRequest = Previous | Next

  function Requested(year: int, r: YearRequest): int {
    match r
    case Previous => year - 1
    case Next => year + 1
  }

  /** The selected year after the arrows in `rs` are pressed in order. */
  function YearAfter(year: int, rs: seq<YearRequest>): int
    decreases |rs|
  {
    if rs == [] then year
    else YearAfter(AcceptYear(year, Requested(year, rs[0])), rs[1..])
  }

  /** A year inside the accepted range stays inside it whatever arrows are pressed. */
  lemma {:induction false} YearAfterStaysInRange(year: int, rs: seq<YearRequest>)
    requires MinYear <= year <= MaxYear
    ensures MinYear <= YearAfter(year, rs) <= MaxYear
    decreases |rs|
  {
    if rs != [] {
      YearAfterStaysInRange(AcceptYear(year, Requested(year, rs[0])), rs[1..]);
    }
  }

  /** Each arrow press moves the year by at most one. */
  lemma {:induction false} YearAfterMovesAtMostOnePerPress(year: int, rs: seq<YearRequest>)
    ensures year - |rs| <= YearAfter(year, rs) <= year + |rs|
    decreases |rs|
  {
    if rs != [] {
      YearAfterMovesAtMostOnePerPress(AcceptYear(year, Requested(year, rs[0])), rs[1..]);
    }
  }

  class YearView {
    var year: int
    var stats: YearStats
    var days: seq<DayData>
    /** The reference instant at which stats and days were last derived. */
    ghost var asOf: Instant

    /** The derived state is what the year engine gives for `year` at `asOf`. */
    ghost predicate Valid()
      reads this
    {
      asOf.Valid() && stats == GetYearStats(year, asOf) && days == DayGrid(year, asOf)
    }

    /** Initial state: the current year, with its stats and grid. */
    constructor (now: Instant)
      requires now.Valid()
      ensures Valid() && year == now.date.year && asOf == now
      ensures stats.daysPassed == Ordinal(now.date)
    {
      var grid := GenerateDayGrid(now.date.year, now);
      year := now.date.year;
      stats := GetYearStats(now.date.year, now);
      days := grid;
      asOf := now;
      new;
      DaysPassedIsOrdinal(year, now);
    }

    /** The effect on `year`: re-derive stats and days at `now`. */
    method Recompute(now: Instant)
      requires now.Valid()
      modifies this
      ensures Valid() && year == old(year) && asOf == now
    {
      stats := GetYearStats(year, now);
      days := GenerateDayGrid(year, now);
      asOf := now;
    }

    /**
     * `handleYearChange(newYear)`: a year inside the range is selected and the
     * derived state recomputed at `now`; any other request changes nothing.
     * Setting the year it already has does not re-run the effect.
     */
    method HandleYearChange(newYear: int, now: Instant)
      requires Valid() && now.Valid()
      modifies this
      ensures Valid()
      ensures year == AcceptYear(old(year), newYear)
      ensures MinYear <= newYear <= MaxYear ==> year == newYear
      ensures !(MinYear <= newYear <= MaxYear) || newYear == old(year) ==> unchanged(this)
      ensures year != old(year) ==> asOf == now
      ensures |days| == stats.totalDays && stats.year == year
    {
      if newYear >= MinYear && newYear <= MaxYear {
        if newYear != year {
          year := newYear;
          Recompute(now);
        }
      }
    }

    /** The header's left arrow: ask for `stats.year - 1`. */
    method RequestPreviousYear(now: Instant)
      requires Valid() && now.Valid()
      modifies this
      ensures Valid()
      ensures year == AcceptYear(old(year), old(year) - 1)
      ensures MinYear <= old(year) <= MaxYear ==> MinYear <= year <= MaxYear
      ensures old(year) == MinYear ==> unchanged(this)
      ensures year != old(year) ==> asOf == now
      ensures year == old(year) ==> unchanged(this)
    {
      HandleYearChange(stats.year - 1, now);
    }

    /** The header's right arrow: ask for `stats.year + 1`. */
    method RequestNextYear(now: Instant)
      requires Valid() && now.Valid()
      modifies this
      ensures Valid()
      ensures year == AcceptYear(old(year), old(year) + 1)
      ensures MinYear <= old(year) <= MaxYear ==> MinYear <= year <= MaxYear
      ensures old(year) == MaxYear ==> unchanged(this)
      ensures year != old(year) ==> asOf == now
      ensures year == old(year) ==> unchanged(this)
    {
      HandleYearChange(stats.year + 1, now);
    }
  }

  const PastMessage: string := "This day has returned to the void of time."
  const TodayMessage: string := "This is the only moment you truly possess."
  const FutureMessage: string := "A shadow in the future, waiting to be lived."

  /** The day-detail text: past is tested first, then today, else future. */
  function DayMessage(d: DayData): (msg: string)
    ensures msg == PastMessage <==> d.isPast
    ensures msg == TodayMessage <==> !d.isPast && d.isToday
    ensures msg == FutureMessage <==> !d.isPast && !d.isToday
  {
    if d.isPast then PastMessage
    else if d.isToday then TodayMessage
    else FutureMessage
  }

  /**
   * On a grid entry the message tells the entry's own classification: the
   * today text exactly on the today entry, the past text exactly on the
   * first days-passed entries before it.
   */
  lemma GridDayMessage(year: int, now: Instant, k: int)
    requires now.Valid() && 0 <= k < |DayGrid(year, now)|
    ensures DayMessage(DayGrid(year, now)[k]) == TodayMessage <==> DayGrid(year, now)[k].isToday
    ensures DayMessage(DayGrid(year, now)[k]) == FutureMessage <==>
      k >= GetYearStats(year, now).daysPassed
  {
    ElapsedIsPrefix(year, now, k);
  }
}
