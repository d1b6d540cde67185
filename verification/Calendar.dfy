/** Proleptic Gregorian calendar arithmetic, as section 21.4.1 of ECMA-262 defines it:
    days are counted from 1970-01-01 and a wall clock is read as if it were UTC. */
module Calendar {

  const MINUTE_MS := 60_000
  const HOUR_MS := 3_600_000
  const DAY_MS := 86_400_000

  datatype WallClock = WallClock(year: int, month: int, day: int, hour: int, minute: int, second: int)

  // ---------------------------------------------------------------- months ---

  predicate IsLeap(year: int) {
    year % 4 == 0 && (year % 100 != 0 || year % 400 == 0)
  }

  function DaysInYear(year: int): int {
    if IsLeap(year) then 366 else 365
  }

  /** The day number of 1 January. */
  function DayFromYear(year: int): int
    decreases if year < 1970 then 1970 - year else year - 1970
  {
    if year == 1970 then 0
    else if year > 1970 then DayFromYear(year - 1) + DaysInYear(year - 1)
    else DayFromYear(year + 1) - DaysInYear(year)
  }

  /** The closed form by which section 21.4.1 of ECMA-262 defines the day number of a year. */
  lemma {:induction false} DayFromYearClosedForm(year: int)
    ensures DayFromYear(year)
         == 365 * (year - 1970) + (year - 1969) / 4 - (year - 1901) / 100 + (year - 1601) / 400
    decreases if year < 1970 then 1970 - year else year - 1970
  {
    if year > 1970 {
      DayFromYearClosedForm(year - 1);
      ClosedFormStep(year - 1);
    } else if year < 1970 {
      DayFromYearClosedForm(year + 1);
      ClosedFormStep(year);
    }
  }

  lemma ClosedFormStep(year: int)
    ensures (year - 1968) / 4 - (year - 1969) / 4 - ((year - 1900) / 100 - (year - 1901) / 100)
          + ((year - 1600) / 400 - (year - 1601) / 400) == DaysInYear(year) - 365
  {
    assert (year - 1968) / 4 - (year - 1969) / 4 == if year % 4 == 0 then 1 else 0;
    assert (year - 1900) / 100 - (year - 1901) / 100 == if year % 100 == 0 then 1 else 0;
    assert (year - 1600) / 400 - (year - 1601) / 400 == if year % 400 == 0 then 1 else 0;
    assert year % 400 == 0 ==> year % 100 == 0;
    assert year % 100 == 0 ==> year % 4 == 0;
  }

  /** Days before the month with zero-based index `m` in a common year. */
  function CommonDaysBefore(m: int): int
    requires 0 <= m < 12
  {
    if m == 0 then 0 else if m == 1 then 31 else if m == 2 then 59 else if m == 3 then 90
    else if m == 4 then 120 else if m == 5 then 151 else if m == 6 then 181 else if m == 7 then 212
    else if m == 8 then 243 else if m == 9 then 273 else if m == 10 then 304 else 334
  }

  /** Day number of the first day of month `index`, where index is 12 * year + (month - 1). */
  function MonthStart(index: int): int {
    var year, m := index / 12, index % 12;
    DayFromYear(year) + CommonDaysBefore(m) + (if m >= 2 && IsLeap(year) then 1 else 0)
  }

  function DaysInMonth(year: int, month: int): int {
    MonthStart(12 * year + month) - MonthStart(12 * year + month - 1)
  }

  lemma MonthStartInYear(year: int, month: int)
    requires 1 <= month <= 12
    ensures MonthStart(12 * year + month - 1)
         == DayFromYear(year) + CommonDaysBefore(month - 1) + (if month >= 3 && IsLeap(year) then 1 else 0)
  {
    hide DayFromYear, CommonDaysBefore, IsLeap;
    assert (12 * year + month - 1) / 12 == year && (12 * year + month - 1) % 12 == month - 1;
  }

  /** Thirty days have April, June, September and November, and February 28 or 29. */
  lemma DaysInMonthTable(year: int, month: int)
    requires 1 <= month <= 12
    ensures DaysInMonth(year, month)
         == if month in {4, 6, 9, 11} then 30
            else if month != 2 then 31
            else if year % 4 == 0 && (year % 100 != 0 || year % 400 == 0) then 29 else 28
  {
    hide MonthStart;
    MonthStartInYear(year, month);
    if month == 12 {
      MonthStartInYear(year + 1, 1);
      NextYear(year);
    } else {
      MonthStartInYear(year, month + 1);
    }
    hide DayFromYear;
  }

  lemma NextYear(year: int)
    ensures DayFromYear(year + 1) == DayFromYear(year) + DaysInYear(year)
  {
  }

  lemma MonthLength(index: int)
    ensures 28 <= MonthStart(index + 1) - MonthStart(index) <= 31
  {
    if index % 12 == 11 {
      assert (index + 1) / 12 == index / 12 + 1 && (index + 1) % 12 == 0;
      assert DayFromYear(index / 12 + 1) == DayFromYear(index / 12) + DaysInYear(index / 12);
    } else {
      assert (index + 1) / 12 == index / 12 && (index + 1) % 12 == index % 12 + 1;
    }
  }

  lemma {:induction false} MonthStartMonotone(a: int, b: int)
    requires a <= b
    ensures MonthStart(a) + 28 * (b - a) <= MonthStart(b)
    decreases b - a
  {
    if a < b {
      MonthLength(b - 1);
      MonthStartMonotone(a, b - 1);
    }
  }

  /** Walks month by month from `from` to the month that contains `day`. */
  function MonthSearch(day: int, from: int): (index: int)
    ensures MonthStart(index) <= day < MonthStart(index + 1)
    decreases if day < MonthStart(from) then MonthStart(from) - day + 31 else day - MonthStart(from)
  {
    MonthLength(from); MonthLength(from - 1);
    hide MonthStart;
    if day < MonthStart(from) then MonthSearch(day, from - 1)
    else if day >= MonthStart(from + 1) then MonthSearch(day, from + 1)
    else from
  }

  /** Index of the month that contains a day number. */
  function MonthOf(day: int): (index: int)
    ensures MonthStart(index) <= day < MonthStart(index + 1)
  {
    hide MonthStart;
    MonthSearch(day, 12 * 1970)
  }

  lemma MonthOfUnique(day: int, index: int)
    requires MonthStart(index) <= day < MonthStart(index + 1)
    ensures MonthOf(day) == index
  {
    hide MonthStart;
    var other := MonthOf(day);
    if other < index {
      MonthStartMonotone(other + 1, index);
    } else if index < other {
      MonthStartMonotone(index + 1, other);
    }
  }

  // ----------------------------------------------- naive milliseconds <-> fields ---

  /** MakeDay: month and day may overflow, as the arguments of Date.UTC may. */
  function MakeDay(year: int, month: int, day: int): int {
    MonthStart(12 * year + month - 1) + day - 1
  }

  /** Date.UTC(year, month - 1, day, hour, minute, second). */
  function DateUtc(year: int, month: int, day: int, hour: int, minute: int, second: int): int {
    DAY_MS * MakeDay(year, month, day) + HOUR_MS * hour + MINUTE_MS * minute + 1000 * second
  }

  /** A wall clock read as if it were UTC. */
  function WallClockToNaiveMs(wc: WallClock): int {
    DateUtc(wc.year, wc.month, wc.day, wc.hour, wc.minute, wc.second)
  }

  /** The fields of `ms`; milliseconds within the second are dropped. */
  function NaiveMsToWallClock(ms: int): WallClock {
    var day, time := ms / DAY_MS, ms % DAY_MS;
    var index := MonthOf(day);
    WallClock(index / 12, index % 12 + 1, day - MonthStart(index) + 1,
              time / HOUR_MS, time % HOUR_MS / MINUTE_MS, time % MINUTE_MS / 1000)
  }

  /** A wall clock that names a real calendar date and time of day. */
  predicate ValidWallClock(wc: WallClock) {
    && 1 <= wc.month <= 12
    && 1 <= wc.day <= DaysInMonth(wc.year, wc.month)
    && 0 <= wc.hour < 24 && 0 <= wc.minute < 60 && 0 <= wc.second < 60
  }

  lemma TimeOfDay(time: int)
    requires 0 <= time < DAY_MS
    ensures 0 <= time / HOUR_MS < 24
    ensures 0 <= time % HOUR_MS / MINUTE_MS < 60
    ensures 0 <= time % MINUTE_MS / 1000 < 60
    ensures HOUR_MS * (time / HOUR_MS) + MINUTE_MS * (time % HOUR_MS / MINUTE_MS) + 1000 * (time % MINUTE_MS / 1000)
         == time - time % 1000
  {
    assert time % HOUR_MS % MINUTE_MS == time % MINUTE_MS;
    assert time % MINUTE_MS % 1000 == time % 1000;
  }

  lemma TimeFields(time: int, hour: int, minute: int, second: int)
    requires 0 <= hour < 24 && 0 <= minute < 60 && 0 <= second < 60
    requires time == HOUR_MS * hour + MINUTE_MS * minute + 1000 * second
    ensures 0 <= time < DAY_MS
    ensures time / HOUR_MS == hour && time % HOUR_MS / MINUTE_MS == minute && time % MINUTE_MS / 1000 == second
  {
  }

  /** Every instant reads as a real wall clock, and that reading is the instant floored to its second. */
  lemma NaiveRoundTrip(ms: int)
    ensures ValidWallClock(NaiveMsToWallClock(ms))
    ensures WallClockToNaiveMs(NaiveMsToWallClock(ms)) == ms - ms % 1000
  {
    hide MonthStart;
    var day, time := ms / DAY_MS, ms % DAY_MS;
    var index := MonthOf(day);
    var wc := NaiveMsToWallClock(ms);
    assert 12 * wc.year + wc.month - 1 == index;
    TimeOfDay(time);
    assert time % 1000 == ms % 1000;
  }

  /** Reading back the naive milliseconds of a real wall clock gives the same fields. */
  lemma WallClockRoundTrip(wc: WallClock)
    requires ValidWallClock(wc)
    ensures NaiveMsToWallClock(WallClockToNaiveMs(wc)) == wc
    ensures WallClockToNaiveMs(wc) % 1000 == 0
  {
    hide MonthStart, MonthOf;
    var ms := WallClockToNaiveMs(wc);
    var day := MakeDay(wc.year, wc.month, wc.day);
    var time := HOUR_MS * wc.hour + MINUTE_MS * wc.minute + 1000 * wc.second;
    TimeFields(time, wc.hour, wc.minute, wc.second);
    assert ms / DAY_MS == day && ms % DAY_MS == time;
    MonthOfUnique(day, 12 * wc.year + wc.month - 1);
  }

  // ------------------------------------------------------------- two-digit years ---

  /** MakeFullYear: Date.UTC takes the years 0 to 99 for those of the twentieth century. */
  function MakeFullYear(year: int): int {
    if 0 <= year <= 99 then year + 1900 else year
  }

  /** Date.UTC with that substitution. */
  function DateUtcFullYear(wc: WallClock): int {
    WallClockToNaiveMs(wc.(year := MakeFullYear(wc.year)))
  }

  lemma FullYearMovesForward(wc: WallClock)
    ensures DateUtcFullYear(wc) == WallClockToNaiveMs(wc) <==> !(0 <= wc.year <= 99)
  {
    hide MonthStart;
    var index := 12 * wc.year + wc.month - 1;
    MonthStartMonotone(index, index + 12 * 1900);
    assert 12 * (wc.year + 1900) + wc.month - 1 == index + 12 * 1900;
  }

  /** Every instant reads as a real wall clock, and Date.UTC takes that reading back to the instant floored to its
      second exactly when its year is not one of those. */
  lemma DateUtcReturnsIff(ms: int)
    ensures ValidWallClock(NaiveMsToWallClock(ms))
    ensures DateUtcFullYear(NaiveMsToWallClock(ms)) == ms - ms % 1000 <==> !(0 <= NaiveMsToWallClock(ms).year <= 99)
  {
    hide *;
    NaiveRoundTrip(ms);
    FullYearMovesForward(NaiveMsToWallClock(ms));
  }

  /** A real wall clock comes back from Date.UTC with the same fields exactly when its year is not one of those. */
  lemma WallClockReturnsIff(wc: WallClock)
    requires ValidWallClock(wc)
    ensures NaiveMsToWallClock(DateUtcFullYear(wc)) == wc <==> !(0 <= wc.year <= 99)
  {
    hide *;
    FullYearMovesForward(wc);
    WallClockRoundTrip(wc);
    if 0 <= wc.year <= 99 {
      NaiveRoundTrip(DateUtcFullYear(wc));
      WholeSeconds(wc);
    }
  }

  lemma WholeSeconds(wc: WallClock)
    ensures DateUtcFullYear(wc) % 1000 == 0
  {
    hide MakeDay;
    var day := MakeDay(MakeFullYear(wc.year), wc.month, wc.day);
    assert DateUtcFullYear(wc) == 1000 * (86_400 * day + 3_600 * wc.hour + 60 * wc.minute + wc.second);
  }
}
