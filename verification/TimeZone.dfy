/** Wall-clock arithmetic in an IANA zone. The zone itself is an abstract function from a UTC
    instant to the milliseconds by which local time is ahead of UTC at that instant. */
module TimeZone {
  import opened Calendar
  import opened Ticks

  type Zone = int -> int

  const PROBE_MS := 26 * HOUR_MS

  /** What is assumed of a zone: offsets are whole seconds and smaller than the probe distance. */
  ghost predicate ValidZone(zone: Zone) {
    forall t :: zone(t) % 1000 == 0 && -PROBE_MS < zone(t) < PROBE_MS
  }

  ghost predicate FixedOffset(zone: Zone, offset: int) {
    && offset % 1000 == 0
    && forall t :: zone(t) == offset
  }

  /** At most one change of offset within the probe distance of `naive`. */
  ghost predicate OneTransitionNear(zone: Zone, naive: int, at: int, before: int, since: int) {
    forall t :: naive - PROBE_MS <= t <= naive + PROBE_MS ==> zone(t) == if t < at then before else since
  }

  /** The reading a person in the zone sees at an instant. */
  function ToWallClock(utcMs: int, zone: Zone): WallClock {
    NaiveMsToWallClock(utcMs + zone(utcMs))
  }

  /** Local wall clock minus UTC at an instant. */
  function ZoneOffsetMs(utcMs: int, zone: Zone): int {
    WallClockToNaiveMs(ToWallClock(utcMs, zone)) - utcMs
  }

  lemma WholeSecondSum(a: int, b: int)
    requires a % 1000 == 0 && b % 1000 == 0
    ensures (a + b) % 1000 == 0
  {
  }

  lemma ZoneOffsetOfWholeSecond(utcMs: int, zone: Zone)
    requires utcMs % 1000 == 0 && zone(utcMs) % 1000 == 0
    ensures ZoneOffsetMs(utcMs, zone) == zone(utcMs)
  {
    hide WallClockToNaiveMs, NaiveMsToWallClock, ValidWallClock;
    NaiveRoundTrip(utcMs + zone(utcMs));
    WholeSecondSum(utcMs, zone(utcMs));
  }

  // ----------------------------------------------------- local time to UTC ---

  /** The instant at which local time would read `naive` if the offset sampled at `probe` held. */
  function Guess(naive: int, probe: int, zone: Zone): int {
    naive - ZoneOffsetMs(probe, zone)
  }

  function Guesses(naive: int, probes: seq<int>, zone: Zone): set<int> {
    set p | p in probes :: Guess(naive, p, zone)
  }

  function Probes(naive: int): seq<int> {
    [naive, naive - PROBE_MS, naive + PROBE_MS]
  }

  /** Guesses from offsets sampled at the naive instant and 26 hours to either side, refined once
      by the offsets sampled at those guesses. */
  function Candidates(naive: int, zone: Zone): set<int> {
    var first := Guesses(naive, Probes(naive), zone);
    first + Guesses(naive, Sorted(first), zone)
  }

  /** The answers of `fromWallClock`: the candidates that do read as `wc`, ascending. */
  function Instants(wc: WallClock, zone: Zone): (r: seq<int>)
    ensures Ascending(r)
    ensures forall t :: t in r ==> ToWallClock(t, zone) == wc
  {
    Sorted(set t | t in Candidates(WallClockToNaiveMs(wc), zone) && ToWallClock(t, zone) == wc)
  }

  method AddGuesses(naive: int, probes: seq<int>, zone: Zone, known: set<int>) returns (candidates: set<int>)
    ensures candidates == known + Guesses(naive, probes, zone)
  {
    hide Guess;
    candidates := known;
    for i := 0 to |probes|
      invariant candidates == known + Guesses(naive, probes[..i], zone)
    {
      candidates := candidates + {Guess(naive, probes[i], zone)};
      assert probes[..i + 1] == probes[..i] + [probes[i]];
    }
    assert probes[..|probes|] == probes;
  }

  method FromWallClock(wc: WallClock, zone: Zone) returns (instants: seq<int>)
    ensures instants == Instants(wc, zone)
  {
    hide WallClockToNaiveMs, ToWallClock, Guesses;
    var naive := WallClockToNaiveMs(wc);
    var candidates := AddGuesses(naive, Probes(naive), zone, {});
    candidates := AddGuesses(naive, Sorted(candidates), zone, candidates);
    instants := Sorted(set t | t in candidates && ToWallClock(t, zone) == wc);
  }

  /** An instant whose local reading is `wc` differs from the naive instant by its own offset. */
  lemma OccurrenceOffset(t: int, wc: WallClock, zone: Zone)
    requires t % 1000 == 0 && zone(t) % 1000 == 0
    ensures ToWallClock(t, zone) == wc ==> ValidWallClock(wc) && t == WallClockToNaiveMs(wc) - zone(t)
    ensures ValidWallClock(wc) && t == WallClockToNaiveMs(wc) - zone(t) ==> ToWallClock(t, zone) == wc
  {
    hide WallClockToNaiveMs, NaiveMsToWallClock, ValidWallClock;
    NaiveRoundTrip(t + zone(t));
    if ValidWallClock(wc) {
      WallClockRoundTrip(wc);
    }
  }

  lemma NaiveIsWholeSecond(wc: WallClock)
    ensures WallClockToNaiveMs(wc) % 1000 == 0
  {
    hide MakeDay;
    var seconds := 86_400 * MakeDay(wc.year, wc.month, wc.day) + 3_600 * wc.hour + 60 * wc.minute + wc.second;
    assert WallClockToNaiveMs(wc) == 1000 * seconds;
  }

  lemma GuessIsOffset(naive: int, probe: int, zone: Zone)
    requires ValidZone(zone) && naive % 1000 == 0 && probe % 1000 == 0
    ensures Guess(naive, probe, zone) == naive - zone(probe)
    ensures -PROBE_MS < zone(probe) < PROBE_MS && Guess(naive, probe, zone) % 1000 == 0
  {
    ZoneOffsetOfWholeSecond(probe, zone);
  }

  ghost predicate IsShift(naive: int, zone: Zone, c: int) {
    c % 1000 == 0 && exists p :: naive - PROBE_MS <= p <= naive + PROBE_MS && c == naive - zone(p)
  }

  lemma GuessesContain(naive: int, probes: seq<int>, zone: Zone, i: nat)
    requires i < |probes|
    ensures Guess(naive, probes[i], zone) in Guesses(naive, probes, zone)
  {
    hide Guess;
    assert probes[i] in probes;
  }

  lemma SampledOffsetsAreCandidates(naive: int, zone: Zone)
    requires naive % 1000 == 0 && ValidZone(zone)
    ensures naive - zone(naive - PROBE_MS) in Candidates(naive, zone)
    ensures naive - zone(naive + PROBE_MS) in Candidates(naive, zone)
  {
    hide Guess, Guesses, Sorted, ValidZone;
    GuessesContain(naive, Probes(naive), zone, 1);
    GuessesContain(naive, Probes(naive), zone, 2);
    GuessIsOffset(naive, naive - PROBE_MS, zone);
    GuessIsOffset(naive, naive + PROBE_MS, zone);
  }

  lemma GuessIsShift(naive: int, p: int, zone: Zone)
    requires naive % 1000 == 0 && p % 1000 == 0 && ValidZone(zone)
    requires naive - PROBE_MS <= p <= naive + PROBE_MS
    ensures IsShift(naive, zone, Guess(naive, p, zone))
    ensures naive - PROBE_MS <= Guess(naive, p, zone) <= naive + PROBE_MS
  {
    GuessIsOffset(naive, p, zone);
  }

  /** Every candidate is the naive instant shifted by an offset in force within the probe distance. */
  lemma CandidatesAreShifts(naive: int, zone: Zone)
    requires naive % 1000 == 0 && ValidZone(zone)
    ensures forall c :: c in Candidates(naive, zone) ==> IsShift(naive, zone, c)
  {
    hide Guess, ValidZone, Sorted;
    forall p | p in Probes(naive)
      ensures IsShift(naive, zone, Guess(naive, p, zone))
      ensures naive - PROBE_MS <= Guess(naive, p, zone) <= naive + PROBE_MS && Guess(naive, p, zone) % 1000 == 0
    {
      GuessIsShift(naive, p, zone);
    }
    forall c | c in Guesses(naive, Probes(naive), zone) ensures IsShift(naive, zone, Guess(naive, c, zone)) {
      GuessIsShift(naive, c, zone);
    }
  }

  lemma AllShiftsNear(naive: int, zone: Zone, at: int, before: int, since: int, c: int)
    requires OneTransitionNear(zone, naive, at, before, since) && IsShift(naive, zone, c)
    ensures c in {naive - before, naive - since}
  {
  }

  lemma OccurrenceIsCandidate(t: int, wc: WallClock, zone: Zone, at: int, before: int, since: int)
    requires ValidZone(zone)
    requires OneTransitionNear(zone, WallClockToNaiveMs(wc), at, before, since)
    ensures t % 1000 == 0 && ToWallClock(t, zone) == wc ==> t in Candidates(WallClockToNaiveMs(wc), zone)
    ensures t in Candidates(WallClockToNaiveMs(wc), zone) ==> t % 1000 == 0
  {
    hide WallClockToNaiveMs, ToWallClock, Candidates, ValidWallClock;
    var naive := WallClockToNaiveMs(wc);
    NaiveIsWholeSecond(wc);
    SampledOffsetsAreCandidates(naive, zone);
    CandidatesAreShifts(naive, zone);
    if t % 1000 == 0 && ToWallClock(t, zone) == wc {
      OccurrenceOffset(t, wc, zone);
      assert zone(t) == zone(naive - PROBE_MS) || zone(t) == zone(naive + PROBE_MS);
    }
  }

  lemma AtMostTwoInstants(wc: WallClock, zone: Zone, at: int, before: int, since: int)
    requires ValidZone(zone)
    requires OneTransitionNear(zone, WallClockToNaiveMs(wc), at, before, since)
    ensures |Instants(wc, zone)| <= 2
  {
    hide WallClockToNaiveMs, ToWallClock, Candidates, ValidZone, OneTransitionNear;
    var naive := WallClockToNaiveMs(wc);
    NaiveIsWholeSecond(wc);
    CandidatesAreShifts(naive, zone);
    var found := set t | t in Candidates(naive, zone) && ToWallClock(t, zone) == wc;
    forall c | c in found ensures c in {naive - before, naive - since} {
      AllShiftsNear(naive, zone, at, before, since, c);
    }
    SubsetSize(found, {naive - before, naive - since});
  }

  /** With at most one transition near the naive instant, the answer is exactly the whole-second
      instants whose local reading is `wc`, and there are at most two of them: none in a gap, one
      normally, two in a fold. */
  lemma FromWallClockExact(wc: WallClock, zone: Zone, at: int, before: int, since: int)
    requires ValidZone(zone)
    requires OneTransitionNear(zone, WallClockToNaiveMs(wc), at, before, since)
    ensures Ascending(Instants(wc, zone)) && |Instants(wc, zone)| <= 2
    ensures forall t :: t in Instants(wc, zone) <==> t % 1000 == 0 && ToWallClock(t, zone) == wc
  {
    hide WallClockToNaiveMs, ToWallClock, Candidates, ValidZone, OneTransitionNear;
    AtMostTwoInstants(wc, zone, at, before, since);
    forall t ensures t in Instants(wc, zone) <==> t % 1000 == 0 && ToWallClock(t, zone) == wc {
      OccurrenceIsCandidate(t, wc, zone, at, before, since);
    }
  }

  /** In a fixed-offset zone every real wall clock occurs exactly once. */
  lemma FixedOffsetInstants(wc: WallClock, zone: Zone, offset: int)
    requires ValidZone(zone) && FixedOffset(zone, offset) && ValidWallClock(wc)
    ensures Instants(wc, zone) == [WallClockToNaiveMs(wc) - offset]
  {
    hide WallClockToNaiveMs, ToWallClock, Candidates, ValidWallClock, Instants;
    var naive := WallClockToNaiveMs(wc);
    var t := naive - offset;
    FromWallClockExact(wc, zone, naive, offset, offset);
    NaiveIsWholeSecond(wc);
    OccurrenceOffset(t, wc, zone);
    forall x | x in Instants(wc, zone) ensures x == t {
      OccurrenceOffset(x, wc, zone);
    }
    AscendingUnique(Instants(wc, zone), [t]);
  }

  // ------------------------------------------------------ field arithmetic ---

  function FloorToMinute(utcMs: int, zone: Zone): WallClock {
    ToWallClock(utcMs, zone).(second := 0)
  }

  function AddMinutes(wc: WallClock, minutes: int): WallClock {
    NaiveMsToWallClock(WallClockToNaiveMs(wc) + minutes * MINUTE_MS)
  }

  function StartOfNextHour(wc: WallClock): WallClock {
    NaiveMsToWallClock(DateUtc(wc.year, wc.month, wc.day, wc.hour + 1, 0, 0)).(minute := 0, second := 0)
  }

  function StartOfNextDay(wc: WallClock): WallClock {
    NaiveMsToWallClock(DateUtc(wc.year, wc.month, wc.day + 1, 0, 0, 0)).(hour := 0, minute := 0, second := 0)
  }

  function StartOfNextMonth(wc: WallClock): WallClock {
    WallClock(if wc.month == 12 then wc.year + 1 else wc.year,
              if wc.month == 12 then 1 else wc.month + 1, 1, 0, 0, 0)
  }

  /** 0 is Sunday; 1 January 1970 was a Thursday. */
  function WallClockDayOfWeek(wc: WallClock): int {
    (MakeDay(wc.year, wc.month, wc.day) + 4) % 7
  }

  /** Sakamoto's offset of a month within the year that begins in March. */
  function MonthOffset(month: int): int
    requires 1 <= month <= 12
  {
    [0, 3, 2, 5, 0, 3, 5, 1, 4, 6, 2, 4][month - 1]
  }

  /** The day of the week in closed form, by Sakamoto's rule. */
  lemma DayOfWeekClosedForm(wc: WallClock)
    requires 1 <= wc.month <= 12
    ensures var y := if wc.month < 3 then wc.year - 1 else wc.year;
      WallClockDayOfWeek(wc) == (y + y / 4 - y / 100 + y / 400 + MonthOffset(wc.month) + wc.day) % 7
  {
    hide MonthStart, DayFromYear;
    MonthStartInYear(wc.year, wc.month);
    DayFromYearClosedForm(wc.year);
    LeapYearsSince(wc.year);
    hide IsLeap;
    var p := wc.year - 1;
    var before := CommonDaysBefore(wc.month - 1) + (if wc.month >= 3 && IsLeap(wc.year) then 1 else 0);
    var days := p + p / 4 - p / 100 + p / 400;
    assert MakeDay(wc.year, wc.month, wc.day) + 4 == 364 * p + (days + before + wc.day) - 719159;
    SevenDivides(days + before + wc.day, p);
    MonthOffsets(wc.month, if IsLeap(wc.year) then 1 else 0, days + wc.day);
  }

  lemma MonthOffsets(month: int, leap: int, rest: int)
    requires 1 <= month <= 12
    ensures (rest + CommonDaysBefore(month - 1) + (if month >= 3 then leap else 0)) % 7
         == (rest + (if month >= 3 then 1 + leap else 0) + MonthOffset(month)) % 7
  {
    var x := rest + (if month >= 3 then 1 + leap else 0) + MonthOffset(month);
    var y := rest + CommonDaysBefore(month - 1) + (if month >= 3 then leap else 0);
    var weeks := [0, 4, 8, 12, 17, 21, 25, 30, 34, 38, 43, 47][month - 1];
    assert y == x + 7 * weeks;
  }

  lemma LeapYearsSince(year: int)
    ensures var p := year - 1;
      (year - 1969) / 4 - (year - 1901) / 100 + (year - 1601) / 400 == p / 4 - p / 100 + p / 400 - 477
    ensures var p := year - 1;
      year / 4 - year / 100 + year / 400 == p / 4 - p / 100 + p / 400 + if IsLeap(year) then 1 else 0
  {
    ClosedFormStep(year);
    assert (year - 1969) / 4 == (year - 1) / 4 - 492;
    assert (year - 1901) / 100 == (year - 1) / 100 - 19;
    assert (year - 1601) / 400 == (year - 1) / 400 - 4;
    assert (year - 1968) / 4 == year / 4 - 492 && (year - 1900) / 100 == year / 100 - 19 && (year - 1600) / 400 == year / 400 - 4;
  }

  lemma SevenDivides(rest: int, p: int)
    ensures (364 * p + rest - 719159) % 7 == rest % 7
  {
    assert 364 * p + rest - 719159 == 7 * (52 * p - 102737) + rest;
  }

  // -------------------------------------------- wall clocks as minute numbers ---

  /** The wall clock at which local minute number `n` begins. */
  function WallAt(n: int): WallClock {
    NaiveMsToWallClock(n * MINUTE_MS)
  }

  lemma By60(n: int, q: int, r: int)
    requires n == 60 * q + r && 0 <= r < 60
    ensures n / 60 == q && n % 60 == r
  {
  }

  lemma By1440(n: int, q: int, r: int)
    requires n == 1440 * q + r && 0 <= r < 1440
    ensures n / 1440 == q && n % 1440 == r
  {
  }

  /** A minute's day and hour of day, by way of its hour. */
  lemma HourOfMinute(n: int)
    ensures n / 1440 == n / 60 / 24 && n % 1440 / 60 == n / 60 % 24 && n % 1440 % 60 == n % 60
  {
    var h, m := n / 60, n % 60;
    var d, k := h / 24, h % 24;
    By1440(n, d, 60 * k + m);
    By60(60 * k + m, k, m);
  }

  lemma WallAtFields(n: int)
    ensures ValidWallClock(WallAt(n)) && WallClockToNaiveMs(WallAt(n)) == n * MINUTE_MS
    ensures WallAt(n).second == 0 && WallAt(n).minute == n % 60 && WallAt(n).hour == n % 1440 / 60
    ensures 12 * WallAt(n).year + WallAt(n).month - 1 == MonthOf(n / 1440)
    ensures MakeDay(WallAt(n).year, WallAt(n).month, WallAt(n).day) == n / 1440
  {
    hide MonthStart, MonthOf;
    NaiveRoundTrip(n * MINUTE_MS);
    MinuteNumber(n);
    var wc := WallAt(n);
    assert 12 * wc.year + wc.month - 1 == MonthOf(n / 1440);
    assert MakeDay(wc.year, wc.month, wc.day) == n / 1440;
  }

  lemma ByDay(x: int, q: int, r: int)
    requires x == DAY_MS * q + r && 0 <= r < DAY_MS
    ensures x / DAY_MS == q && x % DAY_MS == r
  {
  }

  lemma ByHour(x: int, q: int, r: int)
    requires x == HOUR_MS * q + r && 0 <= r < HOUR_MS
    ensures x / HOUR_MS == q && x % HOUR_MS == r
  {
  }

  lemma ByMinute(x: int, q: int, r: int)
    requires x == MINUTE_MS * q + r && 0 <= r < MINUTE_MS
    ensures x / MINUTE_MS == q && x % MINUTE_MS == r
  {
  }

  /** The day and time of day of a minute's first millisecond. */
  lemma MinuteNumber(n: int)
    ensures n * MINUTE_MS / DAY_MS == n / 1440
    ensures n * MINUTE_MS % DAY_MS == n % 1440 * MINUTE_MS
    ensures n * MINUTE_MS % 1000 == 0
    ensures n % 1440 * MINUTE_MS / HOUR_MS == n % 1440 / 60
    ensures n % 1440 * MINUTE_MS % HOUR_MS == n % 60 * MINUTE_MS
    ensures n % 60 * MINUTE_MS / MINUTE_MS == n % 60
    ensures n % 1440 * MINUTE_MS % MINUTE_MS == 0
  {
    HourOfMinute(n);
    var d, m := n / 1440, n % 1440;
    ByDay(n * MINUTE_MS, d, m * MINUTE_MS);
    ByHour(m * MINUTE_MS, m / 60, m % 60 * MINUTE_MS);
    ByMinute(m % 60 * MINUTE_MS, m % 60, 0);
    ByMinute(m * MINUTE_MS, m, 0);
    WholeSeconds(n);
  }

  lemma WholeSeconds(n: int)
    ensures n * MINUTE_MS % 1000 == 0
  {
    assert n * MINUTE_MS == 1000 * (60 * n);
  }

  lemma AddMinutesAt(n: int, minutes: int)
    ensures AddMinutes(WallAt(n), minutes) == WallAt(n + minutes)
  {
    hide MonthStart, MonthOf;
    NaiveRoundTrip(n * MINUTE_MS);
    MinuteNumber(n);
  }

  lemma FloorToMinuteAt(utcMs: int, zone: Zone)
    ensures FloorToMinute(utcMs, zone) == WallAt((utcMs + zone(utcMs)) / MINUTE_MS)
  {
    hide MonthStart, MonthOf;
    var local := utcMs + zone(utcMs);
    var n, rest := local / MINUTE_MS, local % MINUTE_MS;
    assert local == n * MINUTE_MS + rest;
    MinuteNumber(n);
    SameMinute(local, n, rest);
  }

  lemma SameMinute(local: int, n: int, rest: int)
    requires 0 <= rest < MINUTE_MS && local == n * MINUTE_MS + rest
    ensures local / DAY_MS == n * MINUTE_MS / DAY_MS
    ensures local % DAY_MS / HOUR_MS == n * MINUTE_MS % DAY_MS / HOUR_MS
    ensures local % DAY_MS % HOUR_MS / MINUTE_MS == n * MINUTE_MS % DAY_MS % HOUR_MS / MINUTE_MS
  {
    MinuteNumber(n);
    HourOfMinute(n);
    var m := n % 1440;
    ByDay(local, n / 1440, m * MINUTE_MS + rest);
    ByHour(m * MINUTE_MS + rest, m / 60, m % 60 * MINUTE_MS + rest);
    ByMinute(m % 60 * MINUTE_MS + rest, m % 60, rest);
  }

  lemma StartOfNextHourAt(n: int)
    ensures StartOfNextHour(WallAt(n)) == WallAt((n / 60 + 1) * 60)
  {
    hide MonthStart, MonthOf;
    WallAtFields(n);
    var wc, next := WallAt(n), (n / 60 + 1) * 60;
    HourOfMinute(n);
    assert n / 60 == n / 1440 * 24 + n % 1440 / 60;
    assert DateUtc(wc.year, wc.month, wc.day, wc.hour + 1, 0, 0) == next * MINUTE_MS;
    WallAtFields(next);
    By60(next, n / 60 + 1, 0);
  }

  lemma StartOfNextDayAt(n: int)
    ensures StartOfNextDay(WallAt(n)) == WallAt((n / 1440 + 1) * 1440)
  {
    hide MonthStart, MonthOf;
    WallAtFields(n);
    var wc, next := WallAt(n), (n / 1440 + 1) * 1440;
    assert DateUtc(wc.year, wc.month, wc.day + 1, 0, 0, 0) == next * MINUTE_MS;
    WallAtFields(next);
    By1440(next, n / 1440 + 1, 0);
    HourOfMinute(next);
  }

  lemma StartOfNextMonthAt(n: int)
    ensures StartOfNextMonth(WallAt(n)) == WallAt(1440 * MonthStart(MonthOf(n / 1440) + 1))
  {
    WallAtFields(n);
    hide MonthStart, MonthOf;
    var index := MonthOf(n / 1440) + 1;
    var next := 1440 * MonthStart(index);
    WallAtFields(next);
    MonthLength(index);
    By1440(next, MonthStart(index), 0);
    HourOfMinute(next);
    MonthOfUnique(next / 1440, index);
    var wc, w := StartOfNextMonth(WallAt(n)), WallAt(next);
    assert 12 * wc.year + wc.month - 1 == index == 12 * w.year + w.month - 1;
    assert w.day == 1;
  }
}
