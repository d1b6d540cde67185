/** From a schedule to the next instant to fire: a search over local wall-clock minutes that
    converts to UTC only once a candidate matches. */
module NextRun {
  import opened Calendar
  import opened Cron
  import opened Ticks
  import opened TimeZone

  const MAX_STEPS := 200_000
  const HORIZON_MS := 5 * 366 * DAY_MS

  datatype RunResult = Run(at: int) | NoNextRun

  // -------------------------------------------------------------- the search ---

  predicate Matches(f: CronFields, wc: WallClock) {
    && wc.month in f.months
    && MatchesDay(f, wc.day, WallClockDayOfWeek(wc))
    && wc.hour in f.hours
    && wc.minute in f.minutes
  }

  /** What a schedule asks of a wall clock: its minute, hour and month, and a day that meets either day field when both
      are restricted and otherwise the one that is. The day of the week is given in closed form. */
  lemma MatchesMeaning(f: CronFields, wc: WallClock)
    requires 1 <= wc.month <= 12
    ensures var y := if wc.month < 3 then wc.year - 1 else wc.year;
      var dayOfWeek := (y + y / 4 - y / 100 + y / 400 + MonthOffset(wc.month) + wc.day) % 7;
      Matches(f, wc) <==>
        && wc.minute in f.minutes && wc.hour in f.hours && wc.month in f.months
        && (f.domRestricted && f.dowRestricted ==> wc.day in f.daysOfMonth || dayOfWeek in f.daysOfWeek)
        && (f.domRestricted && !f.dowRestricted ==> wc.day in f.daysOfMonth)
        && (f.dowRestricted && !f.domRestricted ==> dayOfWeek in f.daysOfWeek)
  {
    DayOfWeekClosedForm(wc);
    hide WallClockDayOfWeek, MonthOffset;
  }

  /** The wall clock the search looks at after `wc`. */
  function NextCandidate(f: CronFields, wc: WallClock): WallClock {
    if wc.month !in f.months then StartOfNextMonth(wc)
    else if !MatchesDay(f, wc.day, WallClockDayOfWeek(wc)) then StartOfNextDay(wc)
    else if wc.hour !in f.hours then StartOfNextHour(wc)
    else AddMinutes(wc, 1)
  }

  /** The first listed instant after `after`. */
  function FindAfter(instants: seq<int>, after: int): (r: RunResult)
    ensures r.Run? ==> r.at in instants && r.at > after
    ensures r.NoNextRun? ==> forall t :: t in instants ==> t <= after
  {
    if instants == [] then NoNextRun
    else if instants[0] > after then Run(instants[0])
    else
      assert instants == [instants[0]] + instants[1..];
      FindAfter(instants[1..], after)
  }

  function SearchFrom(f: CronFields, zone: Zone, after: int, horizon: int, wc: WallClock, steps: nat): RunResult
    decreases steps
  {
    if steps == 0 then NoNextRun
    else if !Matches(f, wc) then SearchFrom(f, zone, after, horizon, NextCandidate(f, wc), steps - 1)
    else
      var found := FindAfter(Instants(wc, zone), after);
      if found.NoNextRun? then SearchFrom(f, zone, after, horizon, AddMinutes(wc, 1), steps - 1)
      else if found.at > horizon then NoNextRun
      else found
  }

  /** What `nextCronRun` answers; `NoNextRun` stands for the error it throws. */
  function NextCron(f: CronFields, zone: Zone, after: int): RunResult {
    SearchFrom(f, zone, after, after + HORIZON_MS, AddMinutes(FloorToMinute(after, zone), 1), MAX_STEPS)
  }

  method Search(f: CronFields, zone: Zone, afterMs: int) returns (r: RunResult)
    ensures r == NextCron(f, zone, afterMs)
  {
    var horizonMs := afterMs + HORIZON_MS;
    var wc := AddMinutes(FloorToMinute(afterMs, zone), 1);
    hide Matches, Instants, AddMinutes, FloorToMinute, StartOfNextMonth, StartOfNextDay, StartOfNextHour;
    var step := 0;
    while step < MAX_STEPS
      invariant 0 <= step <= MAX_STEPS
      invariant SearchFrom(f, zone, afterMs, horizonMs, wc, MAX_STEPS - step) == NextCron(f, zone, afterMs)
    {
      step := step + 1;
      if !Matches(f, wc) {
        wc := NextCandidate(f, wc);
        continue;
      }
      var instants := FromWallClock(wc, zone);
      var firstAfter := FindAfter(instants, afterMs);
      if firstAfter.Run? {
        if firstAfter.at > horizonMs {
          return NoNextRun;
        }
        return firstAfter;
      }
      wc := AddMinutes(wc, 1);
    }
    return NoNextRun;
  }

  // ------------------------------------------------ the search on minute numbers ---

  /** The minute number of `NextCandidate`. */
  function Advance(f: CronFields, n: int): int {
    var wc := WallAt(n);
    if wc.month !in f.months then 1440 * MonthStart(MonthOf(n / 1440) + 1)
    else if !MatchesDay(f, wc.day, WallClockDayOfWeek(wc)) then (n / 1440 + 1) * 1440
    else if wc.hour !in f.hours then (n / 60 + 1) * 60
    else n + 1
  }

  lemma NextCandidateAt(f: CronFields, n: int)
    ensures NextCandidate(f, WallAt(n)) == WallAt(Advance(f, n))
  {
    StartOfNextMonthAt(n);
    StartOfNextDayAt(n);
    StartOfNextHourAt(n);
    AddMinutesAt(n, 1);
    hide WallAt, StartOfNextMonth, StartOfNextDay, StartOfNextHour, AddMinutes, MonthStart, MonthOf, MatchesDay;
  }

  lemma SameDayFields(a: int, b: int)
    requires a / 1440 == b / 1440
    ensures WallAt(a).month == WallAt(b).month && WallAt(a).day == WallAt(b).day
    ensures WallClockDayOfWeek(WallAt(a)) == WallClockDayOfWeek(WallAt(b))
  {
    WallAtFields(a);
    WallAtFields(b);
    hide WallAt, MonthOf, MonthStart;
  }

  lemma SameMonthField(a: int, b: int)
    requires MonthOf(a / 1440) == MonthOf(b / 1440)
    ensures WallAt(a).month == WallAt(b).month
  {
    WallAtFields(a);
    WallAtFields(b);
    hide WallAt, MonthOf, MonthStart;
  }

  lemma DayBetween(n: int, k: int, day: int)
    ensures n / 1440 < day <==> n < 1440 * day
    ensures n <= k ==> n / 1440 <= k / 1440
  {
  }

  lemma SameMonthBefore(n: int, k: int)
    requires n < k < 1440 * MonthStart(MonthOf(n / 1440) + 1)
    ensures WallAt(k).month == WallAt(n).month
  {
    hide WallAt, MonthStart, MonthOf;
    DayBetween(n, k, MonthStart(MonthOf(n / 1440) + 1));
    DayBetween(k, k, MonthStart(MonthOf(n / 1440) + 1));
    MonthOfUnique(k / 1440, MonthOf(n / 1440));
    SameMonthField(n, k);
  }

  lemma SameDayBefore(n: int, k: int)
    requires n < k < (n / 1440 + 1) * 1440
    ensures n / 1440 == k / 1440
  {
    By1440(k, n / 1440, k - 1440 * (n / 1440));
  }

  lemma SameHourBefore(n: int, k: int)
    requires n < k < (n / 60 + 1) * 60
    ensures n / 1440 == k / 1440 && WallAt(n).hour == WallAt(k).hour
  {
    SameHour(n, k);
    WallAtFields(n);
    WallAtFields(k);
    hide WallAt, MonthOf, MonthStart, MakeDay, ValidWallClock, WallClockToNaiveMs;
  }

  lemma AdvanceMovesOn(f: CronFields, n: int)
    ensures n < Advance(f, n)
  {
    hide WallAt, MonthStart, MonthOf, MatchesDay, WallClockDayOfWeek;
    DayBetween(n, n, MonthStart(MonthOf(n / 1440) + 1));
    DayBetween(n, n, n / 1440 + 1);
  }

  /** Every jump moves forward and passes no matching minute. */
  lemma AdvanceSkipsNoMatch(f: CronFields, n: int)
    ensures n < Advance(f, n)
    ensures forall k :: n < k < Advance(f, n) ==> !Matches(f, WallAt(k))
  {
    hide WallAt, MonthStart, MonthOf, MatchesDay, WallClockDayOfWeek;
    AdvanceMovesOn(f, n);
    var wc := WallAt(n);
    forall k | n < k < Advance(f, n) ensures !Matches(f, WallAt(k)) {
      if wc.month !in f.months {
        SameMonthBefore(n, k);
      } else if !MatchesDay(f, wc.day, WallClockDayOfWeek(wc)) {
        SameDayBefore(n, k);
        SameDayFields(n, k);
      } else if wc.hour !in f.hours {
        SameHourBefore(n, k);
        SameDayFields(n, k);
      }
    }
  }

  lemma SameHour(n: int, k: int)
    requires n <= k < (n / 60 + 1) * 60
    ensures n / 1440 == k / 1440 && n % 1440 / 60 == k % 1440 / 60
  {
    assert n / 60 == k / 60 by { By60(k, n / 60, k - 60 * (n / 60)); }
    HourOfMinute(n);
    HourOfMinute(k);
  }

  // --------------------------------------------------------- what holds in any zone ---

  /** The local minute an instant falls in. */
  function LocalMinute(t: int, zone: Zone): int {
    (t + zone(t)) / MINUTE_MS
  }

  /** Local minute `n` matches and has an occurrence after `after`. */
  predicate Fires(f: CronFields, zone: Zone, after: int, n: int) {
    Matches(f, WallAt(n)) && FindAfter(Instants(WallAt(n), zone), after).Run?
  }

  /** `t` is the first occurrence after `after` of local minute `m`, and no local minute from `n` up to
      `m` fires. */
  ghost predicate FirstFiring(f: CronFields, zone: Zone, after: int, n: int, m: int, t: int) {
    && n <= m
    && Fires(f, zone, after, m)
    && FindAfter(Instants(WallAt(m), zone), after) == Run(t)
    && forall k :: n <= k < m ==> !Fires(f, zone, after, k)
  }

  lemma {:induction false} SearchFromFindsFirst(f: CronFields, zone: Zone, after: int, horizon: int, n: int, steps: nat)
      returns (m: int)
    requires SearchFrom(f, zone, after, horizon, WallAt(n), steps).Run?
    ensures var t := SearchFrom(f, zone, after, horizon, WallAt(n), steps).at;
      t <= horizon && FirstFiring(f, zone, after, n, m, t)
    decreases steps
  {
    hide WallAt, Matches, Instants, Advance, NextCandidate, AddMinutes, FindAfter;
    if Fires(f, zone, after, n) {
      m := n;
    } else {
      var next := if Matches(f, WallAt(n)) then n + 1 else Advance(f, n);
      NextCandidateAt(f, n);
      AddMinutesAt(n, 1);
      AdvanceSkipsNoMatch(f, n);
      m := SearchFromFindsFirst(f, zone, after, horizon, next, steps - 1);
    }
  }

  lemma FirstCandidateAt(zone: Zone, after: int)
    ensures AddMinutes(FloorToMinute(after, zone), 1) == WallAt(LocalMinute(after, zone) + 1)
  {
    FloorToMinuteAt(after, zone);
    AddMinutesAt(LocalMinute(after, zone), 1);
  }

  /** The result is strictly after `after` both as an instant and as a local reading, it reads as a
      matching minute exactly, and no matching minute in between has an occurrence after `after`. */
  lemma NextCronIsFirstInWallClockOrder(f: CronFields, zone: Zone, after: int)
    requires NextCron(f, zone, after).Run?
    ensures var t := NextCron(f, zone, after).at;
      && after < t <= after + HORIZON_MS
      && LocalMinute(after, zone) < LocalMinute(t, zone)
      && ToWallClock(t, zone) == WallAt(LocalMinute(t, zone))
      && FirstFiring(f, zone, after, LocalMinute(after, zone) + 1, LocalMinute(t, zone), t)
  {
    FirstCandidateAt(zone, after);
    var t := NextCron(f, zone, after).at;
    var m := SearchFromFindsFirst(f, zone, after, after + HORIZON_MS, LocalMinute(after, zone) + 1, MAX_STEPS);
    assert t in Instants(WallAt(m), zone);
    assert ToWallClock(t, zone) == WallAt(m);
    ReadingDeterminesMinute(t, zone, m);
  }

  lemma ReadingDeterminesMinute(t: int, zone: Zone, m: int)
    requires ToWallClock(t, zone) == WallAt(m)
    ensures LocalMinute(t, zone) == m
  {
    NaiveRoundTrip(t + zone(t));
    WallAtFields(m);
    hide WallAt, NaiveMsToWallClock, WallClockToNaiveMs, ValidWallClock, MonthOf;
    var local := t + zone(t);
    assert local == m * MINUTE_MS + local % 1000;
  }

  /** Each run computed from the one before it. */
  ghost predicate Chain(f: CronFields, zone: Zone, runs: seq<int>) {
    forall i :: 0 < i < |runs| ==> NextCron(f, zone, runs[i - 1]) == Run(runs[i])
  }

  /** Along a chain both the instants and the local readings strictly increase, in any zone: a local
      time repeated by a fall-back fires once, and every run reads as a real matching minute. */
  lemma {:induction false} ChainStrictlyIncreases(f: CronFields, zone: Zone, runs: seq<int>, i: int, j: int)
    requires Chain(f, zone, runs) && 0 <= i < j < |runs|
    ensures runs[i] < runs[j]
    ensures LocalMinute(runs[i], zone) < LocalMinute(runs[j], zone)
    ensures ToWallClock(runs[j], zone) == WallAt(LocalMinute(runs[j], zone))
    ensures Matches(f, ToWallClock(runs[j], zone))
    decreases j
  {
    hide WallAt, ToWallClock, Matches, Instants, LocalMinute, NextCron;
    assert NextCron(f, zone, runs[j - 1]) == Run(runs[j]);
    NextCronIsFirstInWallClockOrder(f, zone, runs[j - 1]);
    if i < j - 1 {
      ChainStrictlyIncreases(f, zone, runs, i, j - 1);
    }
  }

  /** No run is lost between consecutive runs of a chain: near at most one transition, a matching
      local minute between their readings has no occurrence after the earlier run. */
  lemma ChainSkipsNothing(f: CronFields, zone: Zone, runs: seq<int>, i: int, n: int, t: int,
                          at: int, before: int, since: int)
    requires Chain(f, zone, runs) && 0 < i < |runs|
    requires LocalMinute(runs[i - 1], zone) < n < LocalMinute(runs[i], zone) && Matches(f, WallAt(n))
    requires ValidZone(zone) && OneTransitionNear(zone, n * MINUTE_MS, at, before, since)
    requires t % 1000 == 0 && ToWallClock(t, zone) == WallAt(n)
    ensures t <= runs[i - 1]
  {
    WallAtFields(n);
    hide WallAt, ToWallClock, Matches, LocalMinute, NextCron, Instants, WallClockToNaiveMs, MonthOf, ValidWallClock;
    NextCronIsFirstInWallClockOrder(f, zone, runs[i - 1]);
    assert !Fires(f, zone, runs[i - 1], n);
    FromWallClockExact(WallAt(n), zone, at, before, since);
    assert t in Instants(WallAt(n), zone);
  }

  // ------------------------------------------------------- the step budget suffices ---

  ghost predicate NoMatchBetween(f: CronFields, n: int, target: int) {
    forall k :: n <= k < target ==> !Matches(f, WallAt(k))
  }

  lemma HourHasMatch(f: CronFields, n: int) returns (k: int)
    requires ValidFields(f)
    requires WallAt(n).month in f.months && MatchesDay(f, WallAt(n).day, WallClockDayOfWeek(WallAt(n)))
    requires WallAt(n).hour in f.hours
    ensures k / 60 == n / 60 && Matches(f, WallAt(k))
  {
    var m := SomeMember(f.minutes);
    k := n / 60 * 60 + m;
    By60(k, n / 60, m);
    HourOfMinute(n);
    HourOfMinute(k);
    SameDayFields(n, k);
    WallAtFields(n);
    WallAtFields(k);
    hide WallAt, MatchesDay, WallClockDayOfWeek, MonthOf;
  }

  lemma HourStart(day: int, hour: int) returns (n: int)
    requires 0 <= hour < 24
    ensures n / 1440 == day && n % 1440 / 60 == hour && n / 60 * 60 == n
  {
    n := day * 1440 + hour * 60;
    assert n == (day * 24 + hour) * 60;
  }

  lemma DayHasMatch(f: CronFields, n: int) returns (k: int)
    requires ValidFields(f)
    requires WallAt(n).month in f.months && MatchesDay(f, WallAt(n).day, WallClockDayOfWeek(WallAt(n)))
    ensures k / 1440 == n / 1440 && Matches(f, WallAt(k))
  {
    hide WallAt, MatchesDay, WallClockDayOfWeek, MonthOf, Matches, MakeDay, ValidWallClock, WallClockToNaiveMs;
    var h := SomeMember(f.hours);
    var start := HourStart(n / 1440, h);
    SameDayFields(n, start);
    WallAtFields(start);
    k := HourHasMatch(f, start);
    SameHour(start, k);
  }

  /** Upper bound on the iterations left before the search at minute `n` reaches the least match. */
  function Budget(n: int, target: int): int {
    var toNextHour := if n % 60 == 0 then 0 else 60 - n % 60;
    if n / 1440 < target / 1440 then
      (target / 1440 - n / 1440) + 84 + (if n % 1440 == 0 then 0 else 24 - n % 1440 / 60) + toNextHour
    else if n / 60 < target / 60 then
      60 + (target / 60 - n / 60) + toNextHour
    else target - n
  }

  lemma AdvanceToDay(n: int, day: int, target: int)
    requires n / 1440 < day && 1440 * day <= target
    ensures 0 <= Budget(1440 * day, target) < Budget(n, target)
  {
    By1440(1440 * day, day, 0);
    By60(1440 * day, 24 * day, 0);
    DayBetween(target, target, day);
    HourOfMinute(target);
    HourOfMinute(n);
    if day == target / 1440 {
      assert target / 60 - 24 * day == target % 1440 / 60;
    }
  }

  lemma AdvanceToHour(n: int, target: int)
    requires (n / 60 + 1) * 60 <= target
    requires n / 1440 < target / 1440 ==> n % 1440 != 0
    ensures 0 <= Budget((n / 60 + 1) * 60, target) < Budget(n, target)
  {
    var next := (n / 60 + 1) * 60;
    By60(next, n / 60 + 1, 0);
    HourOfMinute(n);
    HourOfMinute(next);
    HourOfMinute(target);
    assert next % 1440 == (n / 60 + 1) % 24 * 60;
    if n / 60 % 24 == 23 {
      assert (n / 60 + 1) / 24 == n / 60 / 24 + 1 && (n / 60 + 1) % 24 == 0;
    } else {
      assert (n / 60 + 1) / 24 == n / 60 / 24 && (n / 60 + 1) % 24 == n / 60 % 24 + 1;
    }
  }

  lemma AdvanceMinute(n: int, target: int)
    requires n < target
    requires n / 60 < target / 60 ==> n % 60 != 0
    ensures 0 <= Budget(n + 1, target) < Budget(n, target)
  {
    HourOfMinute(n);
    HourOfMinute(n + 1);
    HourOfMinute(target);
    if n / 60 < target / 60 && n % 60 == 59 {
      assert (n / 60 + 1) * 60 == n + 1;
      AdvanceToHour(n, target);
    } else {
      By60(n + 1, n / 60, n % 60 + 1);
    }
  }

  /** Each iteration short of the least match uses up budget. */
  lemma AdvanceUsesBudget(f: CronFields, n: int, target: int)
    requires ValidFields(f) && n < target && Matches(f, WallAt(target)) && NoMatchBetween(f, n, target)
    ensures n < Advance(f, n) <= target
    ensures 0 <= Budget(Advance(f, n), target) < Budget(n, target)
  {
    AdvanceSkipsNoMatch(f, n);
    hide WallAt, MonthStart, MonthOf, MatchesDay, WallClockDayOfWeek, Budget;
    var wc := WallAt(n);
    assert Advance(f, n) <= target;
    if wc.month !in f.months {
      var day := MonthStart(MonthOf(n / 1440) + 1);
      AdvanceToDay(n, day, target);
    } else if !MatchesDay(f, wc.day, WallClockDayOfWeek(wc)) {
      AdvanceToDay(n, n / 1440 + 1, target);
    } else if wc.hour !in f.hours {
      if n % 1440 == 0 {
        var k := DayHasMatch(f, n);
        assert n <= k && !(k < target);
      }
      AdvanceToHour(n, target);
    } else {
      if n % 60 == 0 {
        var k := HourHasMatch(f, n);
        assert n <= k && !(k < target);
      }
      AdvanceMinute(n, target);
    }
  }

  lemma BudgetNonNegative(n: int, target: int)
    requires n <= target
    ensures 0 <= Budget(n, target) <= target / 1440 - n / 1440 + 168
  {
    HourOfMinute(n);
    HourOfMinute(target);
    assert n / 1440 <= target / 1440;
    if n / 1440 == target / 1440 {
      assert target / 60 - n / 60 <= 23;
    }
  }

  lemma FixedOffsetInstantOfMinute(n: int, zone: Zone, offset: int)
    requires ValidZone(zone) && FixedOffset(zone, offset)
    ensures Instants(WallAt(n), zone) == [n * MINUTE_MS - offset]
  {
    hide WallAt, Instants, WallClockToNaiveMs, ValidWallClock, MonthOf, MonthStart, MakeDay, ValidZone;
    WallAtFields(n);
    FixedOffsetInstants(WallAt(n), zone, offset);
  }

  /** The search reaches the least match when it occurs after `after` and by the horizon. */
  lemma {:induction false} SearchReaches(f: CronFields, zone: Zone, offset: int, after: int, horizon: int,
                                         n: int, target: int, steps: nat)
    requires ValidFields(f) && ValidZone(zone) && FixedOffset(zone, offset)
    requires n <= target && Matches(f, WallAt(target)) && NoMatchBetween(f, n, target)
    requires after < target * MINUTE_MS - offset <= horizon
    requires Budget(n, target) < steps
    ensures SearchFrom(f, zone, after, horizon, WallAt(n), steps) == Run(target * MINUTE_MS - offset)
    decreases steps
  {
    hide WallAt, Matches, Instants, Advance, NextCandidate, AddMinutes, Budget;
    BudgetNonNegative(n, target);
    if n == target {
      FixedOffsetInstantOfMinute(n, zone, offset);
    } else {
      NextCandidateAt(f, n);
      AdvanceUsesBudget(f, n, target);
      SearchReaches(f, zone, offset, after, horizon, Advance(f, n), target, steps - 1);
    }
  }

  // ------------------------------------------------------- fixed-offset zones, exactly ---

  /** The schedule fires at `t`: `t` begins a matching local minute. */
  predicate FiresAt(f: CronFields, offset: int, t: int) {
    (t + offset) % MINUTE_MS == 0 && Matches(f, WallAt((t + offset) / MINUTE_MS))
  }

  ghost predicate NoneFires(f: CronFields, offset: int, after: int, until: int) {
    forall u :: after < u <= until ==> !FiresAt(f, offset, u)
  }

  lemma {:induction false} LeastMatch(f: CronFields, n: int, hi: int) returns (target: int)
    requires n <= hi && Matches(f, WallAt(hi))
    ensures n <= target <= hi && Matches(f, WallAt(target)) && NoMatchBetween(f, n, target)
    decreases hi - n
  {
    hide WallAt, Matches;
    if Matches(f, WallAt(n)) {
      target := n;
    } else {
      target := LeastMatch(f, n + 1, hi);
    }
  }

  lemma MinuteOfInstant(t: int, offset: int, after: int)
    requires (t + offset) % MINUTE_MS == 0 && after < t
    ensures (t + offset) / MINUTE_MS * MINUTE_MS == t + offset
    ensures (after + offset) / MINUTE_MS + 1 <= (t + offset) / MINUTE_MS
  {
  }

  lemma TargetWithinBudget(n: int, target: int, offset: int, after: int)
    requires n == (after + offset) / MINUTE_MS + 1 && n <= target && target * MINUTE_MS - offset <= after + HORIZON_MS
    ensures after < target * MINUTE_MS - offset
    ensures Budget(n, target) < MAX_STEPS
  {
    hide Budget;
    BudgetNonNegative(n, target);
    assert target - n <= 5 * 366 * 1440;
  }

  /** A match within the horizon leads the search to the least match. */
  lemma SearchFindsLeastMatch(f: CronFields, zone: Zone, offset: int, after: int, hi: int) returns (target: int)
    requires ValidFields(f) && ValidZone(zone) && FixedOffset(zone, offset)
    requires LocalMinute(after, zone) + 1 <= hi && Matches(f, WallAt(hi)) && hi * MINUTE_MS - offset <= after + HORIZON_MS
    ensures LocalMinute(after, zone) + 1 <= target <= hi && Matches(f, WallAt(target))
    ensures NoMatchBetween(f, LocalMinute(after, zone) + 1, target)
    ensures NextCron(f, zone, after) == Run(target * MINUTE_MS - offset)
  {
    hide WallAt, Matches, SearchFrom, Budget, NoMatchBetween;
    FirstCandidateAt(zone, after);
    hide AddMinutes, FloorToMinute;
    var n := LocalMinute(after, zone) + 1;
    target := LeastMatch(f, n, hi);
    TargetWithinBudget(n, target, offset, after);
    SearchReaches(f, zone, offset, after, after + HORIZON_MS, n, target, MAX_STEPS);
  }

  lemma FiringIsMinute(f: CronFields, zone: Zone, offset: int, after: int, u: int) returns (minute: int)
    requires FixedOffset(zone, offset) && FiresAt(f, offset, u) && after < u
    ensures minute * MINUTE_MS - offset == u && Matches(f, WallAt(minute)) && LocalMinute(after, zone) + 1 <= minute
  {
    hide WallAt, Matches;
    MinuteOfInstant(u, offset, after);
    minute := (u + offset) / MINUTE_MS;
  }

  lemma MinuteFires(f: CronFields, zone: Zone, offset: int, after: int, minute: int)
    requires FixedOffset(zone, offset) && Matches(f, WallAt(minute)) && LocalMinute(after, zone) + 1 <= minute
    requires NoMatchBetween(f, LocalMinute(after, zone) + 1, minute)
    ensures var t := minute * MINUTE_MS - offset;
      after < t && FiresAt(f, offset, t) && NoneFires(f, offset, after, t - 1)
  {
    hide WallAt, Matches, NoMatchBetween, NoneFires;
    NoneFiresBefore(f, offset, after, LocalMinute(after, zone) + 1, minute);
  }

  lemma SearchFindsFiring(f: CronFields, zone: Zone, offset: int, after: int, u: int)
    requires ValidFields(f) && ValidZone(zone) && FixedOffset(zone, offset)
    requires FiresAt(f, offset, u) && after < u <= after + HORIZON_MS
    ensures NextCron(f, zone, after).Run?
    ensures var t := NextCron(f, zone, after).at;
      after < t <= u && FiresAt(f, offset, t) && NoneFires(f, offset, after, t - 1)
  {
    hide WallAt, Matches, NextCron, FiresAt, NoneFires, NoMatchBetween, LocalMinute;
    var hi := FiringIsMinute(f, zone, offset, after, u);
    var target := SearchFindsLeastMatch(f, zone, offset, after, hi);
    MinuteFires(f, zone, offset, after, target);
  }

  lemma NoneFiresBefore(f: CronFields, offset: int, after: int, n: int, target: int)
    requires n == (after + offset) / MINUTE_MS + 1 && NoMatchBetween(f, n, target)
    ensures NoneFires(f, offset, after, target * MINUTE_MS - offset - 1)
  {
    hide WallAt, Matches;
    forall v | after < v < target * MINUTE_MS - offset ensures !FiresAt(f, offset, v) {
      if (v + offset) % MINUTE_MS == 0 {
        MinuteOfInstant(v, offset, after);
      }
    }
  }

  /** In a fixed-offset zone the search answers the least firing minute strictly after `after`, and it
      fails exactly when there is none within the horizon. */
  lemma FixedOffsetSearchExact(f: CronFields, zone: Zone, offset: int, after: int)
    requires ValidFields(f) && ValidZone(zone) && FixedOffset(zone, offset)
    ensures NextCron(f, zone, after).NoNextRun? <==> NoneFires(f, offset, after, after + HORIZON_MS)
    ensures NextCron(f, zone, after).Run? ==>
      var t := NextCron(f, zone, after).at;
      after < t <= after + HORIZON_MS && FiresAt(f, offset, t) && NoneFires(f, offset, after, t - 1)
  {
    hide WallAt, Matches, NextCron, FiresAt;
    if NextCron(f, zone, after).Run? {
      NextCronIsFirstInWallClockOrder(f, zone, after);
      var t := NextCron(f, zone, after).at;
      RunFires(f, zone, offset, after);
      SearchFindsFiring(f, zone, offset, after, t);
    } else {
      forall u | after < u <= after + HORIZON_MS ensures !FiresAt(f, offset, u) {
        if FiresAt(f, offset, u) {
          SearchFindsFiring(f, zone, offset, after, u);
        }
      }
    }
  }

  lemma RunFires(f: CronFields, zone: Zone, offset: int, after: int)
    requires ValidZone(zone) && FixedOffset(zone, offset) && NextCron(f, zone, after).Run?
    ensures FiresAt(f, offset, NextCron(f, zone, after).at)
  {
    hide WallAt, Matches, NextCron, Instants, ToWallClock, ValidZone;
    NextCronIsFirstInWallClockOrder(f, zone, after);
    var t := NextCron(f, zone, after).at;
    var m := LocalMinute(t, zone);
    FixedOffsetInstantOfMinute(m, zone, offset);
    assert Fires(f, zone, after, m);
    assert FindAfter(Instants(WallAt(m), zone), after).at in Instants(WallAt(m), zone);
    assert t == m * MINUTE_MS - offset;
  }

  // ------------------------------------------------------ inside a repeated hour ---

  /** An answer with no occurrence listed before it is the first of its reading exactly when none has gone by. */
  lemma FirstUnlessGoneBy(f: CronFields, zone: Zone, after: int, at: int, before: int, since: int)
    requires NextCron(f, zone, after).Run? && ValidZone(zone)
    requires var wc := ToWallClock(NextCron(f, zone, after).at, zone);
      OneTransitionNear(zone, WallClockToNaiveMs(wc), at, before, since)
    ensures var t := NextCron(f, zone, after).at; var wc := ToWallClock(t, zone);
      IsFirstOccurrence(zone, t) <==> (forall u :: u % 1000 == 0 && ToWallClock(u, zone) == wc ==> after < u)
  {
    hide NextCron, ToWallClock, Instants, OneTransitionNear, ValidZone, Matches;
    NextCronIsFirstInWallClockOrder(f, zone, after);
    var t := NextCron(f, zone, after).at;
    var wc := ToWallClock(t, zone);
    FromWallClockExact(wc, zone, at, before, since);
    FindAfterIsLeast(Instants(wc, zone), after);
    assert t in Instants(wc, zone);
  }

  /** No earlier instant has the same local reading. */
  ghost predicate IsFirstOccurrence(zone: Zone, t: int) {
    forall u :: u % 1000 == 0 && ToWallClock(u, zone) == ToWallClock(t, zone) ==> t <= u
  }

  const QUIET_MS := 4 * PROBE_MS

  /** At most one change of offset within 104 hours of an instant: from `before` to `since`, at `at`. Without one,
      `at` lies after those hours. */
  ghost predicate QuietAround(zone: Zone, t: int, at: int, before: int, since: int) {
    t - QUIET_MS < at && forall u :: t - QUIET_MS <= u <= t + QUIET_MS ==> zone(u) == if u < at then before else since
  }

  /** Changes of offset are never closer together than that. */
  ghost predicate SparseTransitions(zone: Zone) {
    forall t: int :: IsQuietAround(zone, t)
  }

  ghost predicate IsQuietAround(zone: Zone, t: int) {
    exists at, before, since :: QuietAround(zone, t, at, before, since)
  }

  /** The change has happened, and some matching local minute later than the one now showed before it too. */
  ghost predicate MatchLeftInSecondPass(f: CronFields, zone: Zone, after: int, at: int, before: int) {
    at <= after && exists n :: RepeatsAhead(f, zone, after, at, before, n)
  }

  ghost predicate RepeatsAhead(f: CronFields, zone: Zone, after: int, at: int, before: int, n: int) {
    LocalMinute(after, zone) < n && n * MINUTE_MS - before < at && Matches(f, WallAt(n))
  }

  lemma OffsetBounds(zone: Zone, t: int)
    requires ValidZone(zone)
    ensures zone(t) % 1000 == 0 && -PROBE_MS < zone(t) < PROBE_MS
  {
  }

  /** Minute `n` reads at `u` exactly when `u` is the minute less the offset there. */
  lemma ReadsAt(zone: Zone, n: int, u: int)
    requires ValidZone(zone) && u % 1000 == 0
    ensures ToWallClock(u, zone) == WallAt(n) <==> u == n * MINUTE_MS - zone(u)
  {
    hide WallAt, ToWallClock, WallClockToNaiveMs, ValidWallClock, MonthOf, MakeDay;
    WallAtFields(n);
    OffsetBounds(zone, u);
    OccurrenceOffset(u, WallAt(n), zone);
  }

  lemma MinutesAreWholeSeconds(n: int, offset: int)
    requires offset % 1000 == 0
    ensures (n * MINUTE_MS - offset) % 1000 == 0
  {
    assert n * MINUTE_MS - offset == 1000 * (60 * n - offset / 1000);
  }

  lemma LaterMinute(after: int, offset: int, n: int)
    ensures (after + offset) / MINUTE_MS < n <==> after + offset < n * MINUTE_MS
  {
  }

  /** An occurrence, gone by, of a minute later than the one showing lies before a change of offset that has
      happened since. */
  lemma GoneByIsBeforeChange(zone: Zone, after: int, at: int, before: int, since: int, n: int, u: int)
    requires ValidZone(zone) && QuietAround(zone, after, at, before, since)
    requires LocalMinute(after, zone) < n && u == n * MINUTE_MS - zone(u) && u <= after
    ensures at <= after && u < at && u == n * MINUTE_MS - before
  {
    OffsetBounds(zone, u);
    OffsetBounds(zone, after);
    LaterMinute(after, zone(after), n);
    hide ValidZone;
  }

  lemma GoneByRepeats(f: CronFields, zone: Zone, after: int, at: int, before: int, since: int, n: int, u: int)
    requires ValidZone(zone) && QuietAround(zone, after, at, before, since) && Matches(f, WallAt(n))
    requires LocalMinute(after, zone) < n && u == n * MINUTE_MS - zone(u) && u <= after
    ensures MatchLeftInSecondPass(f, zone, after, at, before)
  {
    hide Matches, WallAt, LocalMinute;
    GoneByIsBeforeChange(zone, after, at, before, since, n, u);
    assert RepeatsAhead(f, zone, after, at, before, n);
  }

  /** A minute that repeats ahead has one occurrence gone by and one still to come. */
  lemma RepeatOccursTwice(f: CronFields, zone: Zone, after: int, at: int, before: int, since: int, n: int)
    requires ValidZone(zone) && QuietAround(zone, after, at, before, since) && at <= after
    requires RepeatsAhead(f, zone, after, at, before, n)
    ensures before % 1000 == 0 && since % 1000 == 0
    ensures zone(n * MINUTE_MS - before) == before && n * MINUTE_MS - before < at
    ensures zone(n * MINUTE_MS - since) == since && after < n * MINUTE_MS - since
  {
    hide Matches, WallAt;
    assert zone(at - 1) == before;
    assert zone(after) == since;
    OffsetBounds(zone, after);
    LaterMinute(after, since, n);
    var u := n * MINUTE_MS - before;
    OffsetBounds(zone, at - 1);
    hide ValidZone;
  }

  /** Quiet around an instant is one change at most near the minute it reads. */
  lemma QuietIsNear(zone: Zone, t: int, n: int) returns (at: int, before: int, since: int)
    requires ValidZone(zone) && SparseTransitions(zone) && t == n * MINUTE_MS - zone(t)
    ensures OneTransitionNear(zone, n * MINUTE_MS, at, before, since)
  {
    OffsetBounds(zone, t);
    assert IsQuietAround(zone, t);
    at, before, since :| QuietAround(zone, t, at, before, since);
    hide ValidZone;
  }

  /** Every occurrence of a local minute is among its instants. */
  lemma OccurrenceIsInstant(zone: Zone, n: int, u: int)
    requires ValidZone(zone) && SparseTransitions(zone) && u % 1000 == 0 && u == n * MINUTE_MS - zone(u)
    ensures Ascending(Instants(WallAt(n), zone)) && u in Instants(WallAt(n), zone)
  {
    hide WallAt, ToWallClock, Instants, SparseTransitions, WallClockToNaiveMs, ValidWallClock, MonthOf, MakeDay;
    WallAtFields(n);
    var at, before, since := QuietIsNear(zone, u, n);
    FromWallClockExact(WallAt(n), zone, at, before, since);
    ReadsAt(zone, n, u);
  }

  lemma OccurrenceAheadFires(f: CronFields, zone: Zone, after: int, n: int, u: int)
    requires ValidZone(zone) && SparseTransitions(zone) && Matches(f, WallAt(n))
    requires u % 1000 == 0 && u == n * MINUTE_MS - zone(u) && after < u
    ensures Fires(f, zone, after, n)
  {
    hide Matches, WallAt, Instants, SparseTransitions;
    OccurrenceIsInstant(zone, n, u);
  }

  lemma RepeatedAnswerIsNotFirst(f: CronFields, zone: Zone, after: int, at: int, before: int, since: int, n: int, m: int)
    requires ValidZone(zone) && SparseTransitions(zone) && QuietAround(zone, after, at, before, since) && at <= after
    requires RepeatsAhead(f, zone, after, at, before, n)
    requires NextCron(f, zone, after).Run? && m == LocalMinute(NextCron(f, zone, after).at, zone)
    ensures !IsFirstOccurrence(zone, NextCron(f, zone, after).at)
  {
    hide Matches, WallAt, NextCron, SparseTransitions, QuietAround, ToWallClock, Instants;
    var t := NextCron(f, zone, after).at;
    NextCronIsFirstInWallClockOrder(f, zone, after);
    RepeatOccursTwice(f, zone, after, at, before, since, n);
    MinutesAreWholeSeconds(n, since);
    OccurrenceAheadFires(f, zone, after, n, n * MINUTE_MS - since);
    assert m <= n;
    assert RepeatsAhead(f, zone, after, at, before, m);
    RepeatOccursTwice(f, zone, after, at, before, since, m);
    var u := m * MINUTE_MS - before;
    MinutesAreWholeSeconds(m, before);
    ReadsAt(zone, m, u);
  }

  // ----------------------------------------------- the first instant, and its pass ---

  /** An occurrence after `after` of a minute no later than the one showing there is a second one. */
  lemma BehindIsRepeat(zone: Zone, after: int, n: int, u: int) returns (v: int)
    requires ValidZone(zone) && IsQuietAround(zone, u) && u == n * MINUTE_MS - zone(u)
    requires after < u && n <= LocalMinute(after, zone)
    ensures v % 1000 == 0 && v < u && v == n * MINUTE_MS - zone(v)
  {
    var at, before, since :| QuietAround(zone, u, at, before, since);
    OffsetBounds(zone, after);
    OffsetBounds(zone, u);
    LaterMinute(after, zone(after), n);
    assert before == zone(after) && since == zone(u) && after < at <= u;
    MinutesAreWholeSeconds(n, before);
    v := n * MINUTE_MS - before;
    hide ValidZone;
  }

  /** An occurrence of minute `n`, before one of an earlier minute `m`, has another of `m` before it. */
  lemma AheadIsRepeat(zone: Zone, after: int, n: int, u: int, m: int, t: int) returns (v: int)
    requires ValidZone(zone) && IsQuietAround(zone, u) && after < u < t
    requires u == n * MINUTE_MS - zone(u) && t == m * MINUTE_MS - zone(t) && LocalMinute(after, zone) < m < n
    ensures v % 1000 == 0 && after < v < t && v == m * MINUTE_MS - zone(v)
  {
    var at, before, since :| QuietAround(zone, u, at, before, since);
    OffsetBounds(zone, u);
    OffsetBounds(zone, t);
    LaterMinute(after, zone(after), m);
    assert before == zone(u) && since == zone(t) && u < at <= t;
    MinutesAreWholeSeconds(m, before);
    v := m * MINUTE_MS - before;
    hide ValidZone;
  }

  /** The local clock shows a matching minute at this instant, for the first time. */
  ghost predicate FiresFirst(f: CronFields, zone: Zone, u: int) {
    var n := LocalMinute(u, zone);
    u % 1000 == 0 && ToWallClock(u, zone) == WallAt(n) && Matches(f, WallAt(n)) && IsFirstOccurrence(zone, u)
  }

  /** The first instant strictly after `after` at which that is so. */
  ghost predicate IsFirstRun(f: CronFields, zone: Zone, after: int, t: int) {
    after < t && FiresFirst(f, zone, t) && forall u :: after < u < t ==> !FiresFirst(f, zone, u)
  }

  /** No minute that the search passes over was due. */
  lemma PassesNoFirstOccurrence(f: CronFields, zone: Zone, after: int, u: int)
    requires NextCron(f, zone, after).Run? && ValidZone(zone) && SparseTransitions(zone)
    requires after < u < NextCron(f, zone, after).at
    ensures !FiresFirst(f, zone, u)
  {
    hide Matches, WallAt, NextCron, ToWallClock, Instants, QuietAround, ValidZone;
    var t, n := NextCron(f, zone, after).at, LocalMinute(u, zone);
    var m := LocalMinute(t, zone);
    if FiresFirst(f, zone, u) {
      ReadsAt(zone, n, u);
      assert IsQuietAround(zone, u);
      NextCronIsFirstInWallClockOrder(f, zone, after);
      hide SparseTransitions;
      if n <= LocalMinute(after, zone) {
        var v := BehindIsRepeat(zone, after, n, u);
        ReadsAt(zone, n, v);
      } else {
        OccurrenceAheadFires(f, zone, after, n, u);
        InstantsAreWholeSeconds(m, zone, t);
        ReadsAt(zone, m, t);
        var v := u;
        if m < n {
          v := AheadIsRepeat(zone, after, n, u, m, t);
        }
        OccurrenceIsInstant(zone, m, v);
        FindAfterIsLeast(Instants(WallAt(m), zone), after);
      }
    }
  }

  /** The documentation promises the first instant after the start at which the schedule fires, and the first
      occurrence of a repeated local time. No such instant is ever passed over, so the promise is kept exactly when the
      answer is itself a first occurrence. That is so exactly when no matching minute is left in the second pass of a
      repeated time: when the offset has not just changed, or every matching minute still to come is past what the
      clocks showed before the change. */
  lemma FirstOccurrenceIff(f: CronFields, zone: Zone, after: int, at: int, before: int, since: int)
    requires NextCron(f, zone, after).Run? && ValidZone(zone) && SparseTransitions(zone)
    requires QuietAround(zone, after, at, before, since)
    ensures IsFirstOccurrence(zone, NextCron(f, zone, after).at) <==> !MatchLeftInSecondPass(f, zone, after, at, before)
    ensures IsFirstRun(f, zone, after, NextCron(f, zone, after).at) <==> !MatchLeftInSecondPass(f, zone, after, at, before)
  {
    hide Matches, WallAt, NextCron, SparseTransitions, QuietAround, ToWallClock, Instants, IsFirstOccurrence,
         WallClockToNaiveMs, OneTransitionNear;
    var t := NextCron(f, zone, after).at;
    var m := LocalMinute(t, zone);
    NextCronIsFirstInWallClockOrder(f, zone, after);
    forall u | after < u < t ensures !FiresFirst(f, zone, u) {
      PassesNoFirstOccurrence(f, zone, after, u);
    }
    InstantsAreWholeSeconds(m, zone, t);
    if MatchLeftInSecondPass(f, zone, after, at, before) {
      var n :| RepeatsAhead(f, zone, after, at, before, n);
      RepeatedAnswerIsNotFirst(f, zone, after, at, before, since, n, m);
    } else {
      ReadsAt(zone, m, t);
      WallAtNaive(m);
      var a, b, s := QuietIsNear(zone, t, m);
      FirstUnlessGoneBy(f, zone, after, a, b, s);
      forall u | u % 1000 == 0 && ToWallClock(u, zone) == WallAt(m) ensures after < u {
        ReadsAt(zone, m, u);
        if u <= after {
          GoneByRepeats(f, zone, after, at, before, since, m, u);
        }
      }
    }
  }

  lemma InstantsAreWholeSeconds(n: int, zone: Zone, u: int)
    requires ValidZone(zone) && u in Instants(WallAt(n), zone)
    ensures u % 1000 == 0
  {
    WallAtNaive(n);
    hide WallAt, ToWallClock, Candidates, ValidZone, WallClockToNaiveMs;
    MinutesAreWholeSeconds(n, 0);
    CandidatesAreShifts(n * MINUTE_MS, zone);
    assert u in Candidates(n * MINUTE_MS, zone);
  }

  lemma WallAtNaive(n: int)
    ensures WallClockToNaiveMs(WallAt(n)) == n * MINUTE_MS
  {
    WallAtFields(n);
  }

  lemma {:induction false} FindAfterIsLeast(instants: seq<int>, after: int)
    requires Ascending(instants)
    ensures FindAfter(instants, after).Run? ==>
      forall u :: u in instants && after < u ==> FindAfter(instants, after).at <= u
  {
    if instants != [] && instants[0] <= after {
      FindAfterIsLeast(instants[1..], after);
      assert instants == [instants[0]] + instants[1..];
    }
  }

  /** Local clocks go back one hour at instant 0. */
  function FoldAtZero(t: int): int {
    if t < 0 then HOUR_MS else 0
  }

  lemma FoldAtZeroIsSparse()
    ensures SparseTransitions(FoldAtZero)
  {
    forall t: int ensures IsQuietAround(FoldAtZero, t) {
      if t - QUIET_MS < 0 {
        assert QuietAround(FoldAtZero, t, 0, HOUR_MS, 0);
      } else {
        assert QuietAround(FoldAtZero, t, t + QUIET_MS + 1, 0, 0);
      }
    }
  }

  const EVERY_MINUTE := CronFields(set m | 0 <= m < 60, set h | 0 <= h < 24, set d | 1 <= d <= 31,
                                   set m | 1 <= m <= 12, set d | 0 <= d <= 6, false, false)

  lemma FoldedMinute()
    ensures ValidZone(FoldAtZero)
    ensures Instants(WallAt(31), FoldAtZero) == [-29 * MINUTE_MS, 31 * MINUTE_MS]
  {
    hide Instants, WallAt, ToWallClock, WallClockToNaiveMs;
    WallAtFields(31);
    var first, second := -29 * MINUTE_MS, 31 * MINUTE_MS;
    FromWallClockExact(WallAt(31), FoldAtZero, 0, HOUR_MS, 0);
    OccurrenceOffset(first, WallAt(31), FoldAtZero);
    OccurrenceOffset(second, WallAt(31), FoldAtZero);
    forall t | t in Instants(WallAt(31), FoldAtZero) ensures t in [first, second] {
      OccurrenceOffset(t, WallAt(31), FoldAtZero);
    }
    AscendingUnique(Instants(WallAt(31), FoldAtZero), [first, second]);
  }

  lemma FirstCandidateFires(f: CronFields, zone: Zone, after: int, t: int)
    requires Matches(f, WallAt(LocalMinute(after, zone) + 1)) && t <= after + HORIZON_MS
    requires FindAfter(Instants(WallAt(LocalMinute(after, zone) + 1), zone), after) == Run(t)
    ensures NextCron(f, zone, after) == Run(t)
  {
    hide Instants, WallAt, Matches, FloorToMinute, AddMinutes;
    FirstCandidateAt(zone, after);
  }

  lemma EveryMinuteMatches(n: int)
    ensures Matches(EVERY_MINUTE, WallAt(n))
  {
    WallAtFields(n);
    hide WallAt, WallClockToNaiveMs, MonthOf, MakeDay, DaysInMonth;
  }

  /** Started in the second pass of a repeated hour, the search answers a local time that has already
      occurred: the same local reading is answered from both passes, and only the first answer is the first run. */
  lemma SecondPassFiresAgain()
    ensures NextCron(EVERY_MINUTE, FoldAtZero, -30 * MINUTE_MS) == Run(-29 * MINUTE_MS)
    ensures NextCron(EVERY_MINUTE, FoldAtZero, 30 * MINUTE_MS) == Run(31 * MINUTE_MS)
    ensures ToWallClock(-29 * MINUTE_MS, FoldAtZero) == ToWallClock(31 * MINUTE_MS, FoldAtZero)
    ensures IsFirstRun(EVERY_MINUTE, FoldAtZero, -30 * MINUTE_MS, -29 * MINUTE_MS)
    ensures !IsFirstRun(EVERY_MINUTE, FoldAtZero, 30 * MINUTE_MS, 31 * MINUTE_MS)
  {
    hide Instants, WallAt, Matches, NextCron, ToWallClock, IsFirstRun, SparseTransitions;
    FoldedMinute();
    FoldAtZeroIsSparse();
    EveryMinuteMatches(31);
    var both := [-29 * MINUTE_MS, 31 * MINUTE_MS];
    assert both[0] in both && both[1] in both;
    assert FindAfter(both[1..], 30 * MINUTE_MS) == Run(31 * MINUTE_MS);
    FirstCandidateFires(EVERY_MINUTE, FoldAtZero, -30 * MINUTE_MS, -29 * MINUTE_MS);
    FirstCandidateFires(EVERY_MINUTE, FoldAtZero, 30 * MINUTE_MS, 31 * MINUTE_MS);
    FirstOccurrenceIff(EVERY_MINUTE, FoldAtZero, -30 * MINUTE_MS, 0, HOUR_MS, 0);
    FirstOccurrenceIff(EVERY_MINUTE, FoldAtZero, 30 * MINUTE_MS, 0, HOUR_MS, 0);
    assert RepeatsAhead(EVERY_MINUTE, FoldAtZero, 30 * MINUTE_MS, 0, HOUR_MS, 31);
  }
}
