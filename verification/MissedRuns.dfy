/** The ticks an outage swallowed: every run in a window, bounded by a cap. */
module MissedRuns {
  import opened Calendar
  import opened Cron
  import opened NextRun
  import opened Ticks
  import opened TimeZone

  const DEFAULT_CAP := 1_000

  /** At most `room` runs after `cursor` and up to `until`. A search that fails ends the list. */
  function MissedFrom(f: CronFields, zone: Zone, cursor: int, until: int, room: nat): seq<int>
    decreases room
  {
    if room == 0 then [] else
      var next := NextCron(f, zone, cursor);
      if next.NoNextRun? || next.at > until then [] else
        [next.at] + MissedFrom(f, zone, next.at, until, room - 1)
  }

  function LastOr(ticks: seq<int>, start: int): int {
    if ticks == [] then start else ticks[|ticks| - 1]
  }

  /** The cap stopped the scan while a further run was due. */
  predicate Truncated(f: CronFields, zone: Zone, from: int, until: int, cap: nat) {
    var ticks := MissedFrom(f, zone, from, until, cap);
    var next := NextCron(f, zone, LastOr(ticks, from));
    |ticks| == cap && next.Run? && next.at <= until
  }

  method Missed(f: CronFields, zone: Zone, fromMs: int, toMs: int, cap: nat) returns (ticks: seq<int>, truncated: bool)
    ensures ticks == MissedFrom(f, zone, fromMs, toMs, cap)
    ensures truncated == Truncated(f, zone, fromMs, toMs, cap)
  {
    hide NextCron;
    ticks := [];
    var cursor := fromMs;
    while |ticks| < cap
      invariant |ticks| <= cap && cursor == LastOr(ticks, fromMs)
      invariant MissedFrom(f, zone, fromMs, toMs, cap) == ticks + MissedFrom(f, zone, cursor, toMs, cap - |ticks|)
      decreases cap - |ticks|
    {
      var next := Search(f, zone, cursor);
      if next.NoNextRun? || next.at > toMs {
        break;
      }
      ticks := ticks + [next.at];
      cursor := next.at;
    }
    assert MissedFrom(f, zone, fromMs, toMs, cap) == ticks;
    truncated := false;
    if |ticks| == cap {
      var next := Search(f, zone, cursor);
      truncated := next.Run? && next.at <= toMs;
    }
  }

  // ------------------------------------------------------------------ any zone ---

  /** The ticks are strictly ascending and inside the half-open window, in any zone. */
  lemma {:induction false} MissedInWindow(f: CronFields, zone: Zone, from: int, until: int, room: nat)
    ensures var ticks := MissedFrom(f, zone, from, until, room);
      Ascending(ticks) && |ticks| <= room && forall t :: t in ticks ==> from < t <= until
    decreases room
  {
    hide NextCron;
    if room > 0 && NextCron(f, zone, from).Run? && NextCron(f, zone, from).at <= until {
      var next := NextCron(f, zone, from).at;
      NextCronAfter(f, zone, from);
      MissedInWindow(f, zone, next, until, room - 1);
      var rest := MissedFrom(f, zone, next, until, room - 1);
      assert forall k :: 0 <= k < |rest| ==> rest[k] in rest;
      assert MissedFrom(f, zone, from, until, room) == [next] + rest;
    }
  }

  lemma NextCronAfter(f: CronFields, zone: Zone, after: int)
    requires NextCron(f, zone, after).Run?
    ensures after < NextCron(f, zone, after).at <= after + HORIZON_MS
  {
    NextCronIsFirstInWallClockOrder(f, zone, after);
  }

  // -------------------------------------------------------- fixed-offset zones ---

  /** No run in the window lies further than the search horizon behind the one before it. */
  ghost predicate GapsWithinHorizon(f: CronFields, offset: int, from: int, until: int) {
    forall u :: from < u <= until && FiresAt(f, offset, u) ==> HasNearPredecessor(f, offset, from, u)
  }

  ghost predicate HasNearPredecessor(f: CronFields, offset: int, from: int, u: int) {
    exists p :: IsRunOrStart(f, offset, from, p) && p < u <= p + HORIZON_MS
  }

  ghost predicate IsRunOrStart(f: CronFields, offset: int, from: int, p: int) {
    p == from || (from < p && FiresAt(f, offset, p))
  }

  lemma {:induction false} FirstRunIsNear(f: CronFields, offset: int, from: int, until: int, u: int) returns (v: int)
    requires GapsWithinHorizon(f, offset, from, until)
    requires from < u <= until && FiresAt(f, offset, u)
    ensures from < v <= u && v <= from + HORIZON_MS && FiresAt(f, offset, v)
    decreases u - from
  {
    hide FiresAt;
    assert HasNearPredecessor(f, offset, from, u);
    var p :| IsRunOrStart(f, offset, from, p) && p < u <= p + HORIZON_MS;
    if p == from {
      v := u;
    } else {
      v := FirstRunIsNear(f, offset, from, until, p);
    }
  }

  lemma GapsFromNextRun(f: CronFields, offset: int, from: int, until: int, next: int)
    requires GapsWithinHorizon(f, offset, from, until)
    requires from < next && FiresAt(f, offset, next) && NoneFires(f, offset, from, next - 1)
    ensures GapsWithinHorizon(f, offset, next, until)
  {
    hide FiresAt;
    forall u | next < u <= until && FiresAt(f, offset, u) ensures HasNearPredecessor(f, offset, next, u) {
      assert HasNearPredecessor(f, offset, from, u);
      var p :| IsRunOrStart(f, offset, from, p) && p < u <= p + HORIZON_MS;
      var q := if p < next then next else p;
      assert IsRunOrStart(f, offset, next, q) && q < u <= q + HORIZON_MS;
    }
  }

  /** Up to its last tick the scan misses no run; a scan that stops short of the cap misses none at all. */
  lemma {:induction false} MissedComplete(f: CronFields, zone: Zone, offset: int, from: int, until: int, room: nat)
    requires ValidFields(f) && ValidZone(zone) && FixedOffset(zone, offset)
    requires GapsWithinHorizon(f, offset, from, until)
    ensures var ticks := MissedFrom(f, zone, from, until, room);
      && (forall t :: t in ticks ==> FiresAt(f, offset, t))
      && (forall u :: from < u <= LastOr(ticks, from) && FiresAt(f, offset, u) ==> u in ticks)
      && (|ticks| < room ==> NoneFires(f, offset, LastOr(ticks, from), until))
      && GapsWithinHorizon(f, offset, LastOr(ticks, from), until)
    decreases room
  {
    hide NextCron, FiresAt, GapsWithinHorizon;
    if room > 0 {
      FixedOffsetSearchExact(f, zone, offset, from);
      var next := NextCron(f, zone, from);
      if next.NoNextRun? || next.at > until {
        forall u | from < u <= until ensures !FiresAt(f, offset, u) {
          if FiresAt(f, offset, u) && next.NoNextRun? {
            var v := FirstRunIsNear(f, offset, from, until, u);
          }
        }
      } else {
        GapsFromNextRun(f, offset, from, until, next.at);
        MissedInWindow(f, zone, next.at, until, room - 1);
        MissedComplete(f, zone, offset, next.at, until, room - 1);
        var rest := MissedFrom(f, zone, next.at, until, room - 1);
        assert MissedFrom(f, zone, from, until, room) == [next.at] + rest;
      }
    }
  }

  ghost predicate ListsExactly(f: CronFields, offset: int, from: int, until: int, ticks: seq<int>) {
    forall u :: u in ticks <==> from < u <= until && FiresAt(f, offset, u)
  }

  /** When no run lies beyond the horizon of its predecessor: the scan is truncated exactly when runs
      are left over, and otherwise its ticks are exactly the runs of the window. */
  lemma TruncatedExact(f: CronFields, zone: Zone, offset: int, from: int, until: int, cap: nat)
    requires ValidFields(f) && ValidZone(zone) && FixedOffset(zone, offset)
    requires GapsWithinHorizon(f, offset, from, until)
    ensures Truncated(f, zone, from, until, cap)
       <==> !ListsExactly(f, offset, from, until, MissedFrom(f, zone, from, until, cap))
    ensures Truncated(f, zone, from, until, cap) <==> |RunsIn(f, offset, from, until)| > cap
  {
    hide NextCron, FiresAt, GapsWithinHorizon;
    var ticks := MissedFrom(f, zone, from, until, cap);
    var last := LastOr(ticks, from);
    MissedInWindow(f, zone, from, until, cap);
    MissedComplete(f, zone, offset, from, until, cap);
    FixedOffsetSearchExact(f, zone, offset, last);
    var runs := RunsIn(f, offset, from, until);
    AscendingSize(ticks);
    var listed := set t | t in ticks;
    if Truncated(f, zone, from, until, cap) {
      var next := NextCron(f, zone, last).at;
      assert last < next && FiresAt(f, offset, next) && next !in ticks;
      assert |listed + {next}| == |listed| + 1 && next in runs && listed <= runs;
      SubsetSize(listed + {next}, runs);
    } else {
      if |ticks| == cap && NextCron(f, zone, last).NoNextRun? {
        forall u | last < u <= until ensures !FiresAt(f, offset, u) {
          if FiresAt(f, offset, u) {
            var v := FirstRunIsNear(f, offset, last, until, u);
          }
        }
      }
      assert NoneFires(f, offset, last, until);
      assert ListsExactly(f, offset, from, until, ticks);
      assert runs == listed;
    }
  }

  /** The run can be reached from the start by steps no longer than the search horizon. */
  ghost predicate Reached(f: CronFields, offset: int, from: int, u: int) {
    FiresAt(f, offset, u) && GapsWithinHorizon(f, offset, from, u)
  }

  ghost function RunsReached(f: CronFields, offset: int, from: int, until: int): set<int> {
    set u | from < u <= until && Reached(f, offset, from, u)
  }

  lemma StepIsNear(f: CronFields, offset: int, from: int, p: int, u: int)
    requires IsRunOrStart(f, offset, from, p) && p < u <= p + HORIZON_MS
    ensures HasNearPredecessor(f, offset, from, u)
  {
  }

  /** Behind a gap longer than the horizon the scan does not look: it is the scan up to the gap. */
  lemma {:induction false} ScanStopsAtGap(
      f: CronFields, zone: Zone, offset: int, from: int, cursor: int, gap: int, until: int, room: nat)
    requires ValidFields(f) && ValidZone(zone) && FixedOffset(zone, offset)
    requires IsRunOrStart(f, offset, from, cursor) && from <= cursor < gap <= until
    requires FiresAt(f, offset, gap) && !HasNearPredecessor(f, offset, from, gap)
    ensures MissedFrom(f, zone, cursor, until, room) == MissedFrom(f, zone, cursor, gap - 1, room)
    decreases room
  {
    hide NextCron, FiresAt, ValidZone, FixedOffset, ValidFields;
    if room > 0 {
      FixedOffsetSearchExact(f, zone, offset, cursor);
      var next := NextCron(f, zone, cursor);
      if next.Run? {
        if next.at >= gap {
          StepIsNear(f, offset, from, cursor, gap);
        }
        ScanStopsAtGap(f, zone, offset, from, next.at, gap, until, room - 1);
      }
    }
  }

  lemma LastOfScanUpTo(f: CronFields, zone: Zone, offset: int, from: int, gap: int, until: int, cap: nat)
    requires ValidFields(f) && ValidZone(zone) && FixedOffset(zone, offset) && from < gap <= until
    requires FiresAt(f, offset, gap) && !HasNearPredecessor(f, offset, from, gap)
    ensures Truncated(f, zone, from, until, cap) <==> Truncated(f, zone, from, gap - 1, cap)
  {
    hide NextCron, FiresAt, ValidZone, FixedOffset, ValidFields;
    ScanStopsAtGap(f, zone, offset, from, from, gap, until, cap);
    ScanStopsAtGap(f, zone, offset, from, from, gap, until, cap + 1);
    TruncatedIsOneMore(f, zone, from, until, cap);
    TruncatedIsOneMore(f, zone, from, gap - 1, cap);
  }

  /** A scan is truncated when one with more room would find more. */
  lemma {:induction false} TruncatedIsOneMore(f: CronFields, zone: Zone, from: int, until: int, cap: nat)
    ensures Truncated(f, zone, from, until, cap) <==> |MissedFrom(f, zone, from, until, cap + 1)| == cap + 1
    decreases cap
  {
    hide NextCron;
    var next := NextCron(f, zone, from);
    if cap > 0 && next.Run? && next.at <= until {
      TruncatedIsOneMore(f, zone, next.at, until, cap - 1);
      var rest := MissedFrom(f, zone, next.at, until, cap - 1);
      assert MissedFrom(f, zone, from, until, cap) == [next.at] + rest;
      assert LastOr([next.at] + rest, from) == LastOr(rest, next.at);
    }
  }

  lemma FirstGap(f: CronFields, offset: int, from: int, until: int) returns (gap: int)
    requires !GapsWithinHorizon(f, offset, from, until)
    ensures from < gap <= until && FiresAt(f, offset, gap) && !HasNearPredecessor(f, offset, from, gap)
    ensures GapsWithinHorizon(f, offset, from, gap - 1)
  {
    hide FiresAt, HasNearPredecessor;
    var gaps := set u | from < u <= until && FiresAt(f, offset, u) && !HasNearPredecessor(f, offset, from, u);
    var u :| from < u <= until && FiresAt(f, offset, u) && !HasNearPredecessor(f, offset, from, u);
    assert u in gaps;
    gap := LeastExists(gaps);
    forall v | from < v <= gap - 1 && FiresAt(f, offset, v) ensures HasNearPredecessor(f, offset, from, v) {
      assert v !in gaps;
    }
  }

  lemma ReachedBeforeGap(f: CronFields, offset: int, from: int, gap: int, until: int)
    requires from < gap <= until && FiresAt(f, offset, gap) && !HasNearPredecessor(f, offset, from, gap)
    requires GapsWithinHorizon(f, offset, from, gap - 1)
    ensures RunsReached(f, offset, from, until) == RunsIn(f, offset, from, gap - 1)
  {
    hide FiresAt, HasNearPredecessor;
    forall u ensures u in RunsReached(f, offset, from, until) <==> u in RunsIn(f, offset, from, gap - 1) {
      if u in RunsReached(f, offset, from, until) {
        assert u < gap;
      }
    }
  }

  /** Whatever the gaps: the scan is truncated exactly when more runs than the cap can be reached without a gap
      beyond the horizon. So a truncated scan always leaves runs over, and one that leaves runs over is not reported
      when the gap, not the cap, is what stopped it. */
  lemma TruncatedIffManyReached(f: CronFields, zone: Zone, offset: int, from: int, until: int, cap: nat)
    requires ValidFields(f) && ValidZone(zone) && FixedOffset(zone, offset)
    ensures Truncated(f, zone, from, until, cap) <==> |RunsReached(f, offset, from, until)| > cap
    ensures Truncated(f, zone, from, until, cap) ==> |RunsIn(f, offset, from, until)| > cap
  {
    hide NextCron, FiresAt, ValidZone, FixedOffset, ValidFields, Truncated;
    if GapsWithinHorizon(f, offset, from, until) {
      TruncatedExact(f, zone, offset, from, until, cap);
      assert RunsReached(f, offset, from, until) == RunsIn(f, offset, from, until);
    } else {
      var gap := FirstGap(f, offset, from, until);
      LastOfScanUpTo(f, zone, offset, from, gap, until, cap);
      TruncatedExact(f, zone, offset, from, gap - 1, cap);
      ReachedBeforeGap(f, offset, from, gap, until);
      SubsetSize(RunsIn(f, offset, from, gap - 1), RunsIn(f, offset, from, until));
    }
  }

  ghost function RunsIn(f: CronFields, offset: int, from: int, until: int): set<int> {
    set u | from < u <= until && FiresAt(f, offset, u)
  }

  lemma {:induction false} AscendingSize(ticks: seq<int>)
    requires Ascending(ticks)
    ensures |set t | t in ticks| == |ticks|
  {
    if ticks != [] {
      var rest := ticks[1..];
      AscendingSize(rest);
      assert ticks == [ticks[0]] + rest;
      assert (set t | t in ticks) == {ticks[0]} + set t | t in rest;
    }
  }

  /** The condition is exact: a scan that is not truncated lists the runs of the window if and only if
      none of them lies beyond the horizon of its predecessor. A window no longer than the horizon
      always qualifies. */
  lemma CompleteIffGapsWithinHorizon(f: CronFields, zone: Zone, offset: int, from: int, until: int, cap: nat)
    requires ValidFields(f) && ValidZone(zone) && FixedOffset(zone, offset)
    requires !Truncated(f, zone, from, until, cap)
    ensures ListsExactly(f, offset, from, until, MissedFrom(f, zone, from, until, cap))
       <==> GapsWithinHorizon(f, offset, from, until)
    ensures until <= from + HORIZON_MS ==> GapsWithinHorizon(f, offset, from, until)
  {
    hide NextCron, FiresAt;
    if GapsWithinHorizon(f, offset, from, until) {
      TruncatedExact(f, zone, offset, from, until, cap);
    }
    var ticks := MissedFrom(f, zone, from, until, cap);
    if ListsExactly(f, offset, from, until, ticks) {
      forall u | from < u <= until && FiresAt(f, offset, u) ensures HasNearPredecessor(f, offset, from, u) {
        ListedRunIsNear(f, zone, offset, from, until, cap, u);
      }
    }
    if until <= from + HORIZON_MS {
      assert IsRunOrStart(f, offset, from, from);
    }
  }

  lemma {:induction false} ListedRunIsNear(f: CronFields, zone: Zone, offset: int, from: int, until: int, room: nat, u: int)
    requires ValidFields(f) && ValidZone(zone) && FixedOffset(zone, offset)
    requires u in MissedFrom(f, zone, from, until, room)
    ensures HasNearPredecessor(f, offset, from, u)
    decreases room
  {
    hide NextCron, FiresAt;
    var next := NextCron(f, zone, from).at;
    FixedOffsetSearchExact(f, zone, offset, from);
    assert IsRunOrStart(f, offset, from, from);
    if u != next {
      ListedRunIsNear(f, zone, offset, next, until, room - 1, u);
      var p :| IsRunOrStart(f, offset, next, p) && p < u <= p + HORIZON_MS;
      assert IsRunOrStart(f, offset, from, p);
    }
  }

  // ------------------------------------------------ a gap beyond the horizon ---

  /** "0 0 29 2 *": midnight on every leap day. */
  const LEAP_DAYS := CronFields({0}, {0}, {29}, {2}, {0, 1, 2, 3, 4, 5, 6}, true, false)
  /** 29 February 2096 and 29 February 2104, in UTC; 2100 is not a leap year. */
  const LEAP_DAY_2096 := DAY_MS * 46_080
  const LEAP_DAY_2104 := DAY_MS * 49_001

  lemma FebruaryLength(year: int)
    ensures DaysInMonth(year, 2) == if IsLeap(year) then 29 else 28
  {
    hide DayFromYear;
    assert (12 * year + 1) / 12 == year && (12 * year + 2) / 12 == year;
    assert (12 * year + 1) % 12 == 1 && (12 * year + 2) % 12 == 2;
  }

  lemma MidnightMinute(n: int)
    ensures n % 1440 == 0 <==> n % 1440 / 60 == 0 && n % 60 == 0
  {
    HourOfMinute(n);
  }

  lemma LeapDayFields(n: int)
    requires Matches(LEAP_DAYS, WallAt(n))
    ensures n % 1440 == 0 && IsLeap(WallAt(n).year) && n / 1440 == MonthStart(12 * WallAt(n).year + 1) + 28
  {
    WallAtFields(n);
    MidnightMinute(n);
    FebruaryLength(WallAt(n).year);
    hide WallAt, MonthOf, DaysInMonth, MonthStart, WallClockToNaiveMs, IsLeap;
  }

  lemma LeapDayNumber(year: int)
    requires IsLeap(year)
    ensures MonthStart(12 * year + 1) == DayFromYear(year) + 31
    ensures MonthOf(MonthStart(12 * year + 1) + 28) == 12 * year + 1
  {
    assert (12 * year + 1) / 12 == year && (12 * year + 2) / 12 == year;
    assert (12 * year + 1) % 12 == 1 && (12 * year + 2) % 12 == 2;
    MonthOfUnique(MonthStart(12 * year + 1) + 28, 12 * year + 1);
  }

  lemma LeapDayMatches(year: int, n: int)
    requires IsLeap(year) && n == 1440 * (DayFromYear(year) + 59)
    ensures Matches(LEAP_DAYS, WallAt(n))
  {
    WallAtFields(n);
    MidnightMinute(n);
    hide WallAt, MonthOf, WallClockToNaiveMs, DaysInMonth, MonthStart, DayFromYear, WallClockDayOfWeek, IsLeap;
    var wc := WallAt(n);
    assert n / 1440 == MonthStart(12 * year + 1) + 28 && n % 1440 == 0 && MonthOf(n / 1440) == 12 * year + 1 by {
      LeapDayNumber(year);
      By1440(n, DayFromYear(year) + 59, 0);
    }
    assert wc.month == 2 && wc.year == year;
    assert wc.day == 29;
  }

  lemma LeapDaysFire()
    ensures FiresAt(LEAP_DAYS, 0, LEAP_DAY_2096) && FiresAt(LEAP_DAYS, 0, LEAP_DAY_2104)
  {
    hide Matches, WallAt, DayFromYear;
    DayFromYearClosedForm(2096);
    DayFromYearClosedForm(2104);
    LeapDayMatches(2096, LEAP_DAY_2096 / MINUTE_MS);
    LeapDayMatches(2104, LEAP_DAY_2104 / MINUTE_MS);
  }

  lemma FiringMinute(u: int)
    requires FiresAt(LEAP_DAYS, 0, u) && LEAP_DAY_2096 < u <= LEAP_DAY_2096 + HORIZON_MS
    ensures Matches(LEAP_DAYS, WallAt(u / MINUTE_MS))
    ensures LEAP_DAY_2096 / MINUTE_MS < u / MINUTE_MS <= (LEAP_DAY_2096 + HORIZON_MS) / MINUTE_MS
  {
    hide Matches, WallAt;
  }

  /** The gap between two leap days around 2100 is longer than the horizon, so the search started at the
      first fails although the second is a run, and the catch-up list is silently incomplete. */
  lemma LeapDayGapIsMissed(zone: Zone)
    requires ValidZone(zone) && FixedOffset(zone, 0)
    ensures FiresAt(LEAP_DAYS, 0, LEAP_DAY_2096) && FiresAt(LEAP_DAYS, 0, LEAP_DAY_2104)
    ensures NextCron(LEAP_DAYS, zone, LEAP_DAY_2096) == NoNextRun
    ensures MissedFrom(LEAP_DAYS, zone, LEAP_DAY_2096, LEAP_DAY_2104, DEFAULT_CAP) == []
    ensures !Truncated(LEAP_DAYS, zone, LEAP_DAY_2096, LEAP_DAY_2104, DEFAULT_CAP)
  {
    hide Matches, WallAt, NextCron, FiresAt;
    LeapDaysFire();
    forall u | LEAP_DAY_2096 < u <= LEAP_DAY_2096 + HORIZON_MS ensures !FiresAt(LEAP_DAYS, 0, u) {
      if FiresAt(LEAP_DAYS, 0, u) {
        FiringMinute(u);
        NoLeapDayWithinHorizon(u / MINUTE_MS);
      }
    }
    FixedOffsetSearchExact(LEAP_DAYS, zone, 0, LEAP_DAY_2096);
  }

  lemma LeapYearsAround2100(year: int)
    requires IsLeap(year)
    requires DayFromYear(year) == 365 * (year - 1970) + (year - 1969) / 4 - (year - 1901) / 100 + (year - 1601) / 400
    ensures !(46_080 < DayFromYear(year) + 59 <= 47_910)
  {
    hide DayFromYear;
    if year <= 2096 {
      assert DayFromYear(year) <= 46_021;
    } else if year >= 2104 {
      assert DayFromYear(year) >= 48_942;
    }
  }

  lemma NoLeapDayWithinHorizon(n: int)
    requires LEAP_DAY_2096 / MINUTE_MS < n <= (LEAP_DAY_2096 + HORIZON_MS) / MINUTE_MS
    ensures !Matches(LEAP_DAYS, WallAt(n))
  {
    hide Matches, WallAt, MonthOf, MonthStart;
    if Matches(LEAP_DAYS, WallAt(n)) {
      LeapDayFields(n);
      var year := WallAt(n).year;
      LeapDayNumber(year);
      DayFromYearClosedForm(year);
      hide DayFromYear;
      LeapYearsAround2100(year);
    }
  }
}
