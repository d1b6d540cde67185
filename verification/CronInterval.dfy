/** The cadence check made when a job is created: how close together two runs can be. */
module CronInterval {
  import opened Calendar
  import opened Cron
  import opened NextRun
  import opened Ticks
  import opened TimeZone

  function Min(a: int, b: int): int {
    if a < b then a else b
  }

  /** Least distance between neighbours in an ascending listing. */
  function LeastStep(sorted: seq<int>): int
    requires |sorted| >= 2
  {
    var n := |sorted|;
    var last := sorted[n - 1] - sorted[n - 2];
    if n == 2 then last else Min(LeastStep(sorted[..n - 1]), last)
  }

  function GapOf(values: set<int>, wrap: int): int {
    var sorted := Sorted(values);
    if |sorted| <= 1 then wrap
    else Min(wrap - sorted[|sorted| - 1] + sorted[0], LeastStep(sorted))
  }

  method Gap(values: set<int>, wrap: int) returns (min: int)
    ensures min == GapOf(values, wrap)
  {
    hide Sorted;
    var sorted := Sorted(values);
    if |sorted| <= 1 {
      return wrap;
    }
    min := wrap - sorted[|sorted| - 1] + sorted[0];
    ghost var around := min;
    for i := 1 to |sorted|
      invariant min == if i == 1 then around else Min(around, LeastStep(sorted[..i]))
    {
      min := Min(min, sorted[i] - sorted[i - 1]);
      assert sorted[..i + 1][..i] == sorted[..i];
    }
    assert sorted[..|sorted|] == sorted;
  }

  function TightestIntervalSeconds(f: CronFields): int {
    if |f.minutes| > 1 then GapOf(f.minutes, 60) * 60
    else if |f.hours| > 1 then GapOf(f.hours, 24) * 3_600
    else 86_400
  }

  predicate IntervalAllowed(requestedSeconds: int, planMinSeconds: int) {
    requestedSeconds >= planMinSeconds
  }

  /** A schedule is refused only for being tighter than the floor: one exactly at the floor is accepted. */
  lemma RefusedIffTighter(requestedSeconds: int, planMinSeconds: int)
    ensures !IntervalAllowed(requestedSeconds, planMinSeconds) <==> requestedSeconds < planMinSeconds
  {
  }

  // ------------------------------------------------------------ the gap is a bound ---

  lemma {:induction false} LeastStepBounds(sorted: seq<int>, i: nat, j: nat)
    requires Ascending(sorted) && i < j < |sorted|
    ensures LeastStep(sorted) <= sorted[j] - sorted[i]
    decreases |sorted|
  {
    var n := |sorted|;
    if n > 2 {
      var front := sorted[..n - 1];
      if j < n - 1 {
        LeastStepBounds(front, i, j);
        assert front[j] - front[i] == sorted[j] - sorted[i];
      } else if i < n - 2 {
        assert sorted[i] < sorted[n - 2];
      }
    }
  }

  /** Distinct values are at least the gap apart, on the line and around the wrap. */
  lemma GapSeparates(values: set<int>, wrap: int, a: int, b: int)
    requires forall v :: v in values ==> 0 <= v < wrap
    requires a in values && b in values && a < b
    ensures GapOf(values, wrap) <= b - a && GapOf(values, wrap) <= wrap - (b - a)
  {
    hide Sorted;
    var sorted := Sorted(values);
    assert a in sorted && b in sorted;
    var i :| 0 <= i < |sorted| && sorted[i] == a;
    var j :| 0 <= j < |sorted| && sorted[j] == b;
    assert i < j;
    LeastStepBounds(sorted, i, j);
    assert sorted[0] <= a && b <= sorted[|sorted| - 1];
  }

  lemma {:induction false} LeastStepAttained(sorted: seq<int>) returns (i: nat)
    requires |sorted| >= 2
    ensures i + 1 < |sorted| && LeastStep(sorted) == sorted[i + 1] - sorted[i]
    decreases |sorted|
  {
    var n := |sorted|;
    if n == 2 {
      i := 0;
    } else {
      i := LeastStepAttained(sorted[..n - 1]);
      if LeastStep(sorted[..n - 1]) >= sorted[n - 1] - sorted[n - 2] {
        i := n - 2;
      }
    }
  }

  /** The way from one value to another, forwards or around the wrap, whichever is shorter. */
  function CyclicDistance(a: int, b: int, wrap: int): int {
    if b - a < wrap - (b - a) then b - a else wrap - (b - a)
  }

  /** And some two values are exactly that far apart. */
  lemma GapIsAttained(values: set<int>, wrap: int) returns (a: int, b: int)
    requires (forall v :: v in values ==> 0 <= v < wrap) && |values| > 1
    ensures a in values && b in values && a < b && GapOf(values, wrap) == CyclicDistance(a, b, wrap)
  {
    hide Sorted;
    var sorted := Sorted(values);
    var i := LeastStepAttained(sorted);
    assert sorted[0] in sorted && sorted[|sorted| - 1] in sorted && sorted[i] in sorted && sorted[i + 1] in sorted;
    if LeastStep(sorted) <= wrap - sorted[|sorted| - 1] + sorted[0] {
      a, b := sorted[i], sorted[i + 1];
    } else {
      a, b := sorted[0], sorted[|sorted| - 1];
    }
    GapSeparates(values, wrap, a, b);
  }

  /** The tightest interval is the least cyclic distance between two minutes when there are several, between two hours
      when there is one minute but several hours, and otherwise a day. */
  lemma TightestIsLeastDistance(f: CronFields)
    requires ValidFields(f)
    ensures var t := TightestIntervalSeconds(f);
      if |f.minutes| > 1 then
        && (exists a, b :: a in f.minutes && b in f.minutes && a < b && t == 60 * CyclicDistance(a, b, 60))
        && (forall a, b :: a in f.minutes && b in f.minutes && a < b ==> t <= 60 * CyclicDistance(a, b, 60))
      else if |f.hours| > 1 then
        && (exists a, b :: a in f.hours && b in f.hours && a < b && t == 3_600 * CyclicDistance(a, b, 24))
        && (forall a, b :: a in f.hours && b in f.hours && a < b ==> t <= 3_600 * CyclicDistance(a, b, 24))
      else t == 86_400
  {
    hide GapOf;
    if |f.minutes| > 1 {
      var a, b := GapIsAttained(f.minutes, 60);
      forall a, b | a in f.minutes && b in f.minutes && a < b ensures GapOf(f.minutes, 60) <= CyclicDistance(a, b, 60) {
        GapSeparates(f.minutes, 60, a, b);
      }
    } else if |f.hours| > 1 {
      var a, b := GapIsAttained(f.hours, 24);
      forall a, b | a in f.hours && b in f.hours && a < b ensures GapOf(f.hours, 24) <= CyclicDistance(a, b, 24) {
        GapSeparates(f.hours, 24, a, b);
      }
    }
  }

  lemma GapAtMostWrap(values: set<int>, wrap: int)
    requires forall v :: v in values ==> 0 <= v < wrap
    ensures GapOf(values, wrap) <= wrap
  {
    hide Sorted;
    var sorted := Sorted(values);
    if |sorted| > 1 {
      assert sorted[0] < sorted[|sorted| - 1];
    }
  }

  lemma ResidueDistance(wrap: int, x: int, y: int)
    requires wrap > 0 && x < y
    ensures y - x == y % wrap - x % wrap || y - x >= wrap + (y % wrap - x % wrap)
  {
    var p, q := x / wrap, y / wrap;
    assert x == wrap * p + x % wrap && y == wrap * q + y % wrap;
    assert y - x == wrap * (q - p) + (y % wrap - x % wrap);
    if q - p >= 1 {
      AtLeastWrap(q - p, wrap);
    } else if q - p <= -1 {
      AtLeastWrap(p - q, wrap);
    }
  }

  lemma AtLeastWrap(k: int, wrap: int)
    requires k >= 1 && wrap > 0
    ensures wrap * k >= wrap
  {
  }

  /** Two numbers whose residues lie in `values` are equal or at least the gap apart. */
  lemma ResiduesSeparated(values: set<int>, wrap: int, x: int, y: int)
    requires wrap > 0 && forall v :: v in values ==> 0 <= v < wrap
    requires x < y && x % wrap in values && y % wrap in values
    ensures GapOf(values, wrap) <= y - x
  {
    hide GapOf;
    GapAtMostWrap(values, wrap);
    ResidueDistance(wrap, x, y);
    var a, b := x % wrap, y % wrap;
    if a < b {
      GapSeparates(values, wrap, a, b);
    } else if b < a {
      GapSeparates(values, wrap, b, a);
    }
  }

  lemma SmallSetMembersEqual(s: set<int>, a: int, b: int)
    requires |s| <= 1 && a in s && b in s
    ensures a == b
  {
    if a != b {
      SubsetSize({a, b}, s);
    }
  }

  lemma MatchFields(f: CronFields, n: int)
    requires Matches(f, WallAt(n))
    ensures n % 60 in f.minutes && n / 60 % 24 in f.hours
  {
    WallAtFields(n);
    hide WallAt, MonthOf, MakeDay, MatchesDay, ValidWallClock, WallClockToNaiveMs;
    HourOfMinute(n);
  }

  /** Any two distinct wall clocks a schedule matches are at least its tightest interval apart in local
      time. */
  lemma MatchesAreSpaced(f: CronFields, x: int, y: int)
    requires ValidFields(f) && x < y && Matches(f, WallAt(x)) && Matches(f, WallAt(y))
    ensures TightestIntervalSeconds(f) <= (y - x) * 60
  {
    hide WallAt, GapOf, Matches;
    MatchFields(f, x);
    MatchFields(f, y);
    if |f.minutes| > 1 {
      ResiduesSeparated(f.minutes, 60, x, y);
    } else {
      SmallSetMembersEqual(f.minutes, x % 60, y % 60);
      assert y - x == (y / 60 - x / 60) * 60;
      if |f.hours| > 1 {
        ResiduesSeparated(f.hours, 24, x / 60, y / 60);
      } else {
        SmallSetMembersEqual(f.hours, x / 60 % 24, y / 60 % 24);
        assert y / 60 - x / 60 == (y / 60 / 24 - x / 60 / 24) * 24;
      }
    }
  }

  /** A schedule the plan accepts never fires twice within the plan's floor in a fixed-offset zone. */
  lemma AcceptedScheduleKeepsFloor(f: CronFields, zone: Zone, offset: int, planMinSeconds: int, after: int, later: int)
    requires ValidFields(f) && ValidZone(zone) && FixedOffset(zone, offset)
    requires IntervalAllowed(TightestIntervalSeconds(f), planMinSeconds)
    requires after <= later && NextCron(f, zone, after).Run? && NextCron(f, zone, later).Run?
    requires NextCron(f, zone, after) != NextCron(f, zone, later)
    ensures NextCron(f, zone, later).at - NextCron(f, zone, after).at >= planMinSeconds * 1000
  {
    hide NextCron, Matches, WallAt, TightestIntervalSeconds;
    FixedOffsetSearchExact(f, zone, offset, after);
    FixedOffsetSearchExact(f, zone, offset, later);
    var s, t := NextCron(f, zone, after).at, NextCron(f, zone, later).at;
    MinutesApart(s, t, offset);
    MatchesAreSpaced(f, (s + offset) / MINUTE_MS, (t + offset) / MINUTE_MS);
  }

  lemma MinutesApart(s: int, t: int, offset: int)
    requires (s + offset) % MINUTE_MS == 0 && (t + offset) % MINUTE_MS == 0
    ensures t - s == ((t + offset) / MINUTE_MS - (s + offset) / MINUTE_MS) * MINUTE_MS
  {
  }
}
