/** One scheduler object per job: the alarm, the run lock, and the queue of dispatched ticks. */
module JobScheduler {
  import opened Cron
  import opened Decimal
  import opened MissedRuns
  import opened NextRun
  import opened Options
  import opened Policy
  import Sorting
  import opened Ticks
  import opened TimeZone

  // -------------------------------------------------------------------- data ---

  datatype ScheduleKind = CronSchedule | IntervalSchedule | OnceSchedule

  datatype JobConfig = JobConfig(
    jobId: string, organizationId: string, siteId: string,
    scheduleKind: ScheduleKind, cron: Option<CronFields>, intervalSeconds: Option<int>, runOnceAt: Option<int>,
    zone: Zone, enabled: bool, overlapPolicy: OverlapPolicy, catchupPolicy: CatchupPolicy,
    maxRetries: int, retryBackoffSeconds: nat, createdAt: int)

  /** The record kept in durable storage. */
  datatype Durable = Durable(
    config: Option<JobConfig>, runningRunId: Option<string>, scheduledFor: Option<int>,
    lastDispatchedFor: Option<int>, attempt: nat)

  const EMPTY := Durable(None, None, None, None, 0)

  datatype JobRunMessage = JobRunMessage(
    jobId: string, organizationId: string, siteId: string, scheduledFor: int, attempt: nat, idempotencyKey: string)

  datatype SkippedRun = SkippedRun(jobId: string, scheduledFor: int, reason: string)

  /** Everything a step can change: the record, the alarm, the queue and the skip log. */
  datatype World = World(job: Durable, alarm: Option<int>, queue: seq<JobRunMessage>, skips: seq<SkippedRun>)

  const START := World(EMPTY, None, [], [])

  function RunKey(jobId: string, tick: int, attempt: nat): string {
    jobId + ":" + (PrintInt(tick) + ":" + PrintNat(attempt))
  }

  // --------------------------------------------------------------- decisions ---

  /** Fixed intervals stay anchored to the creation instant. */
  function NextIntervalRun(intervalSeconds: int, anchorMs: int, afterMs: int): int
    requires intervalSeconds > 0
  {
    var period := intervalSeconds * 1000;
    if afterMs < anchorMs then anchorMs else anchorMs + ((afterMs - anchorMs) / period + 1) * period
  }

  /** The next interval run is the least point of the anchored grid after `afterMs`. */
  lemma NextIntervalRunIsLeast(intervalSeconds: int, anchorMs: int, afterMs: int, k: nat)
    requires intervalSeconds > 0
    ensures var next := NextIntervalRun(intervalSeconds, anchorMs, afterMs); var period := intervalSeconds * 1000;
      && next > afterMs && next >= anchorMs
      && (exists j: nat :: next == anchorMs + j * period)
      && (anchorMs + k * period > afterMs ==> anchorMs + k * period >= next)
  {
    var period := intervalSeconds * 1000;
    if afterMs >= anchorMs {
      var q := GridIndex(afterMs - anchorMs, period);
      assert NextIntervalRun(intervalSeconds, anchorMs, afterMs) == anchorMs + (q + 1) * period;
      if anchorMs + k * period > afterMs && k <= q {
        ScaleMonotone(k, q, period);
      } else if k > q {
        ScaleMonotone(q + 1, k, period);
      }
    } else {
      assert anchorMs == anchorMs + 0 * period;
      ScaleMonotone(0, k, period);
    }
  }

  lemma GridIndex(elapsed: nat, period: int) returns (q: nat)
    requires period > 0
    ensures q == elapsed / period && q * period <= elapsed < (q + 1) * period
  {
    q := elapsed / period;
    assert elapsed == period * q + elapsed % period;
    assert (q + 1) * period == q * period + period;
  }

  lemma ScaleMonotone(a: int, b: int, period: int)
    requires a <= b && period > 0
    ensures a * period <= b * period
  {
  }

  function NextOnceRun(runAtMs: int, afterMs: int): Option<int> {
    if runAtMs > afterMs then Some(runAtMs) else None
  }

  datatype Computed = Next(at: Option<int>) | Throws

  function ComputeNext(config: JobConfig, afterMs: int): Computed {
    match config.scheduleKind
    case CronSchedule =>
      if config.cron.None? then Next(None) else
        var next := NextCron(config.cron.value, config.zone, afterMs);
        if next.NoNextRun? then Throws else Next(Some(next.at))
    case IntervalSchedule =>
      if config.intervalSeconds.None? then Next(None)
      else if config.intervalSeconds.value <= 0 then Throws
      else Next(Some(NextIntervalRun(config.intervalSeconds.value, config.createdAt, afterMs)))
    case OnceSchedule =>
      if config.runOnceAt.None? then Next(None) else Next(NextOnceRun(config.runOnceAt.value, afterMs))
  }

  /** Whatever the kind of schedule, the next run lies strictly in the future. */
  lemma ComputeNextIsLater(config: JobConfig, afterMs: int)
    ensures var c := ComputeNext(config, afterMs); c.Next? && c.at.Some? ==> afterMs < c.at.value
  {
    hide NextCron;
    if config.scheduleKind.CronSchedule? && config.cron.Some? {
      if NextCron(config.cron.value, config.zone, afterMs).Run? {
        NextCronAfter(config.cron.value, config.zone, afterMs);
      }
    }
    if config.scheduleKind.IntervalSchedule? && config.intervalSeconds.Some? && config.intervalSeconds.value > 0 {
      NextIntervalRunIsLeast(config.intervalSeconds.value, config.createdAt, afterMs, 0);
    }
  }

  /** What a job's next run is: for a fixed interval the least point after the instant of the grid anchored at the job's
      creation, for a single run its own time while that is still to come, for a cron schedule what the search finds. */
  lemma ComputeNextMeaning(config: JobConfig, afterMs: int, k: nat)
    ensures config.scheduleKind.IntervalSchedule? && config.intervalSeconds.Some? && config.intervalSeconds.value > 0 ==>
      var c := ComputeNext(config, afterMs); var period := config.intervalSeconds.value * 1000;
      && c.Next? && c.at.Some? && afterMs < c.at.value && (exists j: nat :: c.at.value == config.createdAt + j * period)
      && (config.createdAt + k * period > afterMs ==> c.at.value <= config.createdAt + k * period)
    ensures config.scheduleKind.OnceSchedule? ==>
      forall t :: ComputeNext(config, afterMs) == Next(Some(t)) <==> config.runOnceAt == Some(t) && afterMs < t
    ensures config.scheduleKind.CronSchedule? && config.cron.Some? ==>
      forall t :: ComputeNext(config, afterMs) == Next(Some(t)) <==> NextCron(config.cron.value, config.zone, afterMs) == Run(t)
    ensures ComputeNext(config, afterMs).Throws? <==>
      || (config.scheduleKind.IntervalSchedule? && config.intervalSeconds.Some? && config.intervalSeconds.value <= 0)
      || (config.scheduleKind.CronSchedule? && config.cron.Some? &&
          NextCron(config.cron.value, config.zone, afterMs).NoNextRun?)
  {
    hide NextCron;
    if config.scheduleKind.IntervalSchedule? && config.intervalSeconds.Some? && config.intervalSeconds.value > 0 {
      NextIntervalRunIsLeast(config.intervalSeconds.value, config.createdAt, afterMs, k);
      hide NextIntervalRun;
    }
  }

  /** The catch-up ticks the policy runs, and always the current tick. */
  function TicksToRun(config: JobConfig, lastDispatchedFor: Option<int>, tick: int): seq<int> {
    if !config.scheduleKind.CronSchedule? || config.cron.None? || lastDispatchedFor.None? then [tick]
    else
      var f, last := config.cron.value, lastDispatchedFor.value;
      var ticks := MissedFrom(f, config.zone, last, tick, DEFAULT_CAP);
      var truncated := Truncated(f, config.zone, last, tick, DEFAULT_CAP);
      var decision := DecideCatchup(config.catchupPolicy, ticks, truncated);
      Sorted((set t | t in decision.run) + {tick})
  }

  /** The ticks to run ascend and end with the current tick; the others lie after the last dispatched one. */
  lemma TicksToRunInWindow(config: JobConfig, lastDispatchedFor: Option<int>, tick: int)
    ensures var ticks := TicksToRun(config, lastDispatchedFor, tick);
      && Ascending(ticks) && ticks != [] && ticks[|ticks| - 1] == tick
      && (forall t :: t in ticks ==> t == tick || (lastDispatchedFor.Some? && lastDispatchedFor.value < t < tick))
      && (lastDispatchedFor.None? ==> ticks == [tick])
  {
    hide MissedFrom, Truncated, Sorted, DecideCatchup;
    var ticks := TicksToRun(config, lastDispatchedFor, tick);
    if config.scheduleKind.CronSchedule? && config.cron.Some? && lastDispatchedFor.Some? {
      var f, last := config.cron.value, lastDispatchedFor.value;
      MissedInWindow(f, config.zone, last, tick, DEFAULT_CAP);
      var missed := MissedFrom(f, config.zone, last, tick, DEFAULT_CAP);
      var truncated := Truncated(f, config.zone, last, tick, DEFAULT_CAP);
      CatchupRunsMissed(config.catchupPolicy, missed, truncated);
      assert forall t :: t in ticks ==> t == tick || t in missed;
    }
    LastIsGreatest(ticks, tick);
  }

  /** Which ticks run: the current one, and of the missed ones of a cron schedule all, the last or none, as the
      catch-up policy says. */
  lemma TicksToRunMeaning(config: JobConfig, last: int, tick: int, t: int)
    requires config.scheduleKind.CronSchedule? && config.cron.Some?
    ensures var missed := MissedFrom(config.cron.value, config.zone, last, tick, DEFAULT_CAP);
      t in TicksToRun(config, Some(last), tick) <==>
        || t == tick
        || (config.catchupPolicy.RunAll? && t in missed)
        || (config.catchupPolicy.RunOnce? && missed != [] && t == missed[|missed| - 1])
  {
    hide MissedFrom, Truncated, Sorted, Sorting.Sort;
    var missed := MissedFrom(config.cron.value, config.zone, last, tick, DEFAULT_CAP);
    MissedInWindow(config.cron.value, config.zone, last, tick, DEFAULT_CAP);
    SortKeepsAscending(missed);
  }

  lemma CatchupRunsMissed(policy: CatchupPolicy, missed: seq<int>, truncated: bool)
    ensures forall t :: t in DecideCatchup(policy, missed, truncated).run ==> t in missed
  {
    hide DecideCatchup;
    CatchupPartitions(policy, missed, truncated);
    var d := DecideCatchup(policy, missed, truncated);
    forall t | t in d.run ensures t in missed {
      assert t in multiset(d.dropped + d.run);
      assert t in multiset(missed);
    }
  }

  lemma LastIsGreatest(ticks: seq<int>, tick: int)
    requires Ascending(ticks) && tick in ticks && forall t :: t in ticks ==> t <= tick
    ensures ticks != [] && ticks[|ticks| - 1] == tick
  {
    var i :| 0 <= i < |ticks| && ticks[i] == tick;
    assert ticks[|ticks| - 1] in ticks;
  }

  // ------------------------------------------------------------ what steps do ---

  function Message(config: JobConfig, tick: int, attempt: nat): JobRunMessage {
    JobRunMessage(config.jobId, config.organizationId, config.siteId, tick, attempt,
                  RunKey(config.jobId, tick, attempt))
  }

  function Messages(config: JobConfig, ticks: seq<int>, attempt: nat): (r: seq<JobRunMessage>)
    ensures |r| == |ticks|
    ensures forall i :: 0 <= i < |ticks| ==> r[i] == Message(config, ticks[i], attempt)
  {
    seq(|ticks|, i requires 0 <= i < |ticks| => Message(config, ticks[i], attempt))
  }

  /** The outcome of a step: the world it leaves and whether its handler ran to the end. */
  datatype Outcome = Outcome(world: World, completed: bool)

  function ArmStep(w: World, config: JobConfig, now: int): Outcome {
    var job := w.job.(config := Some(config), attempt := 0);
    if !config.enabled then
      Outcome(w.(job := job.(scheduledFor := None), alarm := None), true)
    else
      match ComputeNext(config, now)
      case Throws => Outcome(w, false)
      case Next(next) =>
        Outcome(w.(job := job.(scheduledFor := next), alarm := if next.Some? then next else w.alarm), true)
  }

  function DisarmStep(w: World): Outcome {
    Outcome(w.(job := EMPTY, alarm := None), true)
  }

  function CurrentTick(w: World, now: int): int {
    if w.job.scheduledFor.Some? then w.job.scheduledFor.value else now
  }

  /** `accepted` is the number of messages the queue takes before a send fails. A handler that throws
      leaves the stored record as it was and its alarm due again. */
  function AlarmStep(w: World, now: int, accepted: nat): Outcome {
    if w.job.config.None? || !w.job.config.value.enabled then Outcome(w.(alarm := None), true)
    else
      var config := w.job.config.value;
      var tick := CurrentTick(w, now);
      var ticks := TicksToRun(config, w.job.lastDispatchedFor, tick);
      var overlap := DecideOverlap(config.overlapPolicy, w.job.runningRunId);
      if overlap.SkipTick? then
        Rearm(w.(skips := w.skips + [SkippedRun(config.jobId, tick, overlap.reason)]), w.job, config, now)
      else if accepted < |ticks| then
        Outcome(w.(queue := w.queue + Messages(config, ticks[..accepted], w.job.attempt)), false)
      else
        var job := if ticks == [] then w.job else
          var last := ticks[|ticks| - 1];
          w.job.(runningRunId := Some(RunKey(config.jobId, last, w.job.attempt)), lastDispatchedFor := Some(last));
        Rearm(w.(queue := w.queue + Messages(config, ticks, w.job.attempt)), job, config, now)
  }

  /** The overlap rule. Under `skip`, an alarm that finds a run on record sends nothing, leaves the run lock and the last
      dispatch alone, and logs one skip, of the tick it was for. In every other case nothing is logged, and the ticks go
      out as far as the queue takes them. */
  lemma AlarmSkipsIff(w: World, now: int, accepted: nat)
    requires w.job.config.Some? && w.job.config.value.enabled
    ensures var config, w1 := w.job.config.value, AlarmStep(w, now, accepted).world;
      var tick := if w.job.scheduledFor.Some? then w.job.scheduledFor.value else now;
      var ticks := TicksToRun(config, w.job.lastDispatchedFor, tick);
      if config.overlapPolicy.Skip? && w.job.runningRunId.Some? then
        && w1.queue == w.queue && w1.job.runningRunId == w.job.runningRunId
        && w1.job.lastDispatchedFor == w.job.lastDispatchedFor
        && |w1.skips| == |w.skips| + 1 && w1.skips[..|w.skips|] == w.skips
        && w1.skips[|w.skips|].jobId == config.jobId && w1.skips[|w.skips|].scheduledFor == tick
      else
        && w1.skips == w.skips
        && w1.queue == w.queue + Messages(config, if accepted < |ticks| then ticks[..accepted] else ticks, w.job.attempt)
  {
    hide ComputeNext, TicksToRun, Messages, RunKey;
  }

  /** Store the record with the next run and set the alarm, unless computing it throws. */
  function Rearm(w: World, job: Durable, config: JobConfig, now: int): Outcome {
    match ComputeNext(config, now)
    case Throws => Outcome(w, false)
    case Next(next) => Outcome(w.(job := job.(scheduledFor := next), alarm := next), true)
  }

  function FinishStep(w: World, runId: string, ok: bool, now: int, random: real): Outcome {
    if w.job.config.None? then Outcome(w, true)
    else
      var config := w.job.config.value;
      var job := if w.job.runningRunId == Some(runId) then w.job.(runningRunId := None) else w.job;
      if ok then Outcome(w.(job := job.(attempt := 0)), true)
      else
        var retry := DecideRetry(job.attempt, config.maxRetries, config.retryBackoffSeconds, random);
        if !retry.retry then Outcome(w.(job := job.(attempt := 0)), true)
        else
          var retryAt := now + retry.delaySeconds * 1000;
          var alarmAt := if job.scheduledFor.None? || retryAt < job.scheduledFor.value then retryAt
                         else job.scheduledFor.value;
          Outcome(w.(job := job.(attempt := retry.attempt), alarm := Some(alarmAt)), true)
  }

  // --------------------------------------------------------------- the object ---

  class Scheduler {
    var job: Durable
    var alarmAt: Option<int>
    var queue: seq<JobRunMessage>
    var skips: seq<SkippedRun>

    ghost function View(): World
      reads this
    {
      World(job, alarmAt, queue, skips)
    }

    constructor ()
      ensures View() == START
    {
      job := EMPTY;
      alarmAt := None;
      queue := [];
      skips := [];
    }

    method Arm(config: JobConfig, now: int) returns (completed: bool)
      modifies this
      ensures Outcome(View(), completed) == ArmStep(old(View()), config, now)
    {
      hide ComputeNext;
      if !config.enabled {
        alarmAt := None;
        job := Durable(Some(config), job.runningRunId, None, job.lastDispatchedFor, 0);
        return true;
      }
      var next := ComputeNext(config, now);
      if next.Throws? {
        return false;
      }
      job := Durable(Some(config), job.runningRunId, next.at, job.lastDispatchedFor, 0);
      if next.at.Some? {
        alarmAt := next.at;
      }
      return true;
    }

    method Disarm()
      modifies this
      ensures Outcome(View(), true) == DisarmStep(old(View()))
    {
      alarmAt := None;
      job := EMPTY;
    }

    /** Sends one message for each tick until the queue refuses one. */
    method Send(config: JobConfig, ticks: seq<int>, attempt: nat, accepted: nat) returns (all: bool)
      modifies this`queue
      ensures all <==> |ticks| <= accepted
      ensures queue == old(queue) + Messages(config, if all then ticks else ticks[..accepted], attempt)
    {
      hide RunKey;
      var sent := 0;
      while sent < |ticks|
        invariant 0 <= sent <= |ticks| && sent <= accepted
        invariant queue == old(queue) + Messages(config, ticks[..sent], attempt)
      {
        if sent == accepted {
          return false;
        }
        queue := queue + [Message(config, ticks[sent], attempt)];
        assert Messages(config, ticks[..sent + 1], attempt)
            == Messages(config, ticks[..sent], attempt) + [Message(config, ticks[sent], attempt)];
        sent := sent + 1;
      }
      assert ticks[..sent] == ticks;
      return true;
    }

    method Alarm(now: int, accepted: nat) returns (completed: bool)
      modifies this
      ensures Outcome(View(), completed) == AlarmStep(old(View()), now, accepted)
    {
      hide ComputeNext, TicksToRun, Messages, RunKey, DecideOverlap;
      if job.config.None? || !job.config.value.enabled {
        alarmAt := None;
        return true;
      }
      var config := job.config.value;
      var state := job;
      var tick := if state.scheduledFor.Some? then state.scheduledFor.value else now;
      var ticks := TicksToRun(config, state.lastDispatchedFor, tick);
      var overlap := DecideOverlap(config.overlapPolicy, state.runningRunId);
      if overlap.SkipTick? {
        skips := skips + [SkippedRun(config.jobId, tick, overlap.reason)];
      } else {
        completed := Send(config, ticks, state.attempt, accepted);
        if !completed {
          return;
        }
        if ticks != [] {
          var last := ticks[|ticks| - 1];
          state := state.(runningRunId := Some(RunKey(config.jobId, last, state.attempt)),
                          lastDispatchedFor := Some(last));
        }
      }
      var next := ComputeNext(config, now);
      if next.Throws? {
        return false;
      }
      job := state.(scheduledFor := next.at);
      alarmAt := next.at;
      return true;
    }

    method Finish(runId: string, ok: bool, now: int, random: real)
      modifies this
      ensures Outcome(View(), true) == FinishStep(old(View()), runId, ok, now, random)
    {
      hide DecideRetry;
      if job.config.None? {
        return;
      }
      var config := job.config.value;
      var state := job;
      if state.runningRunId == Some(runId) {
        state := state.(runningRunId := None);
      }
      if ok {
        job := state.(attempt := 0);
        return;
      }
      var retry := DecideRetry(state.attempt, config.maxRetries, config.retryBackoffSeconds, random);
      if !retry.retry {
        job := state.(attempt := 0);
        return;
      }
      var retryAt := now + retry.delaySeconds * 1000;
      job := state.(attempt := retry.attempt);
      if state.scheduledFor.None? || retryAt < state.scheduledFor.value {
        alarmAt := Some(retryAt);
      } else {
        alarmAt := state.scheduledFor;
      }
    }
  }
}
