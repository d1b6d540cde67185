/** Whole runs of the job scheduler: any sequence of arm, disarm, alarm and finish steps. */
module SchedulerRuns {
  import opened Cron
  import opened Decimal
  import opened JobScheduler
  import opened MissedRuns
  import opened NextRun
  import opened Options
  import opened Policy
  import opened Sorting
  import opened Ticks
  import opened TimeZone

  datatype Step =
    | Arm(now: int, config: JobConfig)
    | Disarm(now: int)
    | AlarmFires(now: int, accepted: nat)
    | Finish(now: int, runId: string, ok: bool, random: real)

  function Apply(w: World, step: Step): Outcome {
    match step
    case Arm(now, config) => ArmStep(w, config, now)
    case Disarm(_) => DisarmStep(w)
    case AlarmFires(now, accepted) => AlarmStep(w, now, accepted)
    case Finish(now, runId, ok, random) => FinishStep(w, runId, ok, now, random)
  }

  function After(steps: seq<Step>): World {
    if steps == [] then START else Apply(After(steps[..|steps| - 1]), steps[|steps| - 1]).world
  }

  function QueueTicks(queue: seq<JobRunMessage>): seq<int> {
    seq(|queue|, i requires 0 <= i < |queue| => queue[i].scheduledFor)
  }

  // -------------------------------------------------- no tick is enqueued twice ---

  /** An alarm fires only when it is set and due, never before the tick it was set for, and its handler
      runs to the end. Every other step is unrestricted, failing finishes included. */
  ghost predicate Timely(w: World, step: Step) {
    step.AlarmFires? ==>
      && w.alarm.Some? && w.alarm.value <= step.now
      && (w.job.scheduledFor.Some? ==> w.job.scheduledFor.value <= step.now)
      && Apply(w, step).completed
  }

  ghost predicate ValidJitter(step: Step) {
    step.Finish? ==> 0.0 <= step.random < 1.0
  }

  ghost predicate TimelyRun(steps: seq<Step>) {
    && (forall i, j :: 0 <= i < j < |steps| ==> steps[i].now <= steps[j].now)
    && (forall i :: 0 <= i < |steps| ==> ValidJitter(steps[i]) && Timely(After(steps[..i]), steps[i]))
  }

  /** What every timely step keeps: ticks ascend, and everything still to come lies after the last one. */
  ghost predicate DispatchInvariant(w: World, clock: int) {
    var ticks := QueueTicks(w.queue);
    && Ascending(ticks)
    && (ticks == [] ==> w.job.lastDispatchedFor.None?)
    && (ticks != [] ==>
          var last := ticks[|ticks| - 1];
          && last <= clock
          && (w.job.lastDispatchedFor.Some? ==> w.job.lastDispatchedFor.value == last)
          && (w.job.scheduledFor.Some? ==> last < w.job.scheduledFor.value)
          && (w.alarm.Some? ==> last < w.alarm.value))
  }

  lemma AppendTicks(w: World, config: JobConfig, ticks: seq<int>, attempt: nat)
    ensures QueueTicks(w.queue + Messages(config, ticks, attempt)) == QueueTicks(w.queue) + ticks
  {
    hide RunKey;
    var all := w.queue + Messages(config, ticks, attempt);
    assert forall i :: 0 <= i < |ticks| ==> all[|w.queue| + i] == Message(config, ticks[i], attempt);
  }

  lemma AscendingAppend(a: seq<int>, b: seq<int>)
    requires Ascending(a) && Ascending(b)
    requires a != [] && b != [] ==> a[|a| - 1] < b[0]
    ensures Ascending(a + b)
  {
    var s := a + b;
    forall i, j | 0 <= i < j < |s| ensures s[i] < s[j] {
      if i < |a| <= j {
        assert a[i] <= a[|a| - 1] && b[0] <= b[j - |a|];
      }
    }
  }

  /** The ticks of one alarm go after everything enqueued before. */
  lemma DispatchExtends(config: JobConfig, sent: seq<int>, last: Option<int>, tick: int)
    requires Ascending(sent) && (last.Some? ==> last.value < tick)
    requires sent != [] ==> sent[|sent| - 1] < tick && (last.Some? ==> last.value == sent[|sent| - 1])
    ensures var ticks := TicksToRun(config, last, tick);
      Ascending(sent + ticks) && ticks != [] && ticks[|ticks| - 1] == tick
  {
    hide TicksToRun;
    var ticks := TicksToRun(config, last, tick);
    TicksToRunInWindow(config, last, tick);
    FirstIsMember(ticks);
    AscendingAppend(sent, ticks);
  }

  lemma AlarmKeepsInvariant(w: World, clock: int, now: int, accepted: nat)
    requires DispatchInvariant(w, clock) && clock <= now && Timely(w, AlarmFires(now, accepted))
    ensures DispatchInvariant(AlarmStep(w, now, accepted).world, now)
  {
    hide ComputeNext, TicksToRun, Messages, QueueTicks, Ascending, DecideOverlap, RunKey;
    if w.job.config.Some? && w.job.config.value.enabled {
      var config := w.job.config.value;
      var tick := CurrentTick(w, now);
      var ticks := TicksToRun(config, w.job.lastDispatchedFor, tick);
      ComputeNextIsLater(config, now);
      if !DecideOverlap(config.overlapPolicy, w.job.runningRunId).SkipTick? {
        AppendTicks(w, config, ticks, w.job.attempt);
        DispatchExtends(config, QueueTicks(w.queue), w.job.lastDispatchedFor, tick);
      }
    }
  }

  lemma FinishKeepsInvariant(w: World, clock: int, now: int, runId: string, ok: bool, random: real)
    requires DispatchInvariant(w, clock) && clock <= now && 0.0 <= random < 1.0
    ensures DispatchInvariant(FinishStep(w, runId, ok, now, random).world, now)
  {
    hide DecideRetry, QueueTicks;
    if w.job.config.Some? {
      var config := w.job.config.value;
      RetryDelayBounds(w.job.attempt, config.maxRetries, config.retryBackoffSeconds, random);
    }
  }

  lemma StepKeepsInvariant(w: World, clock: int, step: Step)
    requires DispatchInvariant(w, clock) && clock <= step.now && Timely(w, step) && ValidJitter(step)
    ensures DispatchInvariant(Apply(w, step).world, step.now)
  {
    hide ComputeNext, QueueTicks, Ascending, AlarmStep, FinishStep;
    match step
    case Arm(now, config) => ComputeNextIsLater(config, now);
    case Disarm(_) =>
    case AlarmFires(now, accepted) => AlarmKeepsInvariant(w, clock, now, accepted);
    case Finish(now, runId, ok, random) => FinishKeepsInvariant(w, clock, now, runId, ok, random);
  }

  lemma {:induction false} RunKeepsInvariant(steps: seq<Step>, n: nat)
    requires TimelyRun(steps) && 0 < n <= |steps|
    ensures DispatchInvariant(After(steps[..n]), steps[n - 1].now)
  {
    var before := steps[..n - 1];
    assert steps[..n][..n - 1] == before;
    if n > 1 {
      RunKeepsInvariant(steps, n - 1);
      assert steps[n - 2].now <= steps[n - 1].now;
      StepKeepsInvariant(After(before), steps[n - 2].now, steps[n - 1]);
    } else {
      assert DispatchInvariant(START, steps[0].now);
      StepKeepsInvariant(After(before), steps[0].now, steps[0]);
    }
  }

  ghost predicate WellKeyed(queue: seq<JobRunMessage>) {
    forall i :: 0 <= i < |queue| ==>
      queue[i].idempotencyKey == RunKey(queue[i].jobId, queue[i].scheduledFor, queue[i].attempt)
  }

  lemma MessagesAreWellKeyed(queue: seq<JobRunMessage>, config: JobConfig, ticks: seq<int>, attempt: nat)
    requires WellKeyed(queue)
    ensures WellKeyed(queue + Messages(config, ticks, attempt))
  {
    hide RunKey;
  }

  lemma StepKeepsKeys(w: World, step: Step)
    requires WellKeyed(w.queue)
    ensures WellKeyed(Apply(w, step).world.queue)
  {
    hide TicksToRun, ComputeNext, DecideRetry, Messages, WellKeyed;
    if step.AlarmFires? && w.job.config.Some? {
      var config := w.job.config.value;
      var ticks := TicksToRun(config, w.job.lastDispatchedFor, CurrentTick(w, step.now));
      MessagesAreWellKeyed(w.queue, config, ticks, w.job.attempt);
      if step.accepted < |ticks| {
        MessagesAreWellKeyed(w.queue, config, ticks[..step.accepted], w.job.attempt);
      }
    }
  }

  lemma {:induction false} RunIsWellKeyed(steps: seq<Step>)
    ensures WellKeyed(After(steps).queue)
  {
    if steps != [] {
      hide Apply;
      RunIsWellKeyed(steps[..|steps| - 1]);
      StepKeepsKeys(After(steps[..|steps| - 1]), steps[|steps| - 1]);
    }
  }

  lemma RunKeyDeterminesTick(jobId: string, t1: int, a1: nat, t2: int, a2: nat)
    requires RunKey(jobId, t1, a1) == RunKey(jobId, t2, a2)
    ensures t1 == t2 && a1 == a2
  {
    var x, y := PrintInt(t1) + ":" + PrintNat(a1), PrintInt(t2) + ":" + PrintNat(a2);
    assert (jobId + ":" + x)[|jobId| + 1..] == x && (jobId + ":" + y)[|jobId| + 1..] == y;
    JoinInjective(PrintInt(t1), PrintInt(t2), PrintNat(a1), PrintNat(a2), ':');
    PrintIntInjective(t1, t2);
    ParsePrint(a1);
    ParsePrint(a2);
  }

  /** In every run whose alarms are timely, for any zone, policies and re-arming, the enqueued ticks
      strictly increase, so no idempotency key of a job is ever enqueued twice. */
  lemma NoKeyEnqueuedTwice(steps: seq<Step>, i: nat, j: nat)
    requires TimelyRun(steps)
    requires i < j < |After(steps).queue|
    ensures After(steps).queue[i].scheduledFor < After(steps).queue[j].scheduledFor
    ensures After(steps).queue[i].jobId == After(steps).queue[j].jobId ==>
              After(steps).queue[i].idempotencyKey != After(steps).queue[j].idempotencyKey
  {
    hide Apply, RunKey;
    var queue := After(steps).queue;
    assert steps != [];
    assert steps[..|steps|] == steps;
    RunKeepsInvariant(steps, |steps|);
    assert QueueTicks(queue)[i] < QueueTicks(queue)[j];
    RunIsWellKeyed(steps);
    if queue[i].jobId == queue[j].jobId && queue[i].idempotencyKey == queue[j].idempotencyKey {
      RunKeyDeterminesTick(queue[i].jobId, queue[i].scheduledFor, queue[i].attempt,
                           queue[j].scheduledFor, queue[j].attempt);
    }
  }

  // ------------------------------------------- why the alarms have to be timely ---

  function EveryMinute(zone: Zone): JobConfig {
    JobConfig("job", "org", "site", IntervalSchedule, None, Some(60), None, zone, true, Queue, SkipMissed, 1, 1, 0)
  }

  /** The retry alarm of a failed run comes due before the next tick and dispatches that tick early. */
  function EarlyRetry(zone: Zone): seq<Step> {
    [Arm(0, EveryMinute(zone)), AlarmFires(60_000, 1), Finish(60_500, RunKey("job", 60_000, 0), false, 0.0),
     AlarmFires(61_500, 1), AlarmFires(120_000, 1)]
  }

  lemma AfterThen(steps: seq<Step>, step: Step)
    ensures After(steps + [step]) == Apply(After(steps), step).world
  {
    hide Apply;
    assert (steps + [step])[..|steps|] == steps;
  }

  function Armed(zone: Zone): World {
    World(Durable(Some(EveryMinute(zone)), None, Some(60_000), None, 0), Some(60_000), [], [])
  }

  function FirstDispatched(zone: Zone): World {
    World(Durable(Some(EveryMinute(zone)), Some(RunKey("job", 60_000, 0)), Some(120_000), Some(60_000), 0),
          Some(120_000), [Message(EveryMinute(zone), 60_000, 0)], [])
  }

  function FirstFailed(zone: Zone): World {
    World(Durable(Some(EveryMinute(zone)), None, Some(120_000), Some(60_000), 1),
          Some(61_500), [Message(EveryMinute(zone), 60_000, 0)], [])
  }

  function RetryDispatched(zone: Zone): World {
    World(Durable(Some(EveryMinute(zone)), Some(RunKey("job", 120_000, 1)), Some(120_000), Some(120_000), 1),
          Some(120_000), [Message(EveryMinute(zone), 60_000, 0), Message(EveryMinute(zone), 120_000, 1)], [])
  }

  lemma OneMessage(config: JobConfig, tick: int, attempt: nat)
    ensures Messages(config, [tick], attempt) == [Message(config, tick, attempt)]
  {
    hide RunKey;
  }

  lemma FirstDispatch(zone: Zone)
    ensures ArmStep(START, EveryMinute(zone), 0).world == Armed(zone)
    ensures AlarmStep(Armed(zone), 60_000, 1).world == FirstDispatched(zone)
  {
    hide RunKey, Messages;
    OneMessage(EveryMinute(zone), 60_000, 0);
  }

  lemma FirstFailure(zone: Zone)
    ensures FinishStep(FirstDispatched(zone), RunKey("job", 60_000, 0), false, 60_500, 0.0).world == FirstFailed(zone)
  {
    hide RunKey;
    RetryDelayBounds(0, 1, 1, 0.0);
    assert Pow2(0) == 1;
  }

  lemma EarlyDispatch(zone: Zone)
    ensures AlarmStep(FirstFailed(zone), 61_500, 1).world == RetryDispatched(zone)
    ensures AlarmStep(RetryDispatched(zone), 120_000, 1).world.queue
         == RetryDispatched(zone).queue + [Message(EveryMinute(zone), 120_000, 1)]
  {
    hide RunKey, Messages;
    OneMessage(EveryMinute(zone), 120_000, 1);
  }

  /** A run in which one alarm fires before the tick it dispatches enqueues the same key twice, although
      every alarm fires exactly when it is set. */
  lemma EarlyRetryRepeatsKey(zone: Zone)
    ensures var w := After(EarlyRetry(zone)[..3]); w.alarm == Some(61_500) && w.job.scheduledFor == Some(120_000)
    ensures var queue := After(EarlyRetry(zone)).queue;
      |queue| == 3 && queue[1].idempotencyKey == queue[2].idempotencyKey
  {
    hide RunKey, ArmStep, AlarmStep, FinishStep, EveryMinute;
    var s := EarlyRetry(zone);
    assert [] + [s[0]] == s[..1] && s[..1] + [s[1]] == s[..2] && s[..2] + [s[2]] == s[..3];
    assert s[..3] + [s[3]] == s[..4] && s[..4] + [s[4]] == s;
    AfterThen([], s[0]);
    AfterThen(s[..1], s[1]);
    AfterThen(s[..2], s[2]);
    AfterThen(s[..3], s[3]);
    AfterThen(s[..4], s[4]);
    hide After;
    FirstDispatch(zone);
    FirstFailure(zone);
    EarlyDispatch(zone);
  }

  /** Schedules whose next run is the least one still to come: all but cron schedules in zones that shift. */
  ghost predicate Steady(config: JobConfig, offset: int) {
    config.scheduleKind.CronSchedule? && config.cron.Some? ==>
      ValidFields(config.cron.value) && ValidZone(config.zone) && FixedOffset(config.zone, offset)
  }

  /** Asked again before the run it named, the schedule names the same run; asked afterwards, a later one. */
  lemma NextRunStandsUntilReached(config: JobConfig, offset: int, asked: int, now: int, tick: int)
    requires Steady(config, offset) && asked <= now && ComputeNext(config, asked) == Next(Some(tick))
    ensures ComputeNext(config, now) == Next(Some(tick)) <==> now < tick
  {
    ComputeNextIsLater(config, now);
    if now < tick {
      match config.scheduleKind
      case CronSchedule => NextCronStands(config.cron.value, config.zone, offset, asked, now, tick);
      case IntervalSchedule => NextIntervalStands(config.intervalSeconds.value, config.createdAt, asked, now);
      case OnceSchedule =>
    }
  }

  lemma NextCronStands(f: CronFields, zone: Zone, offset: int, asked: int, now: int, tick: int)
    requires ValidFields(f) && ValidZone(zone) && FixedOffset(zone, offset)
    requires asked <= now < tick && NextCron(f, zone, asked) == Run(tick)
    ensures NextCron(f, zone, now) == Run(tick)
  {
    hide NextCron, FiresAt;
    FixedOffsetSearchExact(f, zone, offset, asked);
    FixedOffsetSearchExact(f, zone, offset, now);
  }

  lemma NextIntervalStands(intervalSeconds: int, anchorMs: int, asked: int, now: int)
    requires intervalSeconds > 0 && asked <= now < NextIntervalRun(intervalSeconds, anchorMs, asked)
    ensures NextIntervalRun(intervalSeconds, anchorMs, now) == NextIntervalRun(intervalSeconds, anchorMs, asked)
  {
    NextIntervalRunIsLeast(intervalSeconds, anchorMs, asked, 0);
    NextIntervalRunIsLeast(intervalSeconds, anchorMs, now, 0);
    hide NextIntervalRun;
    var period := intervalSeconds * 1000;
    var j: nat :| NextIntervalRun(intervalSeconds, anchorMs, asked) == anchorMs + j * period;
    var k: nat :| NextIntervalRun(intervalSeconds, anchorMs, now) == anchorMs + k * period;
    NextIntervalRunIsLeast(intervalSeconds, anchorMs, now, j);
    NextIntervalRunIsLeast(intervalSeconds, anchorMs, asked, k);
  }

  /** A completed alarm that is not skipped: its queue, its record and the tick it goes on to. */
  ghost predicate Dispatches(w: World, now: int, accepted: nat) {
    && w.job.config.Some? && w.job.config.value.enabled && w.job.scheduledFor.Some?
    && !DecideOverlap(w.job.config.value.overlapPolicy, w.job.runningRunId).SkipTick?
    && AlarmStep(w, now, accepted).completed
  }

  lemma DispatchLeaves(w: World, now: int, accepted: nat)
    requires Dispatches(w, now, accepted)
    ensures var config, tick := w.job.config.value, w.job.scheduledFor.value;
      var w1 := AlarmStep(w, now, accepted).world;
      var ticks := TicksToRun(config, w.job.lastDispatchedFor, tick);
      && w1.queue == w.queue + Messages(config, ticks, w.job.attempt)
      && w1.job.config == w.job.config && w1.job.attempt == w.job.attempt
      && ComputeNext(config, now) == Next(w1.job.scheduledFor)
      && (ticks != [] ==> w1.job.lastDispatchedFor == Some(ticks[|ticks| - 1]))
  {
    hide ComputeNext, TicksToRun, RunKey, Messages, DecideOverlap;
  }

  lemma TickAlone(config: JobConfig, tick: int)
    ensures TicksToRun(config, Some(tick), tick) == [tick]
  {
    hide MissedFrom, Truncated, Sorted;
    if config.scheduleKind.CronSchedule? && config.cron.Some? {
      MissedInWindow(config.cron.value, config.zone, tick, tick, DEFAULT_CAP);
      var missed := MissedFrom(config.cron.value, config.zone, tick, tick, DEFAULT_CAP);
      assert missed == [] by { if missed != [] { FirstIsMember(missed); } }
      assert (set t | t in TicksToRun(config, Some(tick), tick)) == {tick};
      AscendingUnique(TicksToRun(config, Some(tick), tick), [tick]);
    }
  }

  /** Two alarms in a row enqueue a common key exactly when the first fires before its tick. */
  lemma ConsecutiveAlarmsRepeatKeyIff(w: World, offset: int, asked: int, now: int, later: int, accepted: nat, acceptedLater: nat)
    requires Dispatches(w, now, accepted) && Dispatches(AlarmStep(w, now, accepted).world, later, acceptedLater)
    requires Steady(w.job.config.value, offset) && asked <= now
    requires ComputeNext(w.job.config.value, asked) == Next(w.job.scheduledFor)
    requires w.job.lastDispatchedFor.Some? ==> w.job.lastDispatchedFor.value < w.job.scheduledFor.value
    ensures var w1 := AlarmStep(w, now, accepted).world; var queue := AlarmStep(w1, later, acceptedLater).world.queue;
      (exists i, j :: |w.queue| <= i < |w1.queue| <= j < |queue| && queue[i].idempotencyKey == queue[j].idempotencyKey)
      <==> now < w.job.scheduledFor.value
  {
    hide ComputeNext, TicksToRun, RunKey, AlarmStep, Steady, DecideOverlap;
    var config, tick := w.job.config.value, w.job.scheduledFor.value;
    var w1 := AlarmStep(w, now, accepted).world;
    var queue := AlarmStep(w1, later, acceptedLater).world.queue;
    var first := TicksToRun(config, w.job.lastDispatchedFor, tick);
    DispatchLeaves(w, now, accepted);
    DispatchLeaves(w1, later, acceptedLater);
    TicksToRunInWindow(config, w.job.lastDispatchedFor, tick);
    NextRunStandsUntilReached(config, offset, asked, now, tick);
    ComputeNextIsLater(config, now);
    if now < tick {
      TickAlone(config, tick);
      assert queue[|w1.queue| - 1] == Message(config, tick, w.job.attempt);
      assert queue[|w1.queue|] == Message(config, tick, w.job.attempt);
    } else {
      var next := w1.job.scheduledFor.value;
      var second := TicksToRun(config, Some(tick), next);
      TicksToRunInWindow(config, Some(tick), next);
      forall i, j | |w.queue| <= i < |w1.queue| <= j < |queue| ensures queue[i].idempotencyKey != queue[j].idempotencyKey {
        var a, b := i - |w.queue|, j - |w1.queue|;
        assert queue[i] == Message(config, first[a], w.job.attempt) && queue[j] == Message(config, second[b], w.job.attempt);
        assert first[a] in first && second[b] in second;
        if queue[i].idempotencyKey == queue[j].idempotencyKey {
          RunKeyDeterminesTick(config.jobId, first[a], w.job.attempt, second[b], w.job.attempt);
        }
      }
    }
  }

  /** What a handler that throws has sent: the ticks the queue took, or all of them when the next run is what
      could not be computed. Its record stays as it was. */
  lemma ThrownHandlerSent(w: World, now: int, accepted: nat)
    requires w.job.config.Some? && w.job.config.value.enabled && w.job.scheduledFor.Some?
    requires !DecideOverlap(w.job.config.value.overlapPolicy, w.job.runningRunId).SkipTick?
    ensures var ticks := TicksToRun(w.job.config.value, w.job.lastDispatchedFor, w.job.scheduledFor.value);
      var w1 := AlarmStep(w, now, accepted).world;
      && (!AlarmStep(w, now, accepted).completed ==> w1.job == w.job)
      && w1.queue == w.queue + Messages(w.job.config.value, if accepted < |ticks| then ticks[..accepted] else ticks,
                                        w.job.attempt)
  {
    hide ComputeNext, TicksToRun, RunKey, Messages, DecideOverlap;
  }

  /** An alarm handler that throws keeps its old record, so the retried handler starts over: the two send a common
      key exactly when each of them gets a message out. */
  lemma ThrowingAlarmRepeatsKeyIff(w: World, now: int, later: int, accepted: nat, acceptedLater: nat)
    requires w.job.config.Some? && w.job.config.value.enabled && w.job.scheduledFor.Some?
    requires !DecideOverlap(w.job.config.value.overlapPolicy, w.job.runningRunId).SkipTick?
    requires !AlarmStep(w, now, accepted).completed
    ensures var w1 := AlarmStep(w, now, accepted).world; var queue := AlarmStep(w1, later, acceptedLater).world.queue;
      (exists i, j :: |w.queue| <= i < |w1.queue| <= j < |queue| && queue[i].idempotencyKey == queue[j].idempotencyKey)
      <==> accepted >= 1 && acceptedLater >= 1
  {
    hide AlarmStep, TicksToRun, RunKey, DecideOverlap;
    var config, tick := w.job.config.value, w.job.scheduledFor.value;
    var ticks := TicksToRun(config, w.job.lastDispatchedFor, tick);
    TicksToRunInWindow(config, w.job.lastDispatchedFor, tick);
    var w1 := AlarmStep(w, now, accepted).world;
    var queue := AlarmStep(w1, later, acceptedLater).world.queue;
    ThrownHandlerSent(w, now, accepted);
    ThrownHandlerSent(w1, later, acceptedLater);
    if accepted >= 1 && acceptedLater >= 1 {
      assert queue[|w.queue|] == Message(config, ticks[0], w.job.attempt);
      assert queue[|w1.queue|] == Message(config, ticks[0], w.job.attempt);
    }
  }

  // ------------------------------------------------------------ no run overlaps ---

  lemma AfterLast(steps: seq<Step>, n: nat)
    requires 0 < n <= |steps|
    ensures After(steps[..n]) == Apply(After(steps[..n - 1]), steps[n - 1]).world
  {
    hide Apply;
    assert steps[..n][..n - 1] == steps[..n - 1];
  }

  /** This alarm runs to its end and enqueues something. */
  ghost predicate Enqueues(steps: seq<Step>, i: nat)
    requires i < |steps|
  {
    && steps[i].AlarmFires? && Apply(After(steps[..i]), steps[i]).completed
    && |After(steps[..i]).queue| < |After(steps[..i + 1]).queue|
  }

  /** The step gives up the run lock that names this run. */
  predicate Ends(step: Step, runId: string) {
    step.Disarm? || (step.Finish? && step.runId == runId)
  }

  ghost predicate SkipsAt(w: World, step: Step) {
    step.AlarmFires? && w.job.config.Some? ==> w.job.config.value.overlapPolicy.Skip?
  }

  lemma EnqueueingLocks(w: World, now: int, accepted: nat)
    requires AlarmStep(w, now, accepted).completed && |w.queue| < |AlarmStep(w, now, accepted).world.queue|
    ensures var w1 := AlarmStep(w, now, accepted).world;
      w1.job.runningRunId == Some(w1.queue[|w1.queue| - 1].idempotencyKey)
  {
    hide ComputeNext, TicksToRun, RunKey, DecideOverlap;
  }

  lemma LockedStepSends(w: World, step: Step, runId: string)
    requires w.job.runningRunId == Some(runId) && !Ends(step, runId) && SkipsAt(w, step)
    ensures Apply(w, step).world.job.runningRunId == Some(runId) && Apply(w, step).world.queue == w.queue
  {
    hide ComputeNext, DecideRetry, TicksToRun, RunKey, Messages;
    if step.AlarmFires? && w.job.config.Some? && w.job.config.value.enabled {
      AlarmSkipsIff(w, step.now, step.accepted);
      hide AlarmStep;
    }
  }

  ghost predicate KeepsLock(steps: seq<Step>, k: nat, runId: string) {
    k < |steps| && !Ends(steps[k], runId) && SkipsAt(After(steps[..k]), steps[k])
  }

  lemma {:induction false} LockStands(steps: seq<Step>, i: nat, j: nat, runId: string)
    requires i < j <= |steps| && After(steps[..i + 1]).job.runningRunId == Some(runId)
    requires forall k: nat :: i < k < j ==> KeepsLock(steps, k, runId)
    ensures After(steps[..j]).job.runningRunId == Some(runId)
    decreases j
  {
    hide After, Apply, Ends, SkipsAt;
    if j > i + 1 {
      LockStands(steps, i, j - 1, runId);
      AfterLast(steps, j);
      assert KeepsLock(steps, j - 1, runId);
      LockedStepSends(After(steps[..j - 1]), steps[j - 1], runId);
    }
  }

  /** Under `skip` no two runs of a job are out at once: of two alarms that enqueue, with the policy in force at every
      alarm after the first, a finish of the run the first one started or a disarm lies between them. */
  lemma SkipNeverOverlaps(steps: seq<Step>, i: nat, j: nat)
    requires i < j < |steps| && Enqueues(steps, i) && Enqueues(steps, j)
    requires forall k :: i < k <= j ==> SkipsAt(After(steps[..k]), steps[k])
    ensures var queue := After(steps[..i + 1]).queue;
      exists k :: i < k < j && Ends(steps[k], queue[|queue| - 1].idempotencyKey)
  {
    hide After, Apply;
    var queue := After(steps[..i + 1]).queue;
    var runId := queue[|queue| - 1].idempotencyKey;
    AfterLast(steps, i + 1);
    AfterLast(steps, j + 1);
    FirstLocks(After(steps[..i]), steps[i]);
    if forall k :: i < k < j ==> !Ends(steps[k], runId) {
      assert forall k: nat :: i < k < j ==> KeepsLock(steps, k, runId);
      LockStands(steps, i, j, runId);
      LockedStepSends(After(steps[..j]), steps[j], runId);
    }
  }

  lemma FirstLocks(w: World, step: Step)
    requires step.AlarmFires? && Apply(w, step).completed && |w.queue| < |Apply(w, step).world.queue|
    ensures var w1 := Apply(w, step).world; w1.job.runningRunId == Some(w1.queue[|w1.queue| - 1].idempotencyKey)
  {
    EnqueueingLocks(w, step.now, step.accepted);
  }

  // ------------------------------------------------- every run is enqueued once ---

  ghost predicate SameSchedule(config: JobConfig, f: CronFields, zone: Zone) {
    && config.scheduleKind.CronSchedule? && config.cron == Some(f) && config.zone == zone
    && config.catchupPolicy.RunAll?
  }

  /** The catch-up scan of this alarm is not cut short, by its cap or by a gap beyond the horizon. */
  ghost predicate CatchupFits(w: World, f: CronFields, zone: Zone, offset: int, step: Step) {
    step.AlarmFires? && w.job.lastDispatchedFor.Some? ==>
      var last, tick := w.job.lastDispatchedFor.value, CurrentTick(w, step.now);
      !Truncated(f, zone, last, tick, DEFAULT_CAP) && GapsWithinHorizon(f, offset, last, tick)
  }

  /** A life of the job: from the start or a disarm on, the steps of one cron schedule under `run_all`, re-armed at
      will and not disarmed again. What the job was before is of no concern. */
  ghost predicate Life(steps: seq<Step>, from: nat, end: nat, f: CronFields, zone: Zone, offset: int)
    requires from <= end <= |steps|
  {
    && (from > 0 ==> steps[from - 1].Disarm?)
    && forall i :: from <= i < end ==>
         && !steps[i].Disarm?
         && (steps[i].Arm? ==> SameSchedule(steps[i].config, f, zone))
         && CatchupFits(After(steps[..i]), f, zone, offset, steps[i])
  }

  /** The ticks are exactly the runs from the first of them to the last. */
  ghost predicate CoversSchedule(ticks: seq<int>, f: CronFields, offset: int) {
    ticks != [] ==> forall u :: ticks[0] <= u <= ticks[|ticks| - 1] ==> (u in ticks <==> FiresAt(f, offset, u))
  }

  /** What a life keeps of the ticks it has enqueued, those after the first `mark`. */
  ghost predicate CoverageInvariant(w: World, mark: nat, f: CronFields, zone: Zone, offset: int) {
    var ticks := QueueTicks(w.queue);
    && mark <= |ticks|
    && CoversSchedule(ticks[mark..], f, offset)
    && (w.job.lastDispatchedFor.Some? <==> mark < |ticks|)
    && (w.job.config.Some? ==> SameSchedule(w.job.config.value, f, zone))
    && (w.job.config.Some? && w.job.config.value.enabled ==> w.job.scheduledFor.Some?)
    && (w.job.scheduledFor.Some? ==> FiresAt(f, offset, w.job.scheduledFor.value))
  }

  lemma ComputeNextFires(config: JobConfig, f: CronFields, zone: Zone, offset: int, after: int)
    requires ValidFields(f) && ValidZone(zone) && FixedOffset(zone, offset) && SameSchedule(config, f, zone)
    ensures var c := ComputeNext(config, after); c.Next? ==> c.at.Some? && FiresAt(f, offset, c.at.value)
  {
    FixedOffsetSearchExact(f, zone, offset, after);
    hide NextCron, FiresAt;
  }

  lemma CoverageExtends(sent: seq<int>, ticks: seq<int>, f: CronFields, offset: int)
    requires Ascending(sent) && Ascending(ticks) && ticks != [] && CoversSchedule(sent, f, offset)
    requires sent == [] ==> |ticks| == 1 && FiresAt(f, offset, ticks[0])
    requires sent != [] ==> ListsExactly(f, offset, sent[|sent| - 1], ticks[|ticks| - 1], ticks)
    ensures CoversSchedule(sent + ticks, f, offset)
  {
    hide FiresAt;
    var all := sent + ticks;
    if sent != [] {
      FirstIsMember(ticks);
      forall u | all[0] <= u <= all[|all| - 1] ensures u in all <==> FiresAt(f, offset, u) {
        var last := sent[|sent| - 1];
        assert u in all <==> u in sent || u in ticks;
        assert u in sent ==> u <= last;
      }
    }
  }

  lemma AscendingSuffix(s: seq<int>, mark: nat)
    requires Ascending(s) && mark <= |s|
    ensures Ascending(s[mark..])
  {
  }

  /** The ticks of one alarm continue what a life has enqueued. */
  lemma DispatchCovers(config: JobConfig, f: CronFields, zone: Zone, offset: int, sent: seq<int>, last: Option<int>, tick: int)
    requires ValidFields(f) && ValidZone(zone) && FixedOffset(zone, offset) && SameSchedule(config, f, zone)
    requires Ascending(sent) && CoversSchedule(sent, f, offset) && FiresAt(f, offset, tick)
    requires last.Some? <==> sent != []
    requires last.Some? ==>
      && last.value == sent[|sent| - 1] && last.value < tick
      && !Truncated(f, zone, last.value, tick, DEFAULT_CAP) && GapsWithinHorizon(f, offset, last.value, tick)
    ensures CoversSchedule(sent + TicksToRun(config, last, tick), f, offset)
  {
    hide TicksToRun, FiresAt, CoversSchedule, Truncated, GapsWithinHorizon, Ascending;
    var ticks := TicksToRun(config, last, tick);
    TicksToRunInWindow(config, last, tick);
    if last.Some? {
      CatchupListsExactly(config, f, zone, offset, last.value, tick);
    }
    CoverageExtends(sent, ticks, f, offset);
  }

  lemma AlarmKeepsCoverage(w: World, clock: int, mark: nat, f: CronFields, zone: Zone, offset: int, now: int, accepted: nat)
    requires ValidFields(f) && ValidZone(zone) && FixedOffset(zone, offset)
    requires DispatchInvariant(w, clock) && Timely(w, AlarmFires(now, accepted))
    requires CoverageInvariant(w, mark, f, zone, offset)
    requires CatchupFits(w, f, zone, offset, AlarmFires(now, accepted))
    ensures CoverageInvariant(AlarmStep(w, now, accepted).world, mark, f, zone, offset)
  {
    hide ComputeNext, TicksToRun, Messages, QueueTicks, FiresAt, CoversSchedule, Truncated, GapsWithinHorizon,
         DecideOverlap, RunKey, Ascending, ValidZone, FixedOffset, ValidFields, DEFAULT_CAP;
    if w.job.config.Some? && w.job.config.value.enabled {
      var config := w.job.config.value;
      var tick := CurrentTick(w, now);
      var ticks := TicksToRun(config, w.job.lastDispatchedFor, tick);
      ComputeNextFires(config, f, zone, offset, now);
      if !DecideOverlap(config.overlapPolicy, w.job.runningRunId).SkipTick? {
        var sent := QueueTicks(w.queue);
        TicksToRunInWindow(config, w.job.lastDispatchedFor, tick);
        AppendTicks(w, config, ticks, w.job.attempt);
        AscendingSuffix(sent, mark);
        DispatchCovers(config, f, zone, offset, sent[mark..], w.job.lastDispatchedFor, tick);
        assert (sent + ticks)[mark..] == sent[mark..] + ticks;
      }
    }
  }

  lemma SortKeepsAscendingMissed(f: CronFields, zone: Zone, last: int, tick: int)
    ensures var missed := MissedFrom(f, zone, last, tick, DEFAULT_CAP); Sort(Earlier, missed) == missed
  {
    hide MissedFrom, Sort;
    MissedInWindow(f, zone, last, tick, DEFAULT_CAP);
    SortKeepsAscending(MissedFrom(f, zone, last, tick, DEFAULT_CAP));
  }

  lemma CatchupListsExactly(config: JobConfig, f: CronFields, zone: Zone, offset: int, last: int, tick: int)
    requires ValidFields(f) && ValidZone(zone) && FixedOffset(zone, offset) && SameSchedule(config, f, zone)
    requires last < tick && FiresAt(f, offset, tick)
    requires !Truncated(f, zone, last, tick, DEFAULT_CAP) && GapsWithinHorizon(f, offset, last, tick)
    ensures ListsExactly(f, offset, last, tick, TicksToRun(config, Some(last), tick))
  {
    hide MissedFrom, FiresAt, Sort, Sorted, Truncated, GapsWithinHorizon;
    TruncatedExact(f, zone, offset, last, tick, DEFAULT_CAP);
    SortKeepsAscendingMissed(f, zone, last, tick);
    MissedInWindow(f, zone, last, tick, DEFAULT_CAP);
  }

  lemma StepKeepsCoverage(w: World, clock: int, mark: nat, f: CronFields, zone: Zone, offset: int, step: Step)
    requires ValidFields(f) && ValidZone(zone) && FixedOffset(zone, offset)
    requires DispatchInvariant(w, clock) && Timely(w, step) && CatchupFits(w, f, zone, offset, step)
    requires !step.Disarm? && (step.Arm? ==> SameSchedule(step.config, f, zone))
    requires CoverageInvariant(w, mark, f, zone, offset)
    ensures CoverageInvariant(Apply(w, step).world, mark, f, zone, offset)
  {
    hide FiresAt, QueueTicks, CoversSchedule, ComputeNext, DecideRetry, AlarmStep, DispatchInvariant, ValidZone,
         FixedOffset, ValidFields;
    match step
    case Arm(now, config) => ComputeNextFires(config, f, zone, offset, now);
    case AlarmFires(now, accepted) => AlarmKeepsCoverage(w, clock, mark, f, zone, offset, now, accepted);
    case _ =>
  }

  /** A disarmed job remembers nothing. */
  lemma LifeStartsAnew(steps: seq<Step>, from: nat, f: CronFields, zone: Zone, offset: int)
    requires from <= |steps| && Life(steps, from, from, f, zone, offset)
    ensures CoverageInvariant(After(steps[..from]), |After(steps[..from]).queue|, f, zone, offset)
  {
    if from > 0 {
      assert steps[..from][..from - 1] == steps[..from - 1];
    }
  }

  lemma NothingDispatched(clock: int)
    ensures After([]) == START && DispatchInvariant(START, clock)
  {
  }

  lemma {:induction false} RunKeepsCoverage(steps: seq<Step>, from: nat, end: nat, f: CronFields, zone: Zone, offset: int)
    requires ValidFields(f) && ValidZone(zone) && FixedOffset(zone, offset)
    requires from <= end <= |steps| && TimelyRun(steps) && Life(steps, from, end, f, zone, offset)
    ensures CoverageInvariant(After(steps[..end]), |After(steps[..from]).queue|, f, zone, offset)
    decreases end
  {
    hide After, Apply, CoverageInvariant, CatchupFits, SameSchedule, ValidZone, FixedOffset, ValidFields, DispatchInvariant;
    if end > from {
      var step := steps[end - 1];
      RunKeepsCoverage(steps, from, end - 1, f, zone, offset);
      AfterLast(steps, end);
      if end > 1 {
        RunKeepsInvariant(steps, end - 1);
        StepKeepsCoverage(After(steps[..end - 1]), steps[end - 2].now, |After(steps[..from]).queue|, f, zone, offset, step);
      } else {
        NothingDispatched(step.now);
        assert steps[..0] == [];
        StepKeepsCoverage(START, step.now, |After(steps[..from]).queue|, f, zone, offset, step);
      }
    } else {
      LifeStartsAnew(steps, from, f, zone, offset);
    }
  }

  /** However late alarms fire and whichever ticks are skipped for overlap, the ticks a life of the job enqueues are
      exactly the runs of its schedule from its first dispatch to its latest, each once and in order, and they all
      come after the ticks of earlier lives. */
  lemma EveryRunEnqueuedOnce(steps: seq<Step>, from: nat, end: nat, f: CronFields, zone: Zone, offset: int)
    requires ValidFields(f) && ValidZone(zone) && FixedOffset(zone, offset)
    requires from <= end <= |steps| && TimelyRun(steps) && Life(steps, from, end, f, zone, offset)
    ensures var mark, ticks := |After(steps[..from]).queue|, QueueTicks(After(steps[..end]).queue);
      && Ascending(ticks) && mark <= |ticks|
      && CoversSchedule(ticks[mark..], f, offset)
  {
    hide FiresAt, Apply;
    RunKeepsCoverage(steps, from, end, f, zone, offset);
    if end > 0 {
      RunKeepsInvariant(steps, end);
    }
  }
}
