/** What a scheduler does when reality does not match the schedule. */
module Policy {
  import opened Options
  import opened Sorting
  import opened Ticks

  datatype OverlapPolicy = Skip | Queue | CancelPrevious
  datatype OverlapDecision = RunNow | SkipTick(reason: string) | QueueTick | CancelRun(runId: string)

  function DecideOverlap(policy: OverlapPolicy, runningRunId: Option<string>): OverlapDecision {
    match runningRunId
    case None => RunNow
    case Some(id) =>
      match policy
      case Skip => SkipTick("previous run " + id + " still in progress")
      case Queue => QueueTick
      case CancelPrevious => CancelRun(id)
  }

  /** A tick runs when nothing is running; otherwise each policy has its own answer, and the two that name the run in
      progress name it rightly. */
  lemma OverlapMeaning(policy: OverlapPolicy, runningRunId: Option<string>)
    ensures var d := DecideOverlap(policy, runningRunId);
      && (d.RunNow? <==> runningRunId.None?)
      && (d.SkipTick? <==> policy.Skip? && runningRunId.Some?)
      && (d.QueueTick? <==> policy.Queue? && runningRunId.Some?)
      && (d.CancelRun? <==> policy.CancelPrevious? && runningRunId.Some?)
      && (d.CancelRun? ==> runningRunId == Some(d.runId))
      && (d.SkipTick? ==> d.reason == "previous run " + runningRunId.value + " still in progress")
  {
  }

  datatype CatchupPolicy = SkipMissed | RunOnce | RunAll
  datatype CatchupDecision = CatchupDecision(run: seq<int>, dropped: seq<int>, truncated: bool)

  function DecideCatchup(policy: CatchupPolicy, missedTicks: seq<int>, truncated: bool): CatchupDecision {
    var ticks := Sort(Earlier, missedTicks);
    match policy
    case SkipMissed => CatchupDecision([], ticks, truncated)
    case RunOnce =>
      if ticks == [] then CatchupDecision([], [], truncated)
      else CatchupDecision([ticks[|ticks| - 1]], ticks[..|ticks| - 1], truncated)
    case RunAll => CatchupDecision(ticks, [], truncated)
  }

  /** No tick is lost or run twice by a catch-up decision, whatever order the ticks come in: those dropped and then
      those that run are the missed ones in order, and as many run as the policy says. */
  lemma CatchupPartitions(policy: CatchupPolicy, missedTicks: seq<int>, truncated: bool)
    ensures var d := DecideCatchup(policy, missedTicks, truncated);
      && InOrder(d.dropped + d.run) && multiset(d.dropped + d.run) == multiset(missedTicks) && d.truncated == truncated
      && |d.run| == match policy
                    case SkipMissed => 0
                    case RunOnce => if missedTicks == [] then 0 else 1
                    case RunAll => |missedTicks|
  {
    hide Sort;
    SortedInOrder(missedTicks);
    var ticks := Sort(Earlier, missedTicks);
    var d := DecideCatchup(policy, missedTicks, truncated);
    assert |multiset(ticks)| == |ticks| && |multiset(missedTicks)| == |missedTicks|;
    assert d.dropped + d.run == ticks;
  }

  const MAX_BACKOFF_SECONDS := 3_600

  datatype RetryDecision = RetryDecision(retry: bool, attempt: nat, delaySeconds: int, deadLetter: bool)

  function Pow2(e: nat): nat {
    if e == 0 then 1 else 2 * Pow2(e - 1)
  }

  function Round(x: real): int {
    (x + 0.5).Floor
  }

  function Ceiling(attempt: nat, baseBackoffSeconds: nat): (c: nat)
    ensures c <= MAX_BACKOFF_SECONDS
  {
    var backoff := baseBackoffSeconds * Pow2(attempt);
    if backoff < MAX_BACKOFF_SECONDS then backoff else MAX_BACKOFF_SECONDS
  }

  function Jittered(ceiling: nat, random: real): int {
    Round(ceiling as real * random)
  }

  /** `random` is the jitter draw, at least 0 and below 1. */
  function DecideRetry(attempt: nat, maxRetries: int, baseBackoffSeconds: nat, random: real): RetryDecision {
    if attempt >= maxRetries then RetryDecision(false, attempt, 0, true)
    else
      var jittered := Jittered(Ceiling(attempt, baseBackoffSeconds), random);
      RetryDecision(true, attempt + 1, if jittered < 1 then 1 else jittered, false)
  }

  lemma RetryDelayBounds(attempt: nat, maxRetries: int, baseBackoffSeconds: nat, random: real)
    requires 0.0 <= random < 1.0
    ensures var d := DecideRetry(attempt, maxRetries, baseBackoffSeconds, random);
      && (d.retry <==> attempt < maxRetries) && (d.retry <==> !d.deadLetter)
      && (d.retry ==> 1 <= d.delaySeconds <= MAX_BACKOFF_SECONDS && d.attempt == attempt + 1)
      && (!d.retry ==> d.delaySeconds == 0 && d.attempt == attempt)
  {
    hide Ceiling, Jittered;
    JitterWithin(Ceiling(attempt, baseBackoffSeconds), random);
  }

  /** The backoff starts at the base and doubles with every attempt, up to an hour. */
  lemma CeilingDoubles(attempt: nat, baseBackoffSeconds: nat)
    ensures Ceiling(0, baseBackoffSeconds) == if baseBackoffSeconds < 3_600 then baseBackoffSeconds else 3_600
    ensures Ceiling(attempt + 1, baseBackoffSeconds)
         == var doubled := 2 * Ceiling(attempt, baseBackoffSeconds); if doubled < 3_600 then doubled else 3_600
  {
    assert Pow2(0) == 1;
    assert baseBackoffSeconds * Pow2(attempt + 1) == 2 * (baseBackoffSeconds * Pow2(attempt));
  }

  /** Full jitter: the delay is the drawn share of the ceiling to the nearest second, and at least one. */
  lemma DelayIsJitteredCeiling(attempt: nat, maxRetries: int, baseBackoffSeconds: nat, random: real)
    requires 0.0 <= random < 1.0 && attempt < maxRetries
    ensures var delay := DecideRetry(attempt, maxRetries, baseBackoffSeconds, random).delaySeconds;
      var share := Ceiling(attempt, baseBackoffSeconds) as real * random;
      share >= 0.5 ==> share - 0.5 < delay as real <= share + 0.5
    ensures var share := Ceiling(attempt, baseBackoffSeconds) as real * random;
      share < 0.5 ==> DecideRetry(attempt, maxRetries, baseBackoffSeconds, random).delaySeconds == 1
  {
    hide Ceiling;
  }

  lemma JitterWithin(ceiling: nat, random: real)
    requires 0.0 <= random < 1.0
    ensures 0 <= Jittered(ceiling, random) <= ceiling
  {
    ScaleBelow(ceiling as real, random);
    RoundWithin(ceiling as real * random, ceiling);
    hide Round;
  }

  lemma ScaleBelow(x: real, random: real)
    requires 0.0 <= random < 1.0 && 0.0 <= x
    ensures 0.0 <= x * random <= x
  {
  }

  lemma RoundWithin(x: real, ceiling: nat)
    requires 0.0 <= x <= ceiling as real
    ensures 0 <= Round(x) <= ceiling
  {
  }
}
