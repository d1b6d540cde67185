/** The meter: one serialised counter per organization and billing period, charged by reserving first and
    settling afterwards, with an alarm that reclaims reservations nobody settled. */
module UsageCounter {
  import opened Calendar
  import opened Options
  import opened Ticks

  const RESERVATION_TTL_MS := 600_000
  const SWEEP_INTERVAL_MS := 60_000
  const MAX_PENDING := 10_000
  const MAX_COST := 1_000_000
  const MAX_SAFE_INTEGER := 9_007_199_254_740_991

  datatype PlanId = Free | Starter | Agency | Scale

  /** Actions per month. */
  function PlanLimit(plan: PlanId): int {
    match plan case Free => 500 case Starter => 10_000 case Agency => 100_000 case Scale => 500_000
  }

  datatype Reserved = Reserved(cost: int, reservedAt: int)

  /** The stored record and the object's alarm. */
  datatype Counter = Counter(consumed: int, pending: map<string, Reserved>, expiredCount: int, alarm: Option<int>)

  const EMPTY := Counter(0, map[], 0, None)

  // -------------------------------------------------------------------- totals ---

  ghost function SomeKey<T>(s: set<T>): (x: T)
    requires s != {}
    ensures x in s
  {
    var x :| x in s; x
  }

  ghost function PendingCost(pending: map<string, Reserved>): int
    decreases |pending|
  {
    if pending.Keys == {} then 0 else
      var key := SomeKey(pending.Keys);
      assert |pending - {key}| < |pending| by { Shrinks(pending, key); }
      pending[key].cost + PendingCost(pending - {key})
  }

  lemma Shrinks(pending: map<string, Reserved>, key: string)
    requires key in pending
    ensures |pending - {key}| == |pending| - 1
  {
    assert (pending - {key}).Keys == pending.Keys - {key};
  }

  /** Any entry may be taken out of the sum first. */
  lemma {:induction false} PendingCostWithout(pending: map<string, Reserved>, key: string)
    requires key in pending
    ensures PendingCost(pending) == pending[key].cost + PendingCost(pending - {key})
    decreases |pending|
  {
    var first := SomeKey(pending.Keys);
    if first != key {
      Shrinks(pending, first);
      PendingCostWithout(pending - {first}, key);
      assert pending - {first} - {key} == pending - {key} - {first};
      Shrinks(pending, key);
      PendingCostWithout(pending - {key}, first);
    }
  }

  lemma PendingCostWith(pending: map<string, Reserved>, key: string, r: Reserved)
    requires key !in pending
    ensures PendingCost(pending[key := r]) == PendingCost(pending) + r.cost
  {
    var all := pending[key := r];
    PendingCostWithout(all, key);
    assert all - {key} == pending;
  }

  ghost function Total(c: Counter): int {
    c.consumed + PendingCost(c.pending)
  }

  // ------------------------------------------------------------------ decisions ---

  datatype QuotaState = Within | SoftLimit | HardLimit
  datatype QuotaVerdict = QuotaVerdict(state: QuotaState, used: int, limit: int, remaining: int, resetAt: Option<int>)

  const SOFT_RATIO := 0.8

  function EvaluateQuota(used: int, limit: int, periodEndMs: int): QuotaVerdict {
    var remaining := if limit - used > 0 then limit - used else 0;
    if used >= limit then QuotaVerdict(HardLimit, used, limit, 0, Some(periodEndMs))
    else if used as real >= limit as real * SOFT_RATIO then QuotaVerdict(SoftLimit, used, limit, remaining, None)
    else QuotaVerdict(Within, used, limit, remaining, None)
  }

  /** The verdict: used and remaining make up the limit while any is left, the limit is hard from the whole of it and
      soft from four fifths, and only a hard limit names the instant at which it is lifted. */
  lemma QuotaVerdictMeaning(used: int, limit: int, periodEndMs: int)
    ensures var v := EvaluateQuota(used, limit, periodEndMs);
      && v.used == used && v.limit == limit
      && (v.state.HardLimit? <==> limit <= used) && (v.state.SoftLimit? <==> 4 * limit <= 5 * used < 5 * limit)
      && (used <= limit ==> v.used + v.remaining == v.limit) && (limit <= used ==> v.remaining == 0)
      && v.resetAt == if limit <= used then Some(periodEndMs) else None
  {
    assert used as real >= limit as real * SOFT_RATIO <==> 5 * used >= 4 * limit;
  }

  /** End of the UTC calendar month. */
  function EndOfPeriod(nowMs: int): int {
    var wc := NaiveMsToWallClock(nowMs);
    DateUtc(wc.year, wc.month + 1, 1, 0, 0, 0)
  }

  /** A cost as it arrives in a request body. */
  datatype Cost = NotANumber | NotFinite | Number(value: real)

  function ValidateCost(cost: Cost): (error: Option<string>)
    ensures error.None? <==> cost.Number? && cost.value == cost.value.Floor as real && 0 <= cost.value.Floor <= MAX_COST
    ensures error == Some("cost_not_finite") <==> !cost.Number?
    ensures error == Some("cost_not_integer") <==>
      cost.Number? && (cost.value != cost.value.Floor as real || !(-MAX_SAFE_INTEGER <= cost.value.Floor <= MAX_SAFE_INTEGER))
  {
    if !cost.Number? then Some("cost_not_finite")
    else if cost.value != cost.value.Floor as real || cost.value.Floor > MAX_SAFE_INTEGER || cost.value.Floor < -MAX_SAFE_INTEGER
    then Some("cost_not_integer")
    else if cost.value < 0.0 then Some("cost_negative")
    else if cost.value > MAX_COST as real then Some("cost_implausible")
    else None
  }

  function ValidateKey(key: Option<string>): (error: Option<string>)
    ensures error.None? <==> key.Some? && 1 <= |key.value| <= 256
  {
    if key.None? || key.value == "" then Some("key_missing")
    else if |key.value| > 256 then Some("key_too_long")
    else None
  }

  function ValidatePlan(plan: Option<PlanId>): Option<string> {
    if plan.None? then Some("unknown_plan") else None
  }

  function FirstError(a: Option<string>, b: Option<string>): Option<string> {
    if a.Some? then a else b
  }

  // ---------------------------------------------------------------------- steps ---

  datatype ReserveReply = ReserveReply(admitted: bool, verdict: QuotaVerdict, reservationId: string, error: Option<string>)
  datatype SettleReply = SettleReply(consumed: int, error: Option<string>)

  ghost function ReserveStep(c: Counter, cost: Cost, plan: Option<PlanId>, key: Option<string>, now: int)
    : (Counter, ReserveReply)
  {
    var invalid := FirstError(FirstError(ValidateCost(cost), ValidateKey(key)), ValidatePlan(plan));
    if invalid.Some? then
      (c, ReserveReply(false, QuotaVerdict(HardLimit, 0, 0, 0, Some(EndOfPeriod(now))), "", invalid))
    else
      var limit, k, amount := PlanLimit(plan.value), key.value, cost.value.Floor;
      var end := EndOfPeriod(now);
      if k in c.pending then
        (c, ReserveReply(true, EvaluateQuota(Total(c), limit, end), k, None))
      else if |c.pending| >= MAX_PENDING then
        (c, ReserveReply(false, EvaluateQuota(Total(c), limit, end), "", Some("too_many_pending")))
      else
        var projected := Total(c) + amount;
        var verdict := EvaluateQuota(projected, limit, end);
        if projected > limit then (c, ReserveReply(false, verdict, "", None))
        else
          (c.(pending := c.pending[k := Reserved(amount, now)],
              alarm := if c.alarm.None? then Some(now + SWEEP_INTERVAL_MS) else c.alarm),
           ReserveReply(true, verdict, k, None))
  }

  function SettleStep(c: Counter, id: Option<string>, actual: Cost): (Counter, SettleReply) {
    var invalid := FirstError(ValidateCost(actual), ValidateKey(id));
    if invalid.Some? then (c, SettleReply(-1, invalid))
    else if id.value !in c.pending then (c, SettleReply(c.consumed, None))
    else if actual.value.Floor > c.pending[id.value].cost then
      (c, SettleReply(c.consumed, Some("actual_exceeds_reservation")))
    else
      var consumed := c.consumed + actual.value.Floor;
      (c.(pending := c.pending - {id.value}, consumed := consumed), SettleReply(consumed, None))
  }

  function ReleaseStep(c: Counter, id: Option<string>): (Counter, SettleReply) {
    SettleStep(c, id, Number(0.0))
  }

  function Kept(pending: map<string, Reserved>, cutoff: int): map<string, Reserved> {
    map key | key in pending && pending[key].reservedAt > cutoff :: pending[key]
  }

  function Dropped(pending: map<string, Reserved>, cutoff: int): map<string, Reserved> {
    map key | key in pending && pending[key].reservedAt <= cutoff :: pending[key]
  }

  /** The alarm is cleared when it fires and set again only while something is pending. */
  function AlarmStep(c: Counter, now: int): Counter {
    var cutoff := now - RESERVATION_TTL_MS;
    var kept := Kept(c.pending, cutoff);
    Counter(c.consumed, kept, c.expiredCount + |Dropped(c.pending, cutoff)|,
            if kept.Keys != {} then Some(now + SWEEP_INTERVAL_MS) else None)
  }

  // ------------------------------------------------------------------ the object ---

  class UsageCounterObject {
    var consumed: int
    var pending: map<string, Reserved>
    var expiredCount: int
    var alarmAt: Option<int>

    ghost function View(): Counter
      reads this
    {
      Counter(consumed, pending, expiredCount, alarmAt)
    }

    constructor ()
      ensures View() == EMPTY
    {
      consumed, pending, expiredCount, alarmAt := 0, map[], 0, None;
    }

    method TotalCost() returns (total: int)
      ensures total == Total(View())
    {
      total := consumed;
      var left := pending;
      while left.Keys != {}
        invariant total + PendingCost(left) == Total(View())
        invariant forall key :: key in left ==> key in pending && left[key] == pending[key]
        decreases |left|
      {
        ghost var some := SomeMember(left.Keys);
        var key :| key in left.Keys;
        PendingCostWithout(left, key);
        Shrinks(left, key);
        total := total + left[key].cost;
        left := left - {key};
      }
    }

    method Reserve(cost: Cost, plan: Option<PlanId>, key: Option<string>, now: int) returns (reply: ReserveReply)
      modifies this
      ensures (View(), reply) == ReserveStep(old(View()), cost, plan, key, now)
    {
      var invalid := FirstError(FirstError(ValidateCost(cost), ValidateKey(key)), ValidatePlan(plan));
      if invalid.Some? {
        return ReserveReply(false, QuotaVerdict(HardLimit, 0, 0, 0, Some(EndOfPeriod(now))), "", invalid);
      }
      var limit := PlanLimit(plan.value);
      var periodEndMs := EndOfPeriod(now);
      var total := TotalCost();
      if key.value in pending {
        return ReserveReply(true, EvaluateQuota(total, limit, periodEndMs), key.value, None);
      }
      if |pending| >= MAX_PENDING {
        return ReserveReply(false, EvaluateQuota(total, limit, periodEndMs), "", Some("too_many_pending"));
      }
      var projected := total + cost.value.Floor;
      var verdict := EvaluateQuota(projected, limit, periodEndMs);
      if projected > limit {
        return ReserveReply(false, verdict, "", None);
      }
      pending := pending[key.value := Reserved(cost.value.Floor, now)];
      if alarmAt.None? {
        alarmAt := Some(now + SWEEP_INTERVAL_MS);
      }
      return ReserveReply(true, verdict, key.value, None);
    }

    method Settle(reservationId: Option<string>, actual: Cost) returns (reply: SettleReply)
      modifies this
      ensures (View(), reply) == SettleStep(old(View()), reservationId, actual)
    {
      var invalid := FirstError(ValidateCost(actual), ValidateKey(reservationId));
      if invalid.Some? {
        return SettleReply(-1, invalid);
      }
      if reservationId.value !in pending {
        return SettleReply(consumed, None);
      }
      if actual.value.Floor > pending[reservationId.value].cost {
        return SettleReply(consumed, Some("actual_exceeds_reservation"));
      }
      pending := pending - {reservationId.value};
      consumed := consumed + actual.value.Floor;
      return SettleReply(consumed, None);
    }

    method Release(reservationId: Option<string>) returns (reply: SettleReply)
      modifies this
      ensures (View(), reply) == ReleaseStep(old(View()), reservationId)
    {
      reply := Settle(reservationId, Number(0.0));
    }

    /** The loop of the alarm over the pending record. */
    method DropExpired(cutoff: int) returns (expired: nat)
      modifies `pending
      ensures pending == Kept(old(pending), cutoff) && expired == |Dropped(old(pending), cutoff)|
    {
      expired := 0;
      var all := pending;
      var left := all.Keys;
      while left != {}
        invariant left <= all.Keys && all == old(pending)
        invariant forall key :: key in pending <==> key in all && (key in left || all[key].reservedAt > cutoff)
        invariant forall key :: key in pending ==> pending[key] == all[key]
        invariant expired == |all| - |pending|
        decreases |left|
      {
        ghost var some := SomeMember(left);
        var key :| key in left;
        if all[key].reservedAt <= cutoff {
          Shrinks(pending, key);
          pending := pending - {key};
          expired := expired + 1;
        }
        left := left - {key};
      }
      assert pending == Kept(all, cutoff);
      KeptAndDropped(all, cutoff);
    }

    method Alarm(now: int)
      modifies this
      ensures View() == AlarmStep(old(View()), now)
    {
      hide Kept, Dropped;
      alarmAt := None;
      var expired := DropExpired(now - RESERVATION_TTL_MS);
      if expired > 0 {
        expiredCount := expiredCount + expired;
      }
      if pending.Keys != {} {
        alarmAt := Some(now + SWEEP_INTERVAL_MS);
      }
    }
  }

  lemma SplitWithout(pending: map<string, Reserved>, key: string, cutoff: int)
    requires key in pending
    ensures Kept(pending - {key}, cutoff) == Kept(pending, cutoff) - {key}
    ensures Dropped(pending - {key}, cutoff) == Dropped(pending, cutoff) - {key}
    ensures pending[key].reservedAt > cutoff ==> Dropped(pending, cutoff) - {key} == Dropped(pending, cutoff)
    ensures pending[key].reservedAt <= cutoff ==> Kept(pending, cutoff) - {key} == Kept(pending, cutoff)
  {
  }

  lemma {:induction false} KeptAndDropped(pending: map<string, Reserved>, cutoff: int)
    ensures |pending| == |Kept(pending, cutoff)| + |Dropped(pending, cutoff)|
    ensures PendingCost(pending) == PendingCost(Kept(pending, cutoff)) + PendingCost(Dropped(pending, cutoff))
    decreases |pending|
  {
    if pending.Keys == {} {
      assert Kept(pending, cutoff).Keys == {} && Dropped(pending, cutoff).Keys == {};
    } else {
      var key := SomeKey(pending.Keys);
      Shrinks(pending, key);
      KeptAndDropped(pending - {key}, cutoff);
      SplitWithout(pending, key, cutoff);
      hide PendingCost;
      PendingCostWithout(pending, key);
      var part := if pending[key].reservedAt > cutoff then Kept(pending, cutoff) else Dropped(pending, cutoff);
      assert key in part && part[key] == pending[key];
      hide Kept, Dropped;
      PendingCostWithout(part, key);
      Shrinks(part, key);
    }
  }
}
