/** Whole runs of one counter, audited against a ledger of everything it admitted, charged, returned and
    expired. */
module MeterRuns {
  import opened Options
  import opened UsageCounter

  datatype Event =
    | Reserve(now: int, cost: Cost, plan: Option<PlanId>, key: Option<string>)
    | Settle(id: Option<string>, actual: Cost)
    | Release(id: Option<string>)
    | Alarm(now: int)

  /** What became of the reservations made under one key. */
  datatype Account = Account(
    admissions: nat, settlements: nat, expirations: nat, admitted: int, charged: int, returned: int, expired: int)

  const NO_ACCOUNT := Account(0, 0, 0, 0, 0, 0, 0)

  /** Totals over all keys, and the largest plan limit any admission was checked against. */
  datatype Ledger = Ledger(admitted: int, returned: int, expired: int, maxLimit: int, accounts: map<string, Account>)

  datatype Audited = Audited(counter: Counter, ledger: Ledger)

  const START := Audited(EMPTY, Ledger(0, 0, 0, 0, map[]))

  function AccountOf(l: Ledger, key: string): Account {
    if key in l.accounts then l.accounts[key] else NO_ACCOUNT
  }

  ghost function Step(c: Counter, e: Event): Counter {
    match e
    case Reserve(now, cost, plan, key) => ReserveStep(c, cost, plan, key, now).0
    case Settle(id, actual) => SettleStep(c, id, actual).0
    case Release(id) => ReleaseStep(c, id).0
    case Alarm(now) => AlarmStep(c, now)
  }

  /** A reservation enters the ledger when it is newly admitted. */
  function Admit(l: Ledger, key: string, cost: int, limit: int): Ledger {
    var a := AccountOf(l, key);
    l.(admitted := l.admitted + cost, maxLimit := if limit > l.maxLimit then limit else l.maxLimit,
       accounts := l.accounts[key := a.(admissions := a.admissions + 1, admitted := a.admitted + cost)])
  }

  /** It leaves with the amount charged and the rest returned. */
  function Close(l: Ledger, key: string, cost: int, charged: int): Ledger {
    var a := AccountOf(l, key);
    l.(returned := l.returned + cost - charged,
       accounts := l.accounts[key := a.(settlements := a.settlements + 1, charged := a.charged + charged,
                                        returned := a.returned + cost - charged)])
  }

  /** Or it expires whole. */
  ghost function Expire(l: Ledger, dropped: map<string, Reserved>): Ledger {
    l.(expired := l.expired + PendingCost(dropped),
       accounts := map key | key in l.accounts :: if key in dropped
         then l.accounts[key].(expirations := l.accounts[key].expirations + 1,
                               expired := l.accounts[key].expired + dropped[key].cost)
         else l.accounts[key])
  }

  ghost function Record(c: Counter, l: Ledger, e: Event): Ledger {
    var next := Step(c, e);
    match e
    case Reserve(_, cost, plan, key) =>
      if next.pending == c.pending then l else Admit(l, key.value, cost.value.Floor, PlanLimit(plan.value))
    case Settle(id, _) =>
      if next.pending == c.pending then l else Close(l, id.value, c.pending[id.value].cost, next.consumed - c.consumed)
    case Release(id) =>
      if next.pending == c.pending then l else Close(l, id.value, c.pending[id.value].cost, next.consumed - c.consumed)
    case Alarm(now) => Expire(l, Dropped(c.pending, now - RESERVATION_TTL_MS))
  }

  ghost function After(events: seq<Event>): Audited {
    if events == [] then START else
      var a, e := After(events[..|events| - 1]), events[|events| - 1];
      Audited(Step(a.counter, e), Record(a.counter, a.ledger, e))
  }

  // ---------------------------------------------------------------- what is kept ---

  ghost predicate AccountBalances(a: Audited, key: string) {
    var account := AccountOf(a.ledger, key);
    var open := key in a.counter.pending;
    && account.admitted == account.charged + account.returned + account.expired
                           + (if open then a.counter.pending[key].cost else 0)
    && account.admissions == account.settlements + account.expirations + (if open then 1 else 0)
    && 0 <= account.charged && 0 <= account.returned && 0 <= account.expired
    && (open ==> key in a.ledger.accounts && 0 <= a.counter.pending[key].cost)
  }

  ghost predicate MeterInvariant(a: Audited) {
    var c, l := a.counter, a.ledger;
    && Total(c) <= l.maxLimit
    && 0 <= c.consumed
    && l.admitted == c.consumed + PendingCost(c.pending) + l.returned + l.expired
    && (c.pending.Keys != {} ==> c.alarm.Some?)
    && forall key :: AccountBalances(a, key)
  }

  lemma ReserveKeepsInvariant(a: Audited, e: Event)
    requires MeterInvariant(a) && e.Reserve?
    ensures MeterInvariant(Audited(Step(a.counter, e), Record(a.counter, a.ledger, e)))
  {
    hide EvaluateQuota, EndOfPeriod, PendingCost, ValidateCost, ValidateKey;
    var c := a.counter;
    var next := Step(c, e);
    var b := Audited(next, Record(c, a.ledger, e));
    if next.pending != c.pending {
      PendingCostWith(c.pending, e.key.value, Reserved(e.cost.value.Floor, e.now));
    } else if e.key.Some? && e.key.value !in c.pending {
      assert e.key.value !in next.pending;
    }
    forall key ensures AccountBalances(b, key) {
      assert AccountBalances(a, key);
    }
  }

  lemma SettleKeepsInvariant(a: Audited, e: Event)
    requires MeterInvariant(a) && (e.Settle? || e.Release?)
    ensures MeterInvariant(Audited(Step(a.counter, e), Record(a.counter, a.ledger, e)))
  {
    hide PendingCost, ValidateCost, ValidateKey;
    var c := a.counter;
    var next := Step(c, e);
    var b := Audited(next, Record(c, a.ledger, e));
    if e.id.Some? && e.id.value in c.pending {
      PendingCostWithout(c.pending, e.id.value);
      assert AccountBalances(a, e.id.value);
    }
    forall key ensures AccountBalances(b, key) {
      assert AccountBalances(a, key);
    }
  }

  lemma AlarmKeepsInvariant(a: Audited, e: Event)
    requires MeterInvariant(a) && e.Alarm?
    ensures MeterInvariant(Audited(Step(a.counter, e), Record(a.counter, a.ledger, e)))
  {
    hide PendingCost;
    var c := a.counter;
    var b := Audited(Step(c, e), Record(c, a.ledger, e));
    var dropped := Dropped(c.pending, e.now - RESERVATION_TTL_MS);
    KeptAndDropped(c.pending, e.now - RESERVATION_TTL_MS);
    forall key | key in dropped ensures dropped[key].cost >= 0 {
      assert AccountBalances(a, key);
    }
    PendingCostNonNegative(dropped);
    forall key ensures AccountBalances(b, key) {
      assert AccountBalances(a, key);
    }
  }

  lemma {:induction false} PendingCostNonNegative(pending: map<string, Reserved>)
    requires forall key :: key in pending ==> pending[key].cost >= 0
    ensures PendingCost(pending) >= 0
    decreases |pending|
  {
    if pending.Keys != {} {
      var key := SomeKey(pending.Keys);
      Shrinks(pending, key);
      PendingCostNonNegative(pending - {key});
    }
  }

  lemma StepKeepsInvariant(a: Audited, e: Event)
    requires MeterInvariant(a)
    ensures MeterInvariant(Audited(Step(a.counter, e), Record(a.counter, a.ledger, e)))
  {
    hide Step, Record, MeterInvariant;
    match e
    case Reserve(_, _, _, _) => ReserveKeepsInvariant(a, e);
    case Settle(_, _) => SettleKeepsInvariant(a, e);
    case Release(_) => SettleKeepsInvariant(a, e);
    case Alarm(_) => AlarmKeepsInvariant(a, e);
  }

  lemma EmptyBalances()
    ensures MeterInvariant(START)
  {
    assert forall key :: AccountBalances(START, key);
  }

  lemma {:induction false} RunKeepsInvariant(events: seq<Event>)
    ensures MeterInvariant(After(events))
  {
    hide Step, Record, MeterInvariant;
    if events == [] {
      EmptyBalances();
    } else {
      RunKeepsInvariant(events[..|events| - 1]);
      StepKeepsInvariant(After(events[..|events| - 1]), events[|events| - 1]);
    }
  }

  /** Over every sequence of steps: what is charged and held never exceeds the largest plan limit admitted
      against; every admitted unit is charged, held, returned or expired; the sweep alarm is set while
      anything is held; and under each key every admission has been settled once, has expired once or is still
      held, no more being charged than was admitted. */
  lemma MeterNeverOvercharges(events: seq<Event>, key: string)
    ensures var a := After(events); var account := AccountOf(a.ledger, key);
      && a.counter.consumed + PendingCost(a.counter.pending) <= a.ledger.maxLimit
      && a.ledger.admitted == a.counter.consumed + PendingCost(a.counter.pending) + a.ledger.returned + a.ledger.expired
      && (a.counter.pending.Keys != {} ==> a.counter.alarm.Some?)
      && account.admissions == account.settlements + account.expirations + (if key in a.counter.pending then 1 else 0)
      && account.charged <= account.admitted
  {
    hide PendingCost;
    RunKeepsInvariant(events);
    var a := After(events);
    assert AccountBalances(a, key);
  }

  /** The only step that raises the meter is a settlement of a held reservation; it removes that
      reservation and raises the meter by no more than its cost. */
  lemma ConsumedRisesOnlyBySettling(c: Counter, e: Event)
    requires Step(c, e).consumed != c.consumed
    ensures e.Settle? && e.id.Some? && e.id.value in c.pending
    ensures Step(c, e).pending == c.pending - {e.id.value}
    ensures 0 < Step(c, e).consumed - c.consumed <= c.pending[e.id.value].cost
  {
    hide PendingCost, EvaluateQuota, EndOfPeriod;
  }

  /** A repeated settlement or release of the same reservation changes nothing. */
  lemma SettlingTwiceIsOnce(c: Counter, id: Option<string>, first: Cost, second: Cost)
    requires SettleStep(c, id, first).0 != c
    ensures SettleStep(SettleStep(c, id, first).0, id, second).0 == SettleStep(c, id, first).0
  {
  }

  /** An admitted reservation that nobody settles is given back in full by any alarm after its time to live. */
  lemma UnsettledReservationIsReturned(c: Counter, cost: Cost, plan: Option<PlanId>, key: Option<string>, now: int, later: int)
    requires ReserveStep(c, cost, plan, key, now).0.pending != c.pending && now + RESERVATION_TTL_MS <= later
    ensures var d := AlarmStep(ReserveStep(c, cost, plan, key, now).0, later);
      && key.value !in d.pending && d.consumed == c.consumed
      && Total(d) <= PendingCost(Kept(c.pending, later - RESERVATION_TTL_MS)) + c.consumed
  {
    hide PendingCost, EvaluateQuota, EndOfPeriod, ValidateCost, ValidateKey;
    var r := ReserveStep(c, cost, plan, key, now).0;
    assert Kept(r.pending, later - RESERVATION_TTL_MS) == Kept(c.pending, later - RESERVATION_TTL_MS);
  }

  // ------------------------------------------------ how long a reservation stands ---

  /** A counter after whatever reached it next. */
  ghost function Ran(c: Counter, events: seq<Event>): Counter {
    if events == [] then c else Step(Ran(c, events[..|events| - 1]), events[|events| - 1])
  }

  /** The event ends this reservation: a settle that it covers, a release, or an alarm after its time to live. */
  predicate Ends(e: Event, key: string, r: Reserved) {
    match e
    case Reserve(_, _, _, _) => false
    case Settle(id, actual) => id == Some(key) && ValidateCost(actual).None? && actual.value.Floor <= r.cost
    case Release(id) => id == Some(key)
    case Alarm(now) => r.reservedAt + RESERVATION_TTL_MS <= now
  }

  predicate Spared(events: seq<Event>, key: string, r: Reserved) {
    forall i :: 0 <= i < |events| ==> !Ends(events[i], key, r)
  }

  /** A reservation is held under the key all along. */
  ghost predicate Stands(c: Counter, events: seq<Event>, key: string) {
    forall n :: 0 <= n <= |events| ==> key in Ran(c, events[..n]).pending
  }

  predicate Holds(c: Counter, key: string, r: Reserved) {
    key in c.pending && c.pending[key] == r
  }

  ghost predicate Settleable(c: Counter, key: string) {
    key in c.pending && 0 <= c.pending[key].cost && ValidateKey(Some(key)).None?
  }

  lemma StepEndsIff(c: Counter, e: Event, key: string)
    requires Settleable(c, key)
    ensures key !in Step(c, e).pending <==> Ends(e, key, c.pending[key])
    ensures key in Step(c, e).pending ==> Holds(Step(c, e), key, c.pending[key])
  {
    hide PendingCost, EvaluateQuota, EndOfPeriod;
  }

  lemma StandsByLast(c: Counter, events: seq<Event>, key: string)
    requires events != []
    ensures Stands(c, events, key) <==> Stands(c, events[..|events| - 1], key) && key in Ran(c, events).pending
  {
    hide Ran;
    var front := events[..|events| - 1];
    assert forall n :: 0 <= n < |events| ==> events[..n] == front[..n];
    assert events[..|events|] == events;
  }

  /** Whatever reaches the counter in between: a reservation stands exactly as long as nothing ends it, and it stays
      as it was made. */
  lemma {:induction false} ReservationStandsIff(c: Counter, events: seq<Event>, key: string)
    requires Settleable(c, key)
    ensures Stands(c, events, key) <==> Spared(events, key, c.pending[key])
    ensures Spared(events, key, c.pending[key]) ==> Holds(Ran(c, events), key, c.pending[key])
  {
    hide Step, Ends;
    if events == [] {
      assert events[..0] == events;
    } else {
      var front, e := events[..|events| - 1], events[|events| - 1];
      ReservationStandsIff(c, front, key);
      StandsByLast(c, events, key);
      if Spared(front, key, c.pending[key]) {
        StepEndsIff(Ran(c, front), e, key);
      }
      assert forall i :: 0 <= i < |front| ==> front[i] == events[i];
    }
  }

  /** Once it has ended, and until its key is reserved again, settling it changes nothing: a settle that comes late
      charges nothing, nor does one that is repeated. */
  lemma {:induction false} EndedReservationIsNotCharged(c: Counter, events: seq<Event>, key: string, i: nat, actual: Cost)
    requires Settleable(c, key) && i < |events|
    requires Spared(events[..i], key, c.pending[key]) && Ends(events[i], key, c.pending[key])
    requires forall j :: i < j < |events| && events[j].Reserve? ==> events[j].key != Some(key)
    ensures key !in Ran(c, events).pending
    ensures SettleStep(Ran(c, events), Some(key), actual).0 == Ran(c, events)
    decreases |events|
  {
    hide Ends, Stands;
    var front := events[..|events| - 1];
    if i == |front| {
      ReservationStandsIff(c, front, key);
      StepEndsIff(Ran(c, front), events[i], key);
    } else {
      assert front[..i] == events[..i];
      EndedReservationIsNotCharged(c, front, key, i, actual);
      StaysOut(Ran(c, front), events[|front|], key);
    }
  }

  lemma StaysOut(c: Counter, e: Event, key: string)
    requires key !in c.pending && (e.Reserve? ==> e.key != Some(key))
    ensures key !in Step(c, e).pending
  {
    hide PendingCost, EvaluateQuota, EndOfPeriod, ValidateCost, ValidateKey;
  }

  /** A reservation whose call outlives it: swept, reserved again for less, and then settled at its own price. */
  const OUTLIVED: seq<Event> := [
    Reserve(0, Number(5.0), Some(Scale), Some("key")), Alarm(RESERVATION_TTL_MS),
    Reserve(RESERVATION_TTL_MS, Number(2.0), Some(Scale), Some("key"))]

  lemma AdmitsWhole(c: Counter, cost: nat, now: int) returns (d: Counter)
    requires c.pending == map[] && c.consumed == 0 && cost <= 5
    ensures d == Step(c, Reserve(now, Number(cost as real), Some(Scale), Some("key")))
    ensures d.consumed == 0 && d.pending == map["key" := Reserved(cost, now)]
  {
    hide EvaluateQuota, EndOfPeriod;
    assert (cost as real).Floor == cost && c.pending.Keys == {};
    assert Total(c) == 0;
    d := Step(c, Reserve(now, Number(cost as real), Some(Scale), Some("key")));
  }

  lemma LateSettleIsRefused()
    ensures var swept := Ran(EMPTY, OUTLIVED[..2]); SettleStep(swept, Some("key"), Number(5.0)).0 == swept
    ensures SettleStep(Ran(EMPTY, OUTLIVED), Some("key"), Number(5.0))
         == (Ran(EMPTY, OUTLIVED), SettleReply(0, Some("actual_exceeds_reservation")))
  {
    hide EvaluateQuota, EndOfPeriod;
    var events := OUTLIVED;
    assert events[..1][..0] == [] && events[..2][..1] == events[..1] && events[..3][..2] == events[..2] && events[..3] == events;
    assert Ran(EMPTY, []) == EMPTY;
    var first := AdmitsWhole(EMPTY, 5, 0);
    assert Ran(EMPTY, events[..1]) == first;
    var swept := AlarmStep(first, RESERVATION_TTL_MS);
    assert swept.pending == map[];
    var second := AdmitsWhole(swept, 2, RESERVATION_TTL_MS);
    assert Ran(EMPTY, events[..2]) == swept && Ran(EMPTY, events) == second;
  }
}
