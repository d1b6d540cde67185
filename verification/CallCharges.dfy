/** The executor and the meter together: what a call reserves is what it settles or gives back, at the counter
    that admitted it. */
module CallCharges {
  import opened Calendar
  import opened Executor
  import opened Gate
  import opened Metering
  import opened Options
  import opened UsageCounter
  import Runs = MeterRuns

  /** What the gate decided of a call, and the price the executor works out for it. */
  datatype Authorisation = Authorisation(known: Vocabulary, contract: Contract, args: Args, caller: Caller)
  {
    ghost predicate Grants(request: Request) {
      && Catalogued(known, contract.tool)
      && request.verdict == AssertCallable(known, Some(contract), args, caller) && request.verdict.Callable?
      && request.price == SuccessCost(known, contract.tool, caller.siteScopes)
    }
  }

  /** A reservation as the adapter made it, and the counters before and after. */
  datatype Booking = Booking(
    before: Counters, org: string, plan: PlanId, key: string, now: int, after: Counters, reservation: Reservation)
  {
    function Name(): string {
      CounterName(org, PeriodFor(now))
    }

    /** Made for this request, under a key that holds no earlier reservation, in a year of four digits. */
    ghost predicate MadeFor(request: Request) {
      && request.digest.Some? && key == request.ReservationKey() && 1000 <= NaiveMsToWallClock(now).year <= 9999
      && key !in CounterAt(before, Name()).pending
      && AdapterReserve(before, org, request.price, plan, key, now) == (after, Admitted(reservation))
    }

    /** Counters at some later time: these events have reached the admitting one since, and any the others. */
    ghost predicate Meanwhile(met: Counters, events: seq<Runs.Event>) {
      CounterAt(met, Name()) == Runs.Ran(CounterAt(after, Name()), events)
    }

    /** The reservation as its counter holds it. */
    function Held(): Reserved {
      Reserved(reservation.cost, now)
    }

    /** The reservation has stood through these events. */
    ghost predicate Standing(events: seq<Runs.Event>) {
      Runs.Stands(CounterAt(after, Name()), events, key)
    }

    /** The admitting counter has charged the amount and given the key up, and is otherwise as it was. */
    ghost predicate ChargedExactly(met: Counters, settled: Counters, amount: int) {
      Closed(CounterAt(met, Name()), CounterAt(settled, Name()), key, amount)
    }

    ghost predicate Unchanged(met: Counters, settled: Counters) {
      CounterAt(settled, Name()) == CounterAt(met, Name())
    }

    ghost predicate OthersUnchanged(met: Counters, settled: Counters) {
      forall other :: other != Name() ==> CounterAt(settled, other) == CounterAt(met, other)
    }

    /** A reservation under the key, this one or a later one, that covers the amount. */
    ghost predicate Covered(met: Counters, amount: int) {
      var pending := CounterAt(met, Name()).pending; key in pending && amount <= pending[key].cost
    }
  }

  /** The price of an authorised metered call is one the counter accepts, and covers the failed-call weight. */
  lemma GrantedPrice(a: Authorisation, request: Request)
    requires a.Grants(request) && request.NeedsReservation()
    ensures 1 <= FAILED_CALL_WEIGHT <= request.price <= MAX_COST && ValidateCost(Number(request.price as real)).None?
  {
    assert request.verdict == Callable(a.contract);
    hide AssertCallable, SuccessCost, Catalogued;
    AuthorisedPriceIsChargeable(a.known, a.contract, a.args, a.caller);
  }

  /** A meter with room makes the booking of an authorised call. */
  lemma RoomMakesBooking(a: Authorisation, request: Request, counters: Counters, org: string, plan: PlanId, now: int)
      returns (b: Booking)
    requires a.Grants(request) && request.NeedsReservation() && request.digest.Some?
    requires 1000 <= NaiveMsToWallClock(now).year <= 9999 && ValidateKey(Some(request.ReservationKey())).None?
    requires var c := CounterAt(counters, CounterName(org, PeriodFor(now)));
      && request.ReservationKey() !in c.pending && |c.pending| < MAX_PENDING && Total(c) + request.price <= PlanLimit(plan)
    ensures b.MadeFor(request) && b.before == counters
  {
    GrantedPrice(a, request);
    hide Authorisation.Grants, AdapterReserve, PeriodFor, CounterName, NaiveMsToWallClock, Total;
    FreshReservationAdmittedIff(counters, org, request.price, plan, request.ReservationKey(), now);
    var (after, admission) := AdapterReserve(counters, org, request.price, plan, request.ReservationKey(), now);
    b := Booking(counters, org, plan, request.ReservationKey(), now, after, admission.reservation);
  }

  /** The counters after a settle or release has reached the adapter at some later time. */
  ghost function Delivered(counters: Counters, org: string, e: Effect, later: int): Counters
    requires ClosesMeter(e)
  {
    match e
    case SettleMeter(id, actual, _) => AdapterSettle(counters, org, id, actual, later)
    case ReleaseMeter(id, _) => AdapterRelease(counters, org, id, later)
  }

  function AmountOf(e: Effect): int
    requires ClosesMeter(e)
  {
    match e
    case SettleMeter(_, actual, _) => actual
    case ReleaseMeter(_, _) => 0
  }

  /** Each close, delivered at any later time to whatever counters it meets, charges what it should where it should. */
  ghost predicate ClosesCharge(b: Booking, trace: seq<Effect>) {
    forall i, met, events, later :: 0 <= i < |trace| && ClosesMeter(trace[i]) ==> CloseCharges(b, trace[i], met, events, later)
  }

  /** The close names the reservation, within its cost, and touches no counter but the one that admitted it. It charges
      its amount exactly when a reservation under the key covers it, and otherwise changes nothing. The reservation
      stands exactly as long as no event has ended it, and while it stands it covers the amount. */
  ghost predicate CloseCharges(b: Booking, e: Effect, met: Counters, events: seq<Runs.Event>, later: int)
    requires ClosesMeter(e)
  {
    var settled := Delivered(met, b.org, e, later);
    && e.id == b.reservation.id && (e.SettleMeter? ==> 1 <= e.actual <= b.reservation.cost)
    && b.OthersUnchanged(met, settled)
    && (b.ChargedExactly(met, settled, AmountOf(e)) <==> b.Covered(met, AmountOf(e)))
    && (b.Covered(met, AmountOf(e)) || b.Unchanged(met, settled))
    && (b.Standing(events) <==> Runs.Spared(events, b.key, b.Held()))
    && (b.Meanwhile(met, events) && b.Standing(events) ==> b.ChargedExactly(met, settled, AmountOf(e)))
  }

  /** What the monitor lets through as a close names the reservation, and settles the price or the failed-call
      weight. */
  lemma CloseNamesReservation(request: Request, m: Monitor, e: Effect)
    requires Allowed(request, m, e) && ClosesMeter(e)
    ensures !m.meter.Unreserved? && e.id == m.meter.reservation.id
    ensures e.SettleMeter? ==> e.actual == m.meter.reservation.cost || e.actual == FAILED_CALL_WEIGHT
  {
  }

  lemma {:induction false} MetersOnlyCallable(request: Request, trace: seq<Effect>)
    requires !Watch(request, trace).astray && !Watch(request, trace).meter.Unreserved?
    ensures request.Callable() && request.NeedsReservation()
    decreases |trace|
  {
    if trace != [] {
      var before, e := Unfold(request, trace);
      hide Watch, Next, Allowed;
      if !Watch(request, before).meter.Unreserved? {
        MetersOnlyCallable(request, before);
      } else {
        ReservesOnlyCallable(request, Watch(request, before), e);
      }
    }
  }

  lemma ReservesOnlyCallable(request: Request, m: Monitor, e: Effect)
    requires Allowed(request, m, e) && m.meter.Unreserved? && !Next(m, e).meter.Unreserved?
    ensures request.Callable() && request.NeedsReservation()
  {
  }

  lemma DeliveredIsSettle(counters: Counters, org: string, e: Effect, later: int)
    requires ClosesMeter(e)
    ensures Delivered(counters, org, e, later) == AdapterSettle(counters, org, e.id, AmountOf(e), later)
  {
    hide AdapterSettle, AdapterRelease;
    ReleaseSettlesNothing(counters, org, e.id, later);
  }

  lemma BookedAs(b: Booking, request: Request)
    requires b.MadeFor(request)
    ensures b.reservation == Reservation(PrintHandle(PeriodFor(b.now), b.key), request.price)
    ensures 0 <= request.price <= MAX_COST && ValidateKey(Some(b.key)).None?
  {
    hide PeriodFor, NaiveMsToWallClock, CounterName, PrintHandle, ReserveStep;
    AdmissionCarriesHandle(b.before, b.org, request.price, b.plan, b.key, b.now);
    FreshReservationHeld(CounterAt(b.before, b.Name()), request.price, b.plan, b.key, b.now);
  }

  /** What a settle of the booked reservation does, in the booking's terms. */
  lemma SettleMeets(b: Booking, request: Request, met: Counters, later: int, actual: int)
    requires b.MadeFor(request) && 0 <= actual <= request.price
    ensures var settled := AdapterSettle(met, b.org, b.reservation.id, actual, later);
      && b.OthersUnchanged(met, settled)
      && (b.ChargedExactly(met, settled, actual) <==> b.Covered(met, actual))
      && (b.Covered(met, actual) || b.Unchanged(met, settled))
  {
    BookedAs(b, request);
    hide AdapterReserve, AdapterSettle, PeriodFor, NaiveMsToWallClock, CounterName, PrintHandle, ValidateKey;
    HandleSettlesIff(met, b.org, b.key, b.now, later, actual);
  }

  lemma DeliveredCloseCharges(
      b: Booking, request: Request, e: Effect, met: Counters, events: seq<Runs.Event>, later: int)
    requires b.MadeFor(request)
    requires ClosesMeter(e) && e.id == b.reservation.id && (e.SettleMeter? ==> 1 <= e.actual <= request.price)
    ensures CloseCharges(b, e, met, events, later)
  {
    BookedAs(b, request);
    DeliveredIsSettle(met, b.org, e, later);
    SettleMeets(b, request, met, later, AmountOf(e));
    StandingCharges(b, request, met, events, later, AmountOf(e));
    hide AdapterReserve, AdapterSettle, Delivered, PeriodFor, NaiveMsToWallClock, CounterName, PrintHandle, ValidateKey,
         Closed, CounterAt, Runs.Ran, Runs.Stands, Runs.Spared, Booking.OthersUnchanged, Booking.ChargedExactly,
         Booking.Covered, Booking.Unchanged, Booking.Standing, Booking.Meanwhile, Booking.MadeFor;
  }

  lemma StandingCharges(
      b: Booking, request: Request, met: Counters, events: seq<Runs.Event>, later: int, actual: int)
    requires b.MadeFor(request) && 0 <= actual <= request.price
    ensures b.Standing(events) <==> Runs.Spared(events, b.key, b.Held())
    ensures b.Meanwhile(met, events) && b.Standing(events) ==>
      b.ChargedExactly(met, AdapterSettle(met, b.org, b.reservation.id, actual, later), actual)
  {
    hide AdapterReserve, AdapterSettle, PeriodFor, NaiveMsToWallClock, Closed, Runs.Ran, Runs.Ends, Runs.Stands, Runs.Spared;
    var ran := b.before[b.Name() := Runs.Ran(CounterAt(b.after, b.Name()), events)];
    FreshReservationSettlesWhereAdmitted(b.before, b.org, request.price, b.plan, b.key, b.now, b.after, b.reservation,
                                         if b.Meanwhile(met, events) then met else ran, events, later, actual);
  }

  /** Every settle and release of an authorised metered call: it names the admitted reservation, a settle charges
      at least 1 and at most the amount reserved, and delivering it, however late and whatever else has reached the
      counter, closes the reservation where it was admitted unless something has ended that before. */
  lemma EveryCloseCharges(
      a: Authorisation, b: Booking, request: Request, trace: seq<Effect>, i: nat,
      met: Counters, events: seq<Runs.Event>, later: int)
    requires a.Grants(request) && b.MadeFor(request)
    requires !Watch(request, trace).astray && i < |trace| && ClosesMeter(trace[i])
    requires !Watch(request, trace).meter.Unreserved? ==> Watch(request, trace).meter.reservation == b.reservation
    ensures CloseCharges(b, trace[i], met, events, later)
  {
    OneReservation(request, trace, i, b.reservation);
    UnflaggedEffectIsAllowed(request, trace, i);
    CloseNamesReservation(request, Watch(request, trace[..i]), trace[i]);
    MetersOnlyCallable(request, trace);
    ReservationIsTheLast(request, trace, i);
    hide Watch, Allowed, CloseCharges, Authorisation.Grants, Booking.MadeFor;
    GrantedPrice(a, request);
    BookedAs(b, request);
    DeliveredCloseCharges(b, request, trace[i], met, events, later);
  }

  /** A reservation remembered at some point is the one remembered at the end. */
  lemma {:induction false} ReservationIsTheLast(request: Request, trace: seq<Effect>, i: nat)
    requires !Watch(request, trace).astray && i <= |trace| && !Watch(request, trace[..i]).meter.Unreserved?
    ensures !Watch(request, trace).meter.Unreserved?
    ensures Watch(request, trace).meter.reservation == Watch(request, trace[..i]).meter.reservation
    decreases |trace|
  {
    if i == |trace| {
      assert trace[..i] == trace;
    } else {
      var before, e := Unfold(request, trace);
      StepTo(request, Watch(request, before), e, Reservation("", 0));
      hide Watch, Next, Allowed;
      assert trace[..i] == before[..i];
      ReservationIsTheLast(request, before, i);
    }
  }

  /** A close that got through is in the trace, with its amount. */
  lemma {:induction false} MonitorTracksClose(request: Request, trace: seq<Effect>) returns (i: nat)
    requires !Watch(request, trace).astray
    requires Watch(request, trace).meter.Attempted? && Watch(request, trace).meter.closed.Some?
    ensures i < |trace| && ClosesMeter(trace[i]) && !trace[i].threw
    ensures AmountOf(trace[i]) == Watch(request, trace).meter.closed.value
    decreases |trace|
  {
    var before, e := Unfold(request, trace);
    if ClosesMeter(e) {
      i := |before|;
    } else {
      ClosedBefore(Watch(request, before), e);
      hide Watch, Next, Allowed;
      i := MonitorTracksClose(request, before);
      assert trace[i] == before[i];
    }
  }

  lemma ClosedBefore(m: Monitor, e: Effect)
    requires !ClosesMeter(e) && Next(m, e).meter.Attempted?
    ensures m.meter == Next(m, e).meter
  {
  }

  lemma {:induction false} CalledIsReserved(request: Request, trace: seq<Effect>)
    requires !Watch(request, trace).astray && Watch(request, trace).called && request.NeedsReservation()
    ensures !Watch(request, trace).meter.Unreserved?
    decreases |trace|
  {
    if trace != [] {
      var before, e := Unfold(request, trace);
      StepTo(request, Watch(request, before), e, Reservation("", 0));
      hide Watch, Next, Allowed;
      if Watch(request, before).called {
        CalledIsReserved(request, before);
      } else {
        CallsReserved(request, Watch(request, before), e);
      }
    }
  }

  lemma CallsReserved(request: Request, m: Monitor, e: Effect)
    requires Allowed(request, m, e) && request.NeedsReservation() && !m.called && Next(m, e).called
    ensures !Next(m, e).meter.Unreserved?
  {
  }

  /** A close got through, and charged this amount. */
  ghost predicate Charged(trace: seq<Effect>, amount: int) {
    exists i :: 0 <= i < |trace| && ClosesMeter(trace[i]) && !trace[i].threw && AmountOf(trace[i]) == amount
  }

  lemma ReportIsCharged(b: Booking, request: Request, script: Script, trace: seq<Effect>, result: ExecuteResult)
    requires b.MadeFor(request) && !Watch(request, trace).astray && request.NeedsReservation()
    requires Reports(request, script, Watch(request, trace), result)
    requires !Watch(request, trace).meter.Unreserved? ==> Watch(request, trace).meter.reservation == b.reservation
    ensures Charged(trace, result.actionsConsumed)
    ensures result.Done? ==> result.actionsConsumed == request.price
  {
    CalledIsReserved(request, trace);
    var i := MonitorTracksClose(request, trace);
    hide Watch, AdapterReserve;
    BookedAs(b, request);
  }

  /** An authorised metered call, run against a meter that admitted its reservation, whatever the other ports do:
      every settle and release in its trace charges what it should where it should, an admission is always followed
      by one, and an answer reports the amount of one that got through: the price, when it is a success. */
  method ExecuteBooked(request: Request, script: Script, ghost a: Authorisation, ghost b: Booking)
      returns (r: Option<ExecuteResult>, execution: Execution)
    requires a.Grants(request) && b.MadeFor(request) && script.admission == Some(Admitted(b.reservation))
    ensures execution.request == request && NothingOpen(Watch(request, execution.trace))
    ensures ClosesCharge(b, execution.trace)
    ensures forall i :: 0 <= i < |execution.trace| ==> ClosedLater(execution.trace, i)
    ensures Watch(request, execution.trace).called && request.NeedsReservation() && r.Some? && r.value != Failure(Internal, 0) ==>
      && Charged(execution.trace, r.value.actionsConsumed)
      && (r.value.Done? ==> r.value.actionsConsumed == request.price)
  {
    hide Watch, AdapterReserve, AssertCallable, SuccessCost, Reports, Reason, ClosedLater, Charged;
    execution := new Execution(request, script);
    r := execution.Execute();
    ghost var trace := execution.trace;
    EveryCloseInTraceCharges(a, b, request, trace);
    forall i | 0 <= i < |trace| ensures ClosedLater(trace, i) {
      EverythingTakenIsClosed(request, trace, i);
    }
    if Watch(request, trace).called && request.NeedsReservation() && r.Some? && r.value != Failure(Internal, 0) {
      ReportIsCharged(b, request, script, trace, r.value);
    }
  }

  lemma EveryCloseInTraceCharges(a: Authorisation, b: Booking, request: Request, trace: seq<Effect>)
    requires a.Grants(request) && b.MadeFor(request) && NothingOpen(Watch(request, trace))
    requires !Watch(request, trace).meter.Unreserved? ==> Watch(request, trace).meter.reservation == b.reservation
    ensures ClosesCharge(b, trace)
  {
    hide Watch, AdapterReserve, AssertCallable, SuccessCost, CloseCharges;
    forall i, met, events, later | 0 <= i < |trace| && ClosesMeter(trace[i])
      ensures CloseCharges(b, trace[i], met, events, later)
    {
      EveryCloseCharges(a, b, request, trace, i, met, events, later);
    }
  }
}
