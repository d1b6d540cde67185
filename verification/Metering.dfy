/** The metering adapter: it routes each reservation to the counter of its billing period and carries the
    period in the reservation handle, so that a call crossing a month boundary settles where it reserved. */
module Metering {
  import opened Calendar
  import opened Decimal
  import opened Gate
  import opened Options
  import opened UsageCounter
  import Runs = MeterRuns

  // -------------------------------------------------------------------- periods ---

  function PadTwo(n: nat): string {
    if n < 10 then "0" + PrintNat(n) else PrintNat(n)
  }

  /** YYYY-MM of the UTC month. */
  function PeriodFor(nowMs: int): string {
    var wc := NaiveMsToWallClock(nowMs);
    MonthInRange(nowMs);
    PrintInt(wc.year) + "-" + PadTwo(wc.month)
  }

  lemma MonthInRange(nowMs: int)
    ensures 1 <= NaiveMsToWallClock(nowMs).month <= 12
  {
    NaiveRoundTrip(nowMs);
  }

  function CounterName(organizationId: string, period: string): string {
    organizationId + ":" + period
  }

  function MonthIndex(ms: int): int {
    MonthOf(ms / DAY_MS)
  }

  lemma PeriodShowsMonthIndex(a: int, b: int)
    ensures PeriodFor(a) == PeriodFor(b) <==> MonthIndex(a) == MonthIndex(b)
  {
    MonthInRange(a);
    MonthInRange(b);
    var x, y := NaiveMsToWallClock(a), NaiveMsToWallClock(b);
    assert 12 * x.year + x.month - 1 == MonthIndex(a) && 12 * y.year + y.month - 1 == MonthIndex(b);
    hide NaiveMsToWallClock, MonthIndex;
    if PeriodFor(a) == PeriodFor(b) {
      PeriodParts(x.year, x.month, y.year, y.month);
    }
  }

  lemma PeriodParts(year1: int, month1: nat, year2: int, month2: nat)
    requires 1 <= month1 <= 12 && 1 <= month2 <= 12
    requires PrintInt(year1) + "-" + PadTwo(month1) == PrintInt(year2) + "-" + PadTwo(month2)
    ensures year1 == year2 && month1 == month2
  {
    TwoDigitMonth(month1);
    TwoDigitMonth(month2);
    hide PadTwo, PrintInt;
    var s, y1, y2 := PrintInt(year1) + "-" + PadTwo(month1), PrintInt(year1), PrintInt(year2);
    assert |y1| == |s| - 3 == |y2|;
    assert y1 == s[..|s| - 3] == y2;
    assert PadTwo(month1) == s[|s| - 2..] == PadTwo(month2);
    PrintIntInjective(year1, year2);
    PadTwoInjective(month1, month2);
  }

  lemma PadTwoInjective(a: nat, b: nat)
    requires a <= 12 && b <= 12 && PadTwo(a) == PadTwo(b)
    ensures a == b
  {
    ParsePrint(a);
    ParsePrint(b);
    TwoDigits(a);
    TwoDigits(b);
    assert PadTwo(a)[1..] == PadTwo(b)[1..];
    assert a < 10 ==> ("0" + PrintNat(a))[1..] == PrintNat(a);
    assert b < 10 ==> ("0" + PrintNat(b))[1..] == PrintNat(b);
  }

  lemma TwoDigits(n: nat)
    ensures n < 10 ==> PrintNat(n) == [DigitChar(n)]
    ensures 10 <= n <= 12 ==> PrintNat(n) == ['1', DigitChar(n % 10)]
  {
    if 10 <= n <= 12 {
      assert n / 10 == 1;
      assert PrintNat(n) == PrintNat(1) + [DigitChar(n % 10)];
    }
  }

  lemma EndOfPeriodIsMonthStart(nowMs: int)
    ensures EndOfPeriod(nowMs) == DAY_MS * MonthStart(MonthIndex(nowMs) + 1)
  {
    hide MonthStart, MonthOf;
    var wc := NaiveMsToWallClock(nowMs);
    assert 12 * wc.year + wc.month - 1 == MonthIndex(nowMs);
  }

  lemma DayBefore(t: int, day: int)
    ensures t < DAY_MS * day <==> t / DAY_MS < day
  {
  }

  lemma MonthLastsUntil(nowMs: int, t: int)
    requires nowMs <= t
    ensures nowMs < DAY_MS * MonthStart(MonthIndex(nowMs) + 1)
    ensures MonthIndex(t) == MonthIndex(nowMs) <==> t < DAY_MS * MonthStart(MonthIndex(nowMs) + 1)
  {
    hide MonthStart, MonthOf;
    var index := MonthIndex(nowMs);
    DayBefore(nowMs, MonthStart(index + 1));
    DayBefore(t, MonthStart(index + 1));
    assert nowMs / DAY_MS <= t / DAY_MS;
    if t / DAY_MS < MonthStart(index + 1) {
      MonthOfUnique(t / DAY_MS, index);
    }
  }

  /** The reset a quota verdict names is the very instant from which another counter is charged. */
  lemma PeriodEndsAtReset(nowMs: int, t: int)
    requires nowMs <= t
    ensures nowMs < EndOfPeriod(nowMs)
    ensures PeriodFor(t) == PeriodFor(nowMs) <==> t < EndOfPeriod(nowMs)
  {
    hide PeriodFor, EndOfPeriod, MonthStart, MonthIndex;
    EndOfPeriodIsMonthStart(nowMs);
    MonthLastsUntil(nowMs, t);
    PeriodShowsMonthIndex(t, nowMs);
  }

  lemma PeriodHasNoColon(nowMs: int)
    ensures ':' !in PeriodFor(nowMs)
  {
    MonthInRange(nowMs);
    hide NaiveMsToWallClock;
  }

  /** Two requests reach one counter exactly when they are of one organisation and one month. */
  lemma CounterIsPerOrganisationAndMonth(org1: string, now1: int, org2: string, now2: int)
    ensures CounterName(org1, PeriodFor(now1)) == CounterName(org2, PeriodFor(now2))
       <==> org1 == org2 && MonthIndex(now1) == MonthIndex(now2)
  {
    PeriodShowsMonthIndex(now1, now2);
    PeriodHasNoColon(now1);
    PeriodHasNoColon(now2);
    hide PeriodFor, MonthIndex;
    if CounterName(org1, PeriodFor(now1)) == CounterName(org2, PeriodFor(now2)) {
      LastColonSplits(org1, PeriodFor(now1), org2, PeriodFor(now2));
    }
  }

  lemma LastColonSplits(a: string, x: string, b: string, y: string)
    requires ':' !in x && ':' !in y && a + ":" + x == b + ":" + y
    ensures a == b && x == y
  {
    var s := a + ":" + x;
    assert s[|a|] == ':' && forall i :: |a| < i < |s| ==> s[i] == x[i - |a| - 1];
    assert s[|b|] == ':' && forall i :: |b| < i < |s| ==> s[i] == y[i - |b| - 1];
    assert |a| == |b|;
    assert s[..|a|] == a && s[..|b|] == b && s[|a| + 1..] == x && s[|b| + 1..] == y;
  }

  // -------------------------------------------------------------------- handles ---

  /** `^\d{4}-(?:0[1-9]|1[0-2])$` */
  predicate IsPeriod(s: string) {
    && |s| == 7 && s[4] == '-'
    && IsDigit(s[0]) && IsDigit(s[1]) && IsDigit(s[2]) && IsDigit(s[3])
    && ((s[5] == '0' && '1' <= s[6] <= '9') || (s[5] == '1' && '0' <= s[6] <= '2'))
  }

  /** Four digits for a year, a dash, and the number of a month in two. */
  lemma IsPeriodMeaning(s: string)
    ensures IsPeriod(s) <==>
      |s| == 7 && AllDigits(s[..4]) && s[4] == '-' && exists month: nat :: 1 <= month <= 12 && s[5..] == PadTwo(month)
  {
    if |s| == 7 {
      assert AllDigits(s[..4]) <==> IsDigit(s[0]) && IsDigit(s[1]) && IsDigit(s[2]) && IsDigit(s[3]);
      assert s[5..] == [s[5], s[6]];
      if exists month: nat :: 1 <= month <= 12 && s[5..] == PadTwo(month) {
        var month: nat :| 1 <= month <= 12 && s[5..] == PadTwo(month);
        TwoDigitMonth(month);
      }
      if (s[5] == '0' && '1' <= s[6] <= '9') || (s[5] == '1' && '0' <= s[6] <= '2') {
        var month := (if s[5] == '1' then 10 else 0) + (s[6] as int - '0' as int);
        TwoDigits(month);
        assert DigitChar(month % 10) == s[6];
        assert s[5..] == PadTwo(month);
      }
    }
  }

  datatype Handle = Handle(period: string, reservationId: string)

  function PrintHandle(period: string, reservationId: string): string {
    period + "." + reservationId
  }

  function ParseHandle(value: string, now: int): Handle {
    var separator := IndexOf(value, '.');
    var period := if separator > 0 then value[..separator] else "";
    var reservationId := if separator > 0 then value[separator + 1..] else value;
    if IsPeriod(period) && reservationId != "" then Handle(period, reservationId)
    else Handle(PeriodFor(now), value)
  }

  lemma {:induction false} FourDigits(year: nat)
    ensures |PrintNat(year)| == 4 <==> 1000 <= year <= 9999
  {
    PrintNatLength(year, 4);
    PrintNatLength(year, 3);
    assert Pow10(3) == 1000 && Pow10(4) == 10000;
  }

  lemma TwoDigitMonth(month: nat)
    requires 1 <= month <= 12
    ensures |PadTwo(month)| == 2
    ensures var m := PadTwo(month); (m[0] == '0' && '1' <= m[1] <= '9') || (m[0] == '1' && '0' <= m[1] <= '2')
  {
    if month >= 10 {
      assert PrintNat(month) == PrintNat(1) + [DigitChar(month % 10)];
    }
  }

  /** The printed period is one the handle reader accepts exactly when the year has four digits. */
  lemma PeriodIsReadable(nowMs: int)
    ensures IsPeriod(PeriodFor(nowMs)) <==> 1000 <= NaiveMsToWallClock(nowMs).year <= 9999
  {
    MonthInRange(nowMs);
    hide NaiveMsToWallClock;
    var wc := NaiveMsToWallClock(nowMs);
    TwoDigitMonth(wc.month);
    var year := PrintInt(wc.year);
    if wc.year >= 0 {
      FourDigits(wc.year);
      assert PeriodFor(nowMs)[|year|] == '-';
    } else {
      assert PeriodFor(nowMs)[0] == '-';
    }
  }

  /** A handle made in one month reads back to the same period and reservation at any later time, exactly
      when its year has four digits; otherwise it is taken to the counter of whatever month it is read in. */
  lemma HandleRoundTrip(madeAt: int, readAt: int, reservationId: string)
    requires reservationId != ""
    ensures 1000 <= NaiveMsToWallClock(madeAt).year <= 9999 ==>
      ParseHandle(PrintHandle(PeriodFor(madeAt), reservationId), readAt) == Handle(PeriodFor(madeAt), reservationId)
    ensures !(1000 <= NaiveMsToWallClock(madeAt).year <= 9999) ==>
      ParseHandle(PrintHandle(PeriodFor(madeAt), reservationId), readAt).period == PeriodFor(readAt)
  {
    PeriodHasNoDot(madeAt);
    PeriodIsReadable(madeAt);
    hide PeriodFor, NaiveMsToWallClock;
    var period := PeriodFor(madeAt);
    var value := PrintHandle(period, reservationId);
    assert value[..|period|] == period && value[|period| + 1..] == reservationId;
    IndexOfSeparator(period, reservationId, '.');
  }

  lemma PeriodHasNoDot(nowMs: int)
    ensures '.' !in PeriodFor(nowMs) && PeriodFor(nowMs) != ""
  {
    MonthInRange(nowMs);
    hide NaiveMsToWallClock;
  }

  // ---------------------------------------------------------- the counters, by name ---

  type Counters = map<string, Counter>

  function CounterAt(counters: Counters, name: string): Counter {
    if name in counters then counters[name] else UsageCounter.EMPTY
  }

  datatype Reservation = Reservation(id: string, cost: int)
  datatype Admission = Admitted(reservation: Reservation) | NotAdmitted(rateLimited: bool)

  /** Reserve with the counter of the current month. The reply's reservation id is the key, and no counter ever
      reports a rate limit. */
  ghost function AdapterReserve(counters: Counters, org: string, cost: int, plan: PlanId, key: string, now: int)
      : (Counters, Admission)
  {
    var period := PeriodFor(now);
    var name := CounterName(org, period);
    var (next, reply) := ReserveStep(CounterAt(counters, name), Number(cost as real), Some(plan), Some(key), now);
    (counters[name := next],
     if reply.admitted && reply.reservationId != "" then Admitted(Reservation(PrintHandle(period, reply.reservationId), cost))
     else NotAdmitted(false))
  }

  ghost function AdapterSettle(counters: Counters, org: string, id: string, actual: int, now: int): Counters {
    var handle := ParseHandle(id, now);
    var name := CounterName(org, handle.period);
    counters[name := SettleStep(CounterAt(counters, name), Some(handle.reservationId), Number(actual as real)).0]
  }

  ghost function AdapterRelease(counters: Counters, org: string, id: string, now: int): Counters {
    var handle := ParseHandle(id, now);
    var name := CounterName(org, handle.period);
    counters[name := ReleaseStep(CounterAt(counters, name), Some(handle.reservationId)).0]
  }

  /** What a fresh reservation leaves in its counter. */
  lemma FreshReservationHeld(c: Counter, cost: int, plan: PlanId, key: string, now: int)
    requires key !in c.pending && ReserveStep(c, Number(cost as real), Some(plan), Some(key), now).1.admitted
    ensures var reserved := ReserveStep(c, Number(cost as real), Some(plan), Some(key), now).0;
      && reserved.consumed == c.consumed && reserved.pending == c.pending[key := Reserved(cost, now)]
      && 0 <= cost <= MAX_COST && ValidateKey(Some(key)).None?
  {
    hide EvaluateQuota, EndOfPeriod, Total;
    assert (cost as real).Floor == cost;
  }

  lemma ReservationIdIsKey(c: Counter, cost: int, plan: PlanId, key: string, now: int)
    requires ReserveStep(c, Number(cost as real), Some(plan), Some(key), now).1.admitted
    ensures ReserveStep(c, Number(cost as real), Some(plan), Some(key), now).1.reservationId == key != ""
  {
    hide EvaluateQuota, EndOfPeriod, Total;
  }

  lemma AdmissionCarriesHandle(counters: Counters, org: string, cost: int, plan: PlanId, key: string, now: int)
    requires AdapterReserve(counters, org, cost, plan, key, now).1.Admitted?
    ensures var name := CounterName(org, PeriodFor(now));
      var (next, reply) := ReserveStep(CounterAt(counters, name), Number(cost as real), Some(plan), Some(key), now);
      && reply.admitted && key != ""
      && AdapterReserve(counters, org, cost, plan, key, now)
           == (counters[name := next], Admitted(Reservation(PrintHandle(PeriodFor(now), key), cost)))
  {
    hide PeriodFor, PrintHandle, ReserveStep;
    ReservationIdIsKey(CounterAt(counters, CounterName(org, PeriodFor(now))), cost, plan, key, now);
  }

  /** Releasing is settling for nothing, at the same counter. */
  lemma ReleaseSettlesNothing(counters: Counters, org: string, id: string, now: int)
    ensures AdapterRelease(counters, org, id, now) == AdapterSettle(counters, org, id, 0, now)
  {
    assert 0 as real == 0.0;
  }

  /** The close of a reservation got through: its counter holds it no more and has charged the amount. */
  predicate Closed(c: Counter, d: Counter, key: string, amount: int) {
    key in c.pending && d == c.(consumed := c.consumed + amount, pending := c.pending - {key})
  }

  /** A handle settles at the counter it was made for, whatever month it is by then and whatever has happened there:
      the amount is charged and the reservation closed exactly when one that covers it is pending under the key, and
      otherwise nothing changes. */
  lemma HandleSettlesIff(met: Counters, org: string, key: string, madeAt: int, later: int, actual: int)
    requires 1000 <= NaiveMsToWallClock(madeAt).year <= 9999
    requires ValidateKey(Some(key)).None? && 0 <= actual <= MAX_COST
    ensures var name := CounterName(org, PeriodFor(madeAt)); var c := CounterAt(met, name);
      var settled := AdapterSettle(met, org, PrintHandle(PeriodFor(madeAt), key), actual, later);
      && (Closed(c, CounterAt(settled, name), key, actual) <==> key in c.pending && actual <= c.pending[key].cost)
      && (!Closed(c, CounterAt(settled, name), key, actual) ==> CounterAt(settled, name) == c)
      && (forall other :: other != name ==> CounterAt(settled, other) == CounterAt(met, other))
  {
    HandleRoundTrip(madeAt, later, key);
    hide PeriodFor, NaiveMsToWallClock, ParseHandle, PrintHandle;
    assert (actual as real).Floor == actual;
  }

  /** The reservation is still there when a settle or release comes, whatever other requests and alarms the admitting
      counter has served since, as long as none of them has ended it. It then takes any amount up to the reservation
      and closes it, so success charges the full cost and failure the failed-call weight. */
  lemma FreshReservationSettlesWhereAdmitted(
      counters: Counters, org: string, cost: int, plan: PlanId, key: string, now: int,
      reserved: Counters, reservation: Reservation, met: Counters, events: seq<Runs.Event>, later: int, actual: int)
    requires 1000 <= NaiveMsToWallClock(now).year <= 9999
    requires key !in CounterAt(counters, CounterName(org, PeriodFor(now))).pending
    requires AdapterReserve(counters, org, cost, plan, key, now) == (reserved, Admitted(reservation))
    requires var name := CounterName(org, PeriodFor(now));
      CounterAt(met, name) == Runs.Ran(CounterAt(reserved, name), events)
    requires 0 <= actual <= cost
    ensures reservation.cost == cost
    ensures Runs.Stands(CounterAt(reserved, CounterName(org, PeriodFor(now))), events, key)
       <==> Runs.Spared(events, key, Reserved(cost, now))
    ensures Runs.Spared(events, key, Reserved(cost, now)) ==>
      var name := CounterName(org, PeriodFor(now)); var settled := AdapterSettle(met, org, reservation.id, actual, later);
      && Runs.Holds(CounterAt(met, name), key, Reserved(cost, now))
      && Closed(CounterAt(met, name), CounterAt(settled, name), key, actual)
      && (forall other :: other != name ==> CounterAt(settled, other) == CounterAt(met, other))
  {
    var name := CounterName(org, PeriodFor(now));
    AdmissionCarriesHandle(counters, org, cost, plan, key, now);
    FreshReservationHeld(CounterAt(counters, name), cost, plan, key, now);
    HandleSettlesIff(met, org, key, now, later, actual);
    hide PeriodFor, CounterName, NaiveMsToWallClock, PrintHandle, ReserveStep, AdapterReserve, AdapterSettle, Closed,
         ValidateKey, Runs.Ran, Runs.Ends, Runs.Spared, Runs.Stands;
    assert CounterAt(reserved, name).pending[key] == Reserved(cost, now);
    Runs.ReservationStandsIff(CounterAt(reserved, name), events, key);
  }

  /** Under a key that holds no reservation, one is admitted exactly when cost and key are well formed, the counter
      can hold another, and what is consumed and pending leaves room for it in the plan. */
  lemma FreshReservationAdmittedIff(counters: Counters, org: string, cost: int, plan: PlanId, key: string, now: int)
    requires key !in CounterAt(counters, CounterName(org, PeriodFor(now))).pending
    ensures var c := CounterAt(counters, CounterName(org, PeriodFor(now)));
      AdapterReserve(counters, org, cost, plan, key, now).1.Admitted? <==>
        && ValidateCost(Number(cost as real)).None? && ValidateKey(Some(key)).None?
        && |c.pending| < MAX_PENDING && Total(c) + cost <= PlanLimit(plan)
  {
    hide PeriodFor, CounterName, PrintHandle, EvaluateQuota, EndOfPeriod, Total, CounterAt;
    assert (cost as real).Floor == cost;
    var c := CounterAt(counters, CounterName(org, PeriodFor(now)));
    if ReserveStep(c, Number(cost as real), Some(plan), Some(key), now).1.admitted {
      ReservationIdIsKey(c, cost, plan, key, now);
    }
  }

  /** The price of an authorised metered call is one the counter accepts, and covers the failed-call weight. */
  lemma AuthorisedPriceIsChargeable(known: Vocabulary, contract: Contract, args: Args, caller: Caller)
    requires Catalogued(known, contract.tool) && contract.Metered()
    requires AssertCallable(known, Some(contract), args, caller).Callable?
    ensures var cost := SuccessCost(known, contract.tool, caller.siteScopes);
      && 1 <= cost <= MAX_COST && 1 <= FAILED_CALL_WEIGHT <= cost
      && ValidateCost(Number(cost as real)).None?
  {
    AuthorisedCallHasPrice(known, contract, args, caller);
    var cost := SuccessCost(known, contract.tool, caller.siteScopes);
    assert (cost as real).Floor == cost;
  }

  /** Reserving again under a key that holds a reservation is admitted, at whatever price, and changes no counter. */
  lemma ReuseChangesNothing(counters: Counters, org: string, cost: int, plan: PlanId, key: string, now: int)
    requires key in CounterAt(counters, CounterName(org, PeriodFor(now))).pending
    requires 0 <= cost <= MAX_COST && ValidateKey(Some(key)).None?
    ensures AdapterReserve(counters, org, cost, plan, key, now)
         == (counters, Admitted(Reservation(PrintHandle(PeriodFor(now), key), cost)))
  {
    hide PeriodFor, PrintHandle, EvaluateQuota, EndOfPeriod, Total;
    assert (cost as real).Floor == cost;
    var name := CounterName(org, PeriodFor(now));
    assert name in counters;
    assert counters[name := counters[name]] == counters;
  }

  /** A retry whose key still holds a reservation keeps the old price inside the counter while the adapter
      reports the new one. Settling the reported cost then succeeds exactly when it does not exceed the
      held one; a dearer retry goes uncharged. */
  lemma ReusedReservationSettlesIff(
      counters: Counters, org: string, cost: int, plan: PlanId, key: string, now: int,
      reserved: Counters, admission: Admission, met: Counters, events: seq<Runs.Event>, later: int)
    requires 1000 <= NaiveMsToWallClock(now).year <= 9999
    requires var c := CounterAt(counters, CounterName(org, PeriodFor(now)));
      && Runs.Settleable(c, key) && Runs.Spared(events, key, c.pending[key])
      && CounterAt(met, CounterName(org, PeriodFor(now))) == Runs.Ran(c, events)
    requires 0 <= cost <= MAX_COST
    requires AdapterReserve(counters, org, cost, plan, key, now) == (reserved, admission)
    ensures admission.Admitted? && admission.reservation.cost == cost && reserved == counters
    ensures var name := CounterName(org, PeriodFor(now)); var held := CounterAt(counters, name).pending[key].cost;
      var settled := AdapterSettle(met, org, admission.reservation.id, cost, later);
      && (Closed(CounterAt(met, name), CounterAt(settled, name), key, cost) <==> cost <= held)
      && (cost > held ==> CounterAt(settled, name) == CounterAt(met, name))
  {
    var name := CounterName(org, PeriodFor(now));
    HandleSettlesIff(met, org, key, now, later, cost);
    Runs.ReservationStandsIff(CounterAt(counters, name), events, key);
    ReuseChangesNothing(counters, org, cost, plan, key, now);
    hide *;
  }
}
