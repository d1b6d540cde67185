/** The action executor: one pipeline that claims, reserves, locks and snapshots before it calls a tool, and
    unwinds whatever it took on every path out. Every port may answer anything or throw. */
module Executor {
  import opened Gate
  import opened Idempotency
  import opened Metering
  import opened Options

  // ------------------------------------------------------------------- the ports ---

  datatype FailureKind = Unreachable | SiteError | Timeout | TooLarge | BadSignature
  datatype TransportResult = CallOk(data: Option<string>) | CallFailed(kind: FailureKind)

  /** One port call, with what it names, and what came of it; an absent answer means the port threw. */
  datatype Effect =
    | ClaimKey(key: string, requestHash: string, claim: Option<ClaimOutcome>)
    | SettleKey(key: string, success: bool, data: Option<string>, threw: bool)
    | Reserve(key: string, cost: int, admission: Option<Admission>)
    | SettleMeter(id: string, actual: int, threw: bool)
    | ReleaseMeter(id: string, threw: bool)
    | AcquireLock(lockKey: string, ttlMs: int, held: Option<bool>)
    | ReleaseLock(lockKey: string, threw: bool)
    | TakeSnapshot(site: string, snapshot: Option<Option<string>>)
    | CallTool(site: string, snapshotId: Option<string>, result: Option<TransportResult>)
    | Audit(actionsConsumed: int, threw: bool)
    | AskApproval(requestHash: string, threw: bool)

  /** How the ports will behave; the functions decide by the number of effects so far. */
  datatype Script = Script(
    claim: Option<ClaimOutcome>, admission: Option<Admission>, lock: Option<bool>, snapshot: Option<Option<string>>,
    call: Option<TransportResult>, throws: nat -> bool)

  const LOCK_MARGIN_MS := 5_000

  /** What the pipeline looks at. `price` is the cost of a success, `roleAllows` the role check; arguments
      without a canonical form have no digest, and asking for it throws. */
  datatype Request = Request(
    id: string, siteId: Option<string>, verdict: Verdict, roleAllows: bool, dryRun: bool, key: Option<string>,
    price: int, digest: Option<string>)
  {
    predicate Callable() {
      verdict.Callable? && roleAllows && (verdict.contract.hasRoute ==> siteId.Some?) && digest.Some?
    }

    predicate NeedsApproval() {
      verdict == Verdict.Denied(ApprovalRequired)
    }

    predicate NeedsReservation() {
      verdict.Callable? && !dryRun && verdict.contract.Metered()
    }

    predicate NeedsLock() {
      !dryRun && siteId.Some?
    }

    predicate NeedsSnapshot() {
      verdict.Callable? && verdict.contract.requiresSnapshot && siteId.Some? && !dryRun
    }

    /** The key a reservation is made under: the caller's, or one of this request's own. */
    function ReservationKey(): string
      requires digest.Some?
    {
      if key.Some? then key.value else id + ":" + digest.value
    }

    function LockKey(): string
      requires siteId.Some?
    {
      "site:" + siteId.value
    }
  }

  datatype ErrorCode = GateDenied(code: Denial) | ForbiddenRole | NoSite | InFlightConflict | KeyConflict
    | QuotaExceeded | RateLimited | SiteBusy | SnapshotRequired | TransportFailed(kind: FailureKind) | Internal

  datatype ExecuteResult =
    | Done(data: Option<string>, actionsConsumed: int, replayed: bool)
    | Failure(code: ErrorCode, actionsConsumed: int)

  // ----------------------------------------------------------------- the monitor ---

  datatype KeyState = KeyFree | KeyHeld | KeySettled(success: bool, times: nat)
  datatype LockState = NeverLocked | Locked | Unlocked
  datatype ApprovalState = NotAsked | Asked | AskFailed

  /** `closed` is the amount of the settle or release that got through, when one did. */
  datatype MeterState = Unreserved | Holding(reservation: Reservation) | Attempted(reservation: Reservation, closed: Option<int>)

  /** What a trace has taken, by name, and how far it has got; astray once some effect was out of place or named
      something other than what was taken. */
  datatype Monitor = Monitor(
    key: KeyState, meter: MeterState, lock: LockState, snapshot: Option<string>,
    called: bool, answer: Option<TransportResult>, approval: ApprovalState, audits: nat, auditThrew: bool, astray: bool)

  const CALM := Monitor(KeyFree, Unreserved, NeverLocked, None, false, None, NotAsked, 0, false, false)

  /** Actions the request has cost by what is known: its reservation on success, the failed-call weight when the
      site was reached, otherwise nothing. */
  function Amount(m: Monitor): int {
    if m.answer.None? then 0
    else match m.answer.value
      case CallOk(_) => if m.meter.Unreserved? then 0 else m.meter.reservation.cost
      case CallFailed(kind) => if kind.Unreachable? then 0 else FAILED_CALL_WEIGHT
  }

  /** Authorised, not yet called, and holding its key if it has one. */
  predicate Cleared(request: Request, m: Monitor) {
    request.Callable() && !m.called && (request.key.Some? ==> m.key.KeyHeld?)
  }

  /** An empty id is not passed on. */
  function PassedOn(snapshotId: Option<string>): Option<string> {
    if snapshotId == Some("") then None else snapshotId
  }

  predicate Allowed(request: Request, m: Monitor, e: Effect) {
    match e
    case ClaimKey(key, requestHash, _) =>
      m == CALM && request.Callable() && request.key == Some(key) && request.digest == Some(requestHash)
    case Reserve(key, cost, _) =>
      && Cleared(request, m) && request.NeedsReservation() && m.meter.Unreserved? && m.lock.NeverLocked?
      && cost == request.price && key == request.ReservationKey()
    case AcquireLock(lockKey, ttlMs, _) =>
      && Cleared(request, m) && request.NeedsLock() && m.lock.NeverLocked? && m.snapshot.None?
      && (request.NeedsReservation() ==> m.meter.Holding?)
      && lockKey == request.LockKey() && ttlMs == request.verdict.contract.timeoutMs + LOCK_MARGIN_MS
    case TakeSnapshot(site, _) =>
      Cleared(request, m) && request.NeedsSnapshot() && m.snapshot.None? && m.lock.Locked? && request.siteId == Some(site)
    case CallTool(site, snapshotId, _) =>
      && Cleared(request, m)
      && (request.NeedsReservation() ==> m.meter.Holding?)
      && (request.NeedsLock() ==> m.lock.Locked?)
      && (request.NeedsSnapshot() ==> m.snapshot.Some?)
      && snapshotId == PassedOn(m.snapshot) && site == (if request.siteId.Some? then request.siteId.value else "")
    case SettleMeter(id, actual, _) =>
      && m.meter.Holding? && id == m.meter.reservation.id && !m.lock.Unlocked?
      && m.answer.Some? && m.answer.value != CallFailed(Unreachable) && actual == Amount(m)
    case ReleaseMeter(id, _) =>
      && !m.meter.Unreserved? && id == m.meter.reservation.id && !m.lock.Unlocked?
      && (m.meter.Holding? ==> m.answer.None? || m.answer.value == CallFailed(Unreachable))
      && (m.meter.Attempted? ==> m.meter.closed.None?)
    case SettleKey(key, success, data, _) =>
      && request.key == Some(key) && !m.key.KeyFree? && !m.lock.Unlocked?
      && (m.key.KeySettled? ==> m.key.times == 1 && m.auditThrew && !success)
      && (if success then m.answer == Some(CallOk(data)) else data.None?)
    case ReleaseLock(lockKey, _) => m.lock.Locked? && request.siteId.Some? && lockKey == request.LockKey()
    case Audit(actionsConsumed, _) =>
      m.audits == 0 && actionsConsumed == Amount(m) && (request.NeedsApproval() ==> m.approval.Asked?)
    case AskApproval(requestHash, _) => m == CALM && request.NeedsApproval() && request.digest == Some(requestHash)
  }

  function Next(m: Monitor, e: Effect): Monitor {
    match e
    case ClaimKey(_, _, claim) => if claim == Some(Claimed) then m.(key := KeyHeld) else m
    case Reserve(_, _, admission) =>
      if admission.Some? && admission.value.Admitted? then m.(meter := Holding(admission.value.reservation)) else m
    case AcquireLock(_, _, held) => if held == Some(true) then m.(lock := Locked) else m
    case TakeSnapshot(_, snapshot) => if snapshot.Some? then m.(snapshot := snapshot.value) else m
    case CallTool(_, _, result) => m.(called := true, answer := result)
    case SettleMeter(_, actual, threw) =>
      if m.meter.Unreserved? then m
      else m.(meter := Attempted(m.meter.reservation, if threw then None else Some(actual)))
    case ReleaseMeter(_, threw) =>
      if m.meter.Unreserved? then m
      else m.(meter := Attempted(m.meter.reservation, if threw then None else Some(0)))
    case SettleKey(_, success, _, _) =>
      m.(key := KeySettled(success, if m.key.KeySettled? then m.key.times + 1 else 1))
    case ReleaseLock(_, _) => m.(lock := Unlocked)
    case Audit(_, threw) => m.(audits := m.audits + 1, auditThrew := m.auditThrew || threw)
    case AskApproval(_, threw) => m.(approval := if threw then AskFailed else Asked)
  }

  function Observe(request: Request, m: Monitor, e: Effect): Monitor {
    Next(m, e).(astray := m.astray || !Allowed(request, m, e))
  }

  function Watch(request: Request, trace: seq<Effect>): Monitor {
    if trace == [] then CALM
    else Observe(request, Watch(request, trace[..|trace| - 1]), trace[|trace| - 1])
  }

  lemma WatchAppend(request: Request, trace: seq<Effect>, e: Effect)
    ensures Watch(request, trace + [e]) == Observe(request, Watch(request, trace), e)
  {
    hide Observe;
    assert (trace + [e])[..|trace|] == trace;
  }

  // --------------------------------------------------- what the monitor's word means ---

  /** Every effect of a trace that has not gone astray was in its place. */
  lemma {:induction false} UnflaggedEffectIsAllowed(request: Request, trace: seq<Effect>, i: nat)
    requires !Watch(request, trace).astray && i < |trace|
    ensures Allowed(request, Watch(request, trace[..i]), trace[i]) && !Watch(request, trace[..i]).astray
    decreases |trace|
  {
    hide Allowed, Next;
    var n := |trace| - 1;
    if i < n {
      UnflaggedEffectIsAllowed(request, trace[..n], i);
      assert trace[..n][..i] == trace[..i];
    }
  }

  /** A trace not astray is an earlier one, not astray, and one more effect in its place. */
  lemma Unfold(request: Request, trace: seq<Effect>) returns (before: seq<Effect>, e: Effect)
    requires trace != [] && !Watch(request, trace).astray
    ensures trace == before + [e] && !Watch(request, before).astray && Allowed(request, Watch(request, before), e)
    ensures Watch(request, trace) == Next(Watch(request, before), e)
  {
    hide Allowed;
    before, e := trace[..|trace| - 1], trace[|trace| - 1];
  }

  // What an effect takes or closes, and under which name.

  predicate Claims(e: Effect, key: string) {
    e.ClaimKey? && e.key == key && e.claim == Some(Claimed)
  }

  predicate Admits(e: Effect, r: Reservation) {
    e.Reserve? && e.admission == Some(Admitted(r))
  }

  predicate ClosesMeter(e: Effect) {
    e.SettleMeter? || e.ReleaseMeter?
  }

  predicate Locks(e: Effect, lockKey: string) {
    e.AcquireLock? && e.lockKey == lockKey && e.held == Some(true)
  }

  predicate Snaps(e: Effect, id: string) {
    e.TakeSnapshot? && e.snapshot == Some(Some(id))
  }

  predicate Answers(e: Effect, result: TransportResult) {
    e.CallTool? && e.result == Some(result)
  }

  /** Where what the monitor remembers after an effect comes from. */
  lemma StepFrom(request: Request, m: Monitor, e: Effect)
    requires Allowed(request, m, e)
    ensures var n := Next(m, e);
      && (!n.key.KeyFree? ==> !m.key.KeyFree? || (request.key.Some? && Claims(e, request.key.value)))
      && (!n.meter.Unreserved? ==>
            Admits(e, n.meter.reservation) || (!m.meter.Unreserved? && m.meter.reservation == n.meter.reservation))
      && (n.meter.Holding? ==> Admits(e, n.meter.reservation) || (m.meter == n.meter && !ClosesMeter(e)))
      && (n.lock.Locked? ==> (request.siteId.Some? && Locks(e, request.LockKey())) || (m.lock.Locked? && !e.ReleaseLock?))
      && (n.snapshot.Some? ==> Snaps(e, n.snapshot.value) || m.snapshot == n.snapshot)
      && (n.answer.Some? ==> Answers(e, n.answer.value) || m.answer == n.answer)
  {
  }

  /** What an effect takes is open after it, and what was open stays so until it is closed. */
  lemma StepTo(request: Request, m: Monitor, e: Effect, r: Reservation)
    requires Allowed(request, m, e)
    ensures var n := Next(m, e);
      && ((e.AcquireLock? && e.held == Some(true)) || (m.lock.Locked? && !e.ReleaseLock?) ==> n.lock.Locked?)
      && (Admits(e, r) || (m.meter == Holding(r) && !ClosesMeter(e)) ==> n.meter == Holding(r))
      && ((e.ClaimKey? && e.claim == Some(Claimed)) || (m.key.KeyHeld? && !e.SettleKey?) ==> n.key.KeyHeld?)
      && (!m.meter.Unreserved? ==> !n.meter.Unreserved? && n.meter.reservation == m.meter.reservation)
      && (ClosesMeter(e) ==> !n.meter.Unreserved? && n.meter.reservation.id == e.id)
  {
  }

  ghost predicate ClaimedAt(trace: seq<Effect>, key: string) {
    exists i :: 0 <= i < |trace| && Claims(trace[i], key)
  }

  ghost predicate AdmittedAt(trace: seq<Effect>, r: Reservation) {
    exists i :: 0 <= i < |trace| && Admits(trace[i], r)
  }

  /** The reservation was admitted earlier and nothing has been settled or released since. */
  ghost predicate ReservationHeldAt(trace: seq<Effect>, r: Reservation) {
    exists i :: 0 <= i < |trace| && Admits(trace[i], r) && forall j :: i < j < |trace| ==> !ClosesMeter(trace[j])
  }

  /** This lock was granted earlier and no lock has been released since. */
  ghost predicate LockHeldAt(trace: seq<Effect>, lockKey: string) {
    exists i :: 0 <= i < |trace| && Locks(trace[i], lockKey) && forall j :: i < j < |trace| ==> !trace[j].ReleaseLock?
  }

  ghost predicate SnapshotTakenAt(trace: seq<Effect>, id: string) {
    exists i :: 0 <= i < |trace| && Snaps(trace[i], id)
  }

  ghost predicate AnsweredAt(trace: seq<Effect>, result: TransportResult) {
    exists i :: 0 <= i < |trace| && Answers(trace[i], result)
  }

  lemma ClaimedStays(before: seq<Effect>, e: Effect, key: string)
    requires ClaimedAt(before, key) || Claims(e, key)
    ensures ClaimedAt(before + [e], key)
  {
    var trace := before + [e];
    assert trace[|before|] == e && forall i :: 0 <= i < |before| ==> trace[i] == before[i];
  }

  lemma AdmittedStays(before: seq<Effect>, e: Effect, r: Reservation)
    requires AdmittedAt(before, r) || Admits(e, r)
    ensures AdmittedAt(before + [e], r)
  {
    var trace := before + [e];
    assert trace[|before|] == e && forall i :: 0 <= i < |before| ==> trace[i] == before[i];
  }

  lemma ReservationStaysHeld(before: seq<Effect>, e: Effect, r: Reservation)
    requires Admits(e, r) || (ReservationHeldAt(before, r) && !ClosesMeter(e))
    ensures ReservationHeldAt(before + [e], r)
  {
    var trace := before + [e];
    assert trace[|before|] == e && forall i :: 0 <= i < |before| ==> trace[i] == before[i];
  }

  lemma LockStaysHeld(before: seq<Effect>, e: Effect, lockKey: string)
    requires Locks(e, lockKey) || (LockHeldAt(before, lockKey) && !e.ReleaseLock?)
    ensures LockHeldAt(before + [e], lockKey)
  {
    var trace := before + [e];
    assert trace[|before|] == e && forall i :: 0 <= i < |before| ==> trace[i] == before[i];
  }

  lemma SnapshotStaysTaken(before: seq<Effect>, e: Effect, id: string)
    requires SnapshotTakenAt(before, id) || Snaps(e, id)
    ensures SnapshotTakenAt(before + [e], id)
  {
    var trace := before + [e];
    assert trace[|before|] == e && forall i :: 0 <= i < |before| ==> trace[i] == before[i];
  }

  lemma AnswerStays(before: seq<Effect>, e: Effect, result: TransportResult)
    requires AnsweredAt(before, result) || Answers(e, result)
    ensures AnsweredAt(before + [e], result)
  {
    var trace := before + [e];
    assert trace[|before|] == e && forall i :: 0 <= i < |before| ==> trace[i] == before[i];
  }

  lemma {:induction false} MonitorTracksKey(request: Request, trace: seq<Effect>)
    requires !Watch(request, trace).astray && !Watch(request, trace).key.KeyFree?
    ensures request.key.Some? && ClaimedAt(trace, request.key.value)
    decreases |trace|
  {
    if trace != [] {
      var before, e := Unfold(request, trace);
      StepFrom(request, Watch(request, before), e);
      hide Watch, Next, Allowed, ClaimedAt, Claims;
      if !Watch(request, before).key.KeyFree? {
        MonitorTracksKey(request, before);
      }
      ClaimedStays(before, e, request.key.value);
    }
  }

  /** A reservation the monitor remembers was admitted, and one it holds has not been closed since. */
  lemma {:induction false} MonitorTracksReservation(request: Request, trace: seq<Effect>)
    requires !Watch(request, trace).astray && !Watch(request, trace).meter.Unreserved?
    ensures var m := Watch(request, trace).meter;
      AdmittedAt(trace, m.reservation) && (m.Holding? ==> ReservationHeldAt(trace, m.reservation))
    decreases |trace|
  {
    if trace != [] {
      var before, e := Unfold(request, trace);
      StepFrom(request, Watch(request, before), e);
      hide Watch, Next, Allowed, AdmittedAt, ReservationHeldAt, Admits, ClosesMeter;
      if !Watch(request, before).meter.Unreserved? {
        MonitorTracksReservation(request, before);
      }
      AdmittedStays(before, e, Watch(request, trace).meter.reservation);
      if Watch(request, trace).meter.Holding? {
        ReservationStaysHeld(before, e, Watch(request, trace).meter.reservation);
      }
    }
  }

  /** A lock the monitor holds is this site's, granted and not released since. */
  lemma {:induction false} MonitorTracksLock(request: Request, trace: seq<Effect>)
    requires !Watch(request, trace).astray && Watch(request, trace).lock.Locked?
    ensures request.siteId.Some? && LockHeldAt(trace, request.LockKey())
    decreases |trace|
  {
    if trace != [] {
      var before, e := Unfold(request, trace);
      StepFrom(request, Watch(request, before), e);
      hide Watch, Next, Allowed, LockHeldAt, Locks;
      if Watch(request, before).lock.Locked? {
        MonitorTracksLock(request, before);
      }
      LockStaysHeld(before, e, request.LockKey());
    }
  }

  lemma {:induction false} MonitorTracksSnapshot(request: Request, trace: seq<Effect>)
    requires !Watch(request, trace).astray && Watch(request, trace).snapshot.Some?
    ensures SnapshotTakenAt(trace, Watch(request, trace).snapshot.value)
    decreases |trace|
  {
    if trace != [] {
      var before, e := Unfold(request, trace);
      StepFrom(request, Watch(request, before), e);
      hide Watch, Next, Allowed, SnapshotTakenAt, Snaps;
      if Watch(request, before).snapshot.Some? {
        MonitorTracksSnapshot(request, before);
      }
      SnapshotStaysTaken(before, e, Watch(request, trace).snapshot.value);
    }
  }

  lemma {:induction false} MonitorTracksAnswer(request: Request, trace: seq<Effect>)
    requires !Watch(request, trace).astray && Watch(request, trace).answer.Some?
    ensures AnsweredAt(trace, Watch(request, trace).answer.value)
    decreases |trace|
  {
    if trace != [] {
      var before, e := Unfold(request, trace);
      StepFrom(request, Watch(request, before), e);
      hide Watch, Next, Allowed, AnsweredAt, Answers;
      if Watch(request, before).answer.Some? {
        MonitorTracksAnswer(request, before);
      }
      AnswerStays(before, e, Watch(request, trace).answer.value);
    }
  }

  /** Everything the call needs is held, under its own name, and the snapshot handed over is the one taken: an
      authorised and permitted caller, with a site when the tool has a route to one; the claim of its key, if it has one;
      and, unless it is a dry run, a reservation when the tool is metered, the lock of its site, and a snapshot when the
      tool demands one of a site. */
  ghost predicate SafeToCall(request: Request, before: seq<Effect>, snapshotId: Option<string>) {
    && request.verdict.Callable? && request.roleAllows && request.digest.Some?
    && (request.verdict.contract.hasRoute ==> request.siteId.Some?)
    && (request.key.Some? ==> ClaimedAt(before, request.key.value))
    && (!request.dryRun && request.verdict.contract.tool.scope.Some? ==> exists r :: ReservationHeldAt(before, r))
    && (!request.dryRun && request.siteId.Some? ==> LockHeldAt(before, "site:" + request.siteId.value))
    && (if !request.dryRun && request.siteId.Some? && request.verdict.contract.requiresSnapshot
        then exists id :: SnapshotTakenAt(before, id) && snapshotId == (if id == "" then None else Some(id))
        else snapshotId.None? || SnapshotTakenAt(before, snapshotId.value))
  }

  /** Whatever is claimed, reserved, locked, saved or called is the request's own: its key and digest, its price under
      its key or an id of its own, its site for as long as the tool may take and five seconds more. */
  ghost predicate NamesTheRequest(request: Request, e: Effect) {
    match e
    case ClaimKey(key, requestHash, _) => request.key == Some(key) && request.digest == Some(requestHash)
    case Reserve(key, cost, _) =>
      && cost == request.price && request.digest.Some?
      && key == (if request.key.Some? then request.key.value else request.id + ":" + request.digest.value)
    case AcquireLock(lockKey, ttlMs, _) =>
      && request.verdict.Callable? && ttlMs == request.verdict.contract.timeoutMs + 5_000
      && request.siteId.Some? && lockKey == "site:" + request.siteId.value
    case TakeSnapshot(site, _) => request.siteId == Some(site)
    case CallTool(site, _, _) => site == if request.siteId.Some? then request.siteId.value else ""
    case AskApproval(requestHash, _) =>
      request.verdict == Verdict.Denied(ApprovalRequired) && request.digest == Some(requestHash)
    case _ => true
  }

  lemma UnflaggedEffectsNameTheRequest(request: Request, trace: seq<Effect>, i: nat)
    requires !Watch(request, trace).astray && i < |trace|
    ensures NamesTheRequest(request, trace[i])
  {
    UnflaggedEffectIsAllowed(request, trace, i);
    hide Watch;
  }

  lemma HeldIsSafe(
      request: Request, before: seq<Effect>, m: Monitor, site: string, result: Option<TransportResult>, snapshotId: Option<string>)
    requires Allowed(request, m, CallTool(site, snapshotId, result))
    requires m.key.KeyHeld? ==> request.key.Some? && ClaimedAt(before, request.key.value)
    requires m.meter.Holding? ==> ReservationHeldAt(before, m.meter.reservation)
    requires m.lock.Locked? ==> request.siteId.Some? && LockHeldAt(before, request.LockKey())
    requires m.snapshot.Some? ==> SnapshotTakenAt(before, m.snapshot.value)
    ensures SafeToCall(request, before, snapshotId)
  {
    hide ClaimedAt, ReservationHeldAt, LockHeldAt, SnapshotTakenAt;
  }

  /** A trace not astray calls a tool only while it holds everything the call needs. */
  lemma UnflaggedCallsAreSafe(request: Request, trace: seq<Effect>, i: nat)
    requires !Watch(request, trace).astray && i < |trace| && trace[i].CallTool?
    ensures SafeToCall(request, trace[..i], trace[i].snapshotId)
  {
    hide Watch, Allowed, SafeToCall, ClaimedAt, ReservationHeldAt, LockHeldAt, SnapshotTakenAt;
    UnflaggedEffectIsAllowed(request, trace, i);
    var before := trace[..i];
    var m := Watch(request, before);
    if m.key.KeyHeld? { MonitorTracksKey(request, before); }
    if m.meter.Holding? { MonitorTracksReservation(request, before); }
    if m.lock.Locked? { MonitorTracksLock(request, before); }
    if m.snapshot.Some? { MonitorTracksSnapshot(request, before); }
    HeldIsSafe(request, before, m, trace[i].site, trace[i].result, trace[i].snapshotId);
  }

  /** What closes a resource names the very one that was taken: a settle or release the admitted reservation, a
      lock release the lock held, a key settle the claimed key with the tool's own answer. */
  ghost predicate ClosesItsOwn(request: Request, before: seq<Effect>, e: Effect) {
    match e
    case SettleMeter(id, actual, _) =>
      exists r, result :: AdmittedAt(before, r) && id == r.id && AnsweredAt(before, result)
        && actual == (if result.CallOk? then r.cost else FAILED_CALL_WEIGHT)
    case ReleaseMeter(id, _) => exists r :: AdmittedAt(before, r) && id == r.id
    case ReleaseLock(lockKey, _) => request.siteId.Some? && lockKey == request.LockKey() && LockHeldAt(before, lockKey)
    case SettleKey(key, success, data, _) =>
      request.key == Some(key) && ClaimedAt(before, key) && (success ==> AnsweredAt(before, CallOk(data)))
    case _ => true
  }

  lemma UnflaggedEffectsCloseTheirOwn(request: Request, trace: seq<Effect>, i: nat)
    requires !Watch(request, trace).astray && i < |trace|
    ensures ClosesItsOwn(request, trace[..i], trace[i])
  {
    UnflaggedEffectIsAllowed(request, trace, i);
    hide Watch, ClaimedAt, AdmittedAt, LockHeldAt, AnsweredAt;
    var before := trace[..i];
    var m := Watch(request, before);
    if !m.key.KeyFree? { MonitorTracksKey(request, before); }
    if !m.meter.Unreserved? { MonitorTracksReservation(request, before); }
    if m.lock.Locked? { MonitorTracksLock(request, before); }
    if m.answer.Some? { MonitorTracksAnswer(request, before); }
  }

  /** What a trace takes and nothing closes afterwards is still open at its end. */
  lemma {:induction false} UnreleasedStaysLocked(request: Request, trace: seq<Effect>, i: nat)
    requires !Watch(request, trace).astray && i < |trace| && trace[i].AcquireLock? && trace[i].held == Some(true)
    requires forall j :: i < j < |trace| ==> !trace[j].ReleaseLock?
    ensures Watch(request, trace).lock.Locked?
    decreases |trace|
  {
    var before, e := Unfold(request, trace);
    StepTo(request, Watch(request, before), e, Reservation("", 0));
    hide Watch, Next, Allowed, ClosesMeter, Admits;
    assert trace[|before|] == e && forall j :: 0 <= j < |before| ==> trace[j] == before[j];
    if i < |before| {
      UnreleasedStaysLocked(request, before, i);
    }
  }

  lemma {:induction false} UnsettledStaysHeld(request: Request, trace: seq<Effect>, i: nat, r: Reservation)
    requires !Watch(request, trace).astray && i < |trace| && Admits(trace[i], r)
    requires forall j :: i < j < |trace| ==> !ClosesMeter(trace[j])
    ensures Watch(request, trace).meter == Holding(r)
    decreases |trace|
  {
    var before, e := Unfold(request, trace);
    StepTo(request, Watch(request, before), e, r);
    hide Watch, Next, Allowed, ClosesMeter, Admits;
    assert trace[|before|] == e && forall j :: 0 <= j < |before| ==> trace[j] == before[j];
    if i < |before| {
      UnsettledStaysHeld(request, before, i, r);
    }
  }

  lemma {:induction false} UnsettledKeyStaysHeld(request: Request, trace: seq<Effect>, i: nat)
    requires !Watch(request, trace).astray && i < |trace| && trace[i].ClaimKey? && trace[i].claim == Some(Claimed)
    requires forall j :: i < j < |trace| ==> !trace[j].SettleKey?
    ensures Watch(request, trace).key.KeyHeld?
    decreases |trace|
  {
    var before, e := Unfold(request, trace);
    StepTo(request, Watch(request, before), e, Reservation("", 0));
    hide Watch, Next, Allowed, ClosesMeter, Admits;
    assert trace[|before|] == e && forall j :: 0 <= j < |before| ==> trace[j] == before[j];
    if i < |before| {
      UnsettledKeyStaysHeld(request, before, i);
    }
  }

  /** The reservation remembered never changes: every admission and every close names the one at the end. */
  lemma {:induction false} OneReservation(request: Request, trace: seq<Effect>, i: nat, r: Reservation)
    requires !Watch(request, trace).astray && i < |trace|
    ensures ClosesMeter(trace[i]) ==>
      !Watch(request, trace).meter.Unreserved? && trace[i].id == Watch(request, trace).meter.reservation.id
    ensures Admits(trace[i], r) ==> !Watch(request, trace).meter.Unreserved? && Watch(request, trace).meter.reservation == r
    decreases |trace|
  {
    var before, e := Unfold(request, trace);
    StepTo(request, Watch(request, before), e, r);
    hide Watch, Next, Allowed, ClosesMeter, Admits;
    assert trace[|before|] == e && forall j :: 0 <= j < |before| ==> trace[j] == before[j];
    if i < |before| {
      OneReservation(request, before, i, r);
    }
  }

  /** A call, and the release of a lock, is never forgotten. */
  lemma StepRemembers(request: Request, m: Monitor, e: Effect)
    requires Allowed(request, m, e)
    ensures m.called || e.CallTool? ==> Next(m, e).called
    ensures m.lock.Unlocked? || e.ReleaseLock? ==> Next(m, e).lock.Unlocked?
  {
  }

  lemma {:induction false} CallAndReleaseStay(request: Request, trace: seq<Effect>, i: nat)
    requires !Watch(request, trace).astray && i < |trace|
    ensures trace[i].CallTool? ==> Watch(request, trace).called
    ensures trace[i].ReleaseLock? ==> Watch(request, trace).lock.Unlocked?
    decreases |trace|
  {
    var before, e := Unfold(request, trace);
    StepRemembers(request, Watch(request, before), e);
    hide Watch, Next, Allowed;
    assert trace[|before|] == e && forall j :: 0 <= j < |before| ==> trace[j] == before[j];
    if i < |before| {
      CallAndReleaseStay(request, before, i);
    }
  }

  /** A trace not astray calls the tool at most once, and releases the lock at most once. */
  lemma OneCallOneRelease(request: Request, trace: seq<Effect>, i: nat, j: nat)
    requires !Watch(request, trace).astray && i < |trace| && j < |trace|
    requires (trace[i].CallTool? && trace[j].CallTool?) || (trace[i].ReleaseLock? && trace[j].ReleaseLock?)
    ensures i == j
  {
    if i != j {
      var first, second := if i < j then i else j, if i < j then j else i;
      UnflaggedEffectIsAllowed(request, trace, second);
      assert trace[..second][first] == trace[first];
      CallAndReleaseStay(request, trace[..second], first);
      hide Watch;
    }
  }

  /** The order of taking: a lock is asked for only by a call that holds the reservation it needs and has not called
      yet, and a snapshot is taken only under the lock of its site. */
  ghost predicate TakenInOrder(request: Request, before: seq<Effect>, e: Effect) {
    match e
    case AcquireLock(_, _, _) =>
      && request.verdict.Callable? && !request.dryRun
      && (request.verdict.contract.tool.scope.Some? ==> exists r :: ReservationHeldAt(before, r))
    case TakeSnapshot(site, _) => LockHeldAt(before, "site:" + site)
    case _ => true
  }

  lemma UnflaggedTakingsInOrder(request: Request, trace: seq<Effect>, i: nat)
    requires !Watch(request, trace).astray && i < |trace|
    ensures TakenInOrder(request, trace[..i], trace[i])
  {
    UnflaggedEffectIsAllowed(request, trace, i);
    hide Watch, ReservationHeldAt, LockHeldAt;
    var before := trace[..i];
    var m := Watch(request, before);
    if m.meter.Holding? { MonitorTracksReservation(request, before); }
    if m.lock.Locked? { MonitorTracksLock(request, before); }
  }

  lemma CloseStep(m: Monitor, e: Effect, request: Request)
    requires Allowed(request, m, e)
    ensures var n := Next(m, e);
      && (ClosesMeter(e) && !e.threw ==> n.meter.Attempted? && n.meter.closed.Some?)
      && (m.meter.Attempted? && m.meter.closed.Some? ==> n.meter == m.meter && !ClosesMeter(e))
      && (n.meter.Attempted? ==> m.meter.Attempted? || ClosesMeter(e))
      && (e.CallTool? ==> n.answer == e.result && !m.called) && (m.called && !e.CallTool? ==> n.answer == m.answer)
      && (m.called || e.CallTool? ==> n.called) && (m.called ==> !e.CallTool?)
  {
  }

  /** A close that got through is remembered, and so is the answer of the tool. */
  lemma {:induction false} CloseAndAnswerStay(request: Request, trace: seq<Effect>, i: nat)
    requires !Watch(request, trace).astray && i < |trace|
    ensures ClosesMeter(trace[i]) && !trace[i].threw ==>
      Watch(request, trace).meter.Attempted? && Watch(request, trace).meter.closed.Some?
    ensures trace[i].CallTool? ==> Watch(request, trace).called && Watch(request, trace).answer == trace[i].result
    decreases |trace|
  {
    var before, e := Unfold(request, trace);
    CloseStep(Watch(request, before), e, request);
    hide Watch, Next, Allowed, ClosesMeter;
    assert trace[|before|] == e && forall j :: 0 <= j < |before| ==> trace[j] == before[j];
    if i < |before| {
      CloseAndAnswerStay(request, before, i);
    }
  }

  lemma {:induction false} AttemptedWasClosed(request: Request, trace: seq<Effect>) returns (i: nat)
    requires !Watch(request, trace).astray && Watch(request, trace).meter.Attempted?
    ensures i < |trace| && ClosesMeter(trace[i])
    decreases |trace|
  {
    var before, e := Unfold(request, trace);
    CloseStep(Watch(request, before), e, request);
    hide Watch, Next, Allowed, ClosesMeter;
    assert trace[|before|] == e && forall j :: 0 <= j < |before| ==> trace[j] == before[j];
    if ClosesMeter(e) {
      i := |before|;
    } else {
      i := AttemptedWasClosed(request, before);
    }
  }

  /** Once a settle or release has got through no other follows; and a reservation is given back, unless a close of it
      has failed before, only when the tool has not answered or its site was never reached. */
  lemma ClosedOnceAndForAReason(request: Request, trace: seq<Effect>, i: nat, j: nat)
    requires !Watch(request, trace).astray && i < j < |trace|
    ensures ClosesMeter(trace[i]) && ClosesMeter(trace[j]) ==> trace[i].threw
    ensures trace[j].ReleaseMeter? && trace[i].CallTool? && trace[i].result.Some? ==>
      trace[i].result.value == CallFailed(Unreachable) || exists k :: 0 <= k < j && ClosesMeter(trace[k])
  {
    UnflaggedEffectIsAllowed(request, trace, j);
    var before := trace[..j];
    assert before[i] == trace[i];
    CloseAndAnswerStay(request, before, i);
    hide Watch;
    if Watch(request, before).meter.Attempted? {
      var k := AttemptedWasClosed(request, before);
      assert before[k] == trace[k];
    }
  }

  lemma SettleStep(m: Monitor, e: Effect, request: Request)
    requires Allowed(request, m, e)
    ensures var n := Next(m, e);
      && (e.SettleKey? ==> n.key.KeySettled? && (m.key.KeySettled? ==> n.key.times == 2 && m.auditThrew && !e.success))
      && (m.key.KeySettled? ==> n.key.KeySettled? && m.key.times <= n.key.times)
      && (n.auditThrew ==> m.auditThrew || (e.Audit? && e.threw))
      && (m.key.KeySettled? && m.key.times >= 2 ==> !e.SettleKey?)
  {
  }

  lemma {:induction false} SettlesStay(request: Request, trace: seq<Effect>, i: nat, j: nat)
    requires !Watch(request, trace).astray && i < |trace| && j < |trace| && trace[i].SettleKey? && trace[j].SettleKey?
    ensures Watch(request, trace).key.KeySettled? && (i != j ==> Watch(request, trace).key.times >= 2)
    decreases |trace|
  {
    var before, e := Unfold(request, trace);
    SettleStep(Watch(request, before), e, request);
    hide Watch, Next, Allowed;
    assert trace[|before|] == e && forall k :: 0 <= k < |before| ==> trace[k] == before[k];
    if i < |before| && j < |before| {
      SettlesStay(request, before, i, j);
    } else if i < |before| {
      SettlesStay(request, before, i, i);
    } else if j < |before| {
      SettlesStay(request, before, j, j);
    }
  }

  lemma {:induction false} AuditThrewInTrace(request: Request, trace: seq<Effect>) returns (i: nat)
    requires !Watch(request, trace).astray && Watch(request, trace).auditThrew
    ensures i < |trace| && trace[i].Audit? && trace[i].threw
    decreases |trace|
  {
    if trace != [] {
      var before, e := Unfold(request, trace);
      SettleStep(Watch(request, before), e, request);
      hide Watch, Next, Allowed;
      assert trace[|before|] == e && forall k :: 0 <= k < |before| ==> trace[k] == before[k];
      if e.Audit? && e.threw {
        i := |before|;
      } else {
        i := AuditThrewInTrace(request, before);
      }
    }
  }

  /** A claim is settled a second time only as failed and after an audit that threw, and never a third time. */
  lemma SettledAgainAfterThrow(request: Request, trace: seq<Effect>, i: nat, j: nat)
    requires !Watch(request, trace).astray && i < j < |trace| && trace[i].SettleKey? && trace[j].SettleKey?
    ensures !trace[j].success && exists a :: 0 <= a < j && trace[a].Audit? && trace[a].threw
    ensures forall k :: 0 <= k < j && trace[k].SettleKey? ==> k == i
  {
    UnflaggedEffectIsAllowed(request, trace, j);
    var before := trace[..j];
    SettleStep(Watch(request, before), trace[j], request);
    assert forall k :: 0 <= k < j ==> before[k] == trace[k];
    SettlesStay(request, before, i, i);
    hide Watch, Allowed;
    var a := AuditThrewInTrace(request, before);
    forall k | 0 <= k < j && trace[k].SettleKey? ensures k == i {
      SettlesStay(request, before, i, k);
    }
  }

  /** Some later effect closes what this one took, by its name. */
  ghost predicate ClosedLater(trace: seq<Effect>, i: nat)
    requires i < |trace|
  {
    match trace[i]
    case AcquireLock(lockKey, _, held) =>
      held == Some(true) ==> exists j :: i < j < |trace| && trace[j].ReleaseLock? && trace[j].lockKey == lockKey
    case Reserve(_, _, admission) =>
      admission.Some? && admission.value.Admitted? ==>
        exists j :: i < j < |trace| && ClosesMeter(trace[j]) && trace[j].id == admission.value.reservation.id
    case ClaimKey(key, _, claim) =>
      claim == Some(Claimed) ==> exists j :: i < j < |trace| && trace[j].SettleKey? && trace[j].key == key
    case _ => true
  }

  predicate NothingOpen(m: Monitor) {
    !m.astray && !m.key.KeyHeld? && !m.meter.Holding? && !m.lock.Locked?
  }

  /** A trace that ends with nothing open has closed everything it ever took. */
  lemma EverythingTakenIsClosed(request: Request, trace: seq<Effect>, i: nat)
    requires NothingOpen(Watch(request, trace)) && i < |trace|
    ensures ClosedLater(trace, i)
  {
    hide Watch, Allowed;
    NamesOnTaking(request, trace, i);
    match trace[i]
    case AcquireLock(_, _, held) =>
      if held == Some(true) {
        if forall j :: i < j < |trace| ==> !trace[j].ReleaseLock? { UnreleasedStaysLocked(request, trace, i); }
        var j :| i < j < |trace| && trace[j].ReleaseLock?;
        NamesOnTaking(request, trace, j);
      }
    case Reserve(_, _, admission) =>
      if admission.Some? && admission.value.Admitted? {
        var r := admission.value.reservation;
        assert Admits(trace[i], r);
        if forall j :: i < j < |trace| ==> !ClosesMeter(trace[j]) { UnsettledStaysHeld(request, trace, i, r); }
        var j :| i < j < |trace| && ClosesMeter(trace[j]);
        OneReservation(request, trace, i, r);
        OneReservation(request, trace, j, r);
      }
    case ClaimKey(_, _, claim) =>
      if claim == Some(Claimed) {
        if forall j :: i < j < |trace| ==> !trace[j].SettleKey? { UnsettledKeyStaysHeld(request, trace, i); }
        var j :| i < j < |trace| && trace[j].SettleKey?;
        NamesOnTaking(request, trace, j);
      }
    case _ =>
  }

  lemma NamesOnTaking(request: Request, trace: seq<Effect>, i: nat)
    requires !Watch(request, trace).astray && i < |trace|
    ensures trace[i].ClaimKey? || trace[i].SettleKey? ==> request.key == Some(trace[i].key)
    ensures trace[i].AcquireLock? || trace[i].ReleaseLock? ==> request.siteId.Some? && trace[i].lockKey == request.LockKey()
  {
    UnflaggedEffectIsAllowed(request, trace, i);
    hide Watch;
  }

  // ----------------------------------------------------------------- one execution ---

  /** How the guarded part of the pipeline ended. A refusal returns the promise of its denial without waiting
      for it, so the finally block runs before that denial is audited and the catch block never sees it fail. */
  datatype Completion = Returned(result: ExecuteResult) | Refused(code: ErrorCode) | Threw

  function KeyBefore(request: Request): KeyState {
    if request.key.Some? then KeyHeld else KeyFree
  }

  function KeyAfter(request: Request, success: bool): KeyState {
    if request.key.Some? then KeySettled(success, 1) else KeyFree
  }

  function MeterBefore(reservation: Option<Reservation>): MeterState {
    if reservation.Some? then Holding(reservation.value) else Unreserved
  }

  function LockBefore(lockHeld: bool): LockState {
    if lockHeld then Locked else NeverLocked
  }

  /** The account when everything taken so far is held and nothing else has happened. */
  function Prepared(request: Request, reservation: Option<Reservation>, lockHeld: bool, snapshot: Option<string>): Monitor {
    CALM.(key := KeyBefore(request), meter := MeterBefore(reservation), lock := LockBefore(lockHeld), snapshot := snapshot)
  }

  /** The denial is for a reason: what the request or a port's answer says. */
  predicate Reason(request: Request, script: Script, code: ErrorCode) {
    match code
    case GateDenied(denial) => request.verdict == Verdict.Denied(denial)
    case ForbiddenRole => request.verdict.Callable? && !request.roleAllows
    case NoSite => request.verdict.Callable? && request.verdict.contract.hasRoute && request.siteId.None?
    case InFlightConflict => request.key.Some? && script.claim == Some(InFlight)
    case KeyConflict => request.key.Some? && script.claim == Some(Conflict)
    case QuotaExceeded => request.NeedsReservation() && script.admission == Some(NotAdmitted(false))
    case RateLimited => request.NeedsReservation() && script.admission == Some(NotAdmitted(true))
    case SiteBusy => request.NeedsLock() && script.lock == Some(false)
    case SnapshotRequired => request.NeedsSnapshot() && script.snapshot == Some(None)
    case TransportFailed(kind) => script.call == Some(CallFailed(kind))
    case Internal => false
  }

  predicate IsRefusal(code: ErrorCode) {
    code.QuotaExceeded? || code.RateLimited? || code.SiteBusy? || code.SnapshotRequired?
  }

  /** Some port the request depends on throws. */
  ghost predicate PortThrows(request: Request, script: Script) {
    || (request.NeedsReservation() && script.admission.None?)
    || (request.NeedsLock() && script.lock.None?)
    || (request.NeedsSnapshot() && script.snapshot.None?)
    || script.call.None? || exists n: nat :: script.throws(n)
  }

  /** The account when the pipeline stopped before the call: refused with everything but the lock given back,
      or thrown with the reservation untouched. */
  ghost predicate StoppedEarly(
    request: Request, script: Script, m: Monitor, lockHeld: bool, reservation: Option<Reservation>, c: Completion)
  {
    && !m.astray && !m.called && m.answer.None? && m.audits == 0 && !m.auditThrew && m.lock == LockBefore(lockHeld)
    && !c.Returned?
    && (c.Refused? ==> reservation.None? && !m.meter.Holding? && m.key == KeyAfter(request, false)
                       && IsRefusal(c.code) && Reason(request, script, c.code))
    && (c.Threw? ==> m.meter == MeterBefore(reservation) && m.key == KeyBefore(request) && PortThrows(request, script))
  }

  /** The meter was told what the call cost, when there was a reservation. */
  predicate Metered(m: Monitor) {
    m.meter.Unreserved? || (m.meter.Attempted? && m.meter.closed == Some(Amount(m)))
  }

  /** The answer returned for a tool that answered: it, what it cost, and its key settled accordingly. */
  ghost predicate Reports(request: Request, script: Script, m: Monitor, result: ExecuteResult) {
    && m.called && m.answer == script.call && m.answer.Some? && m.audits == 1 && !m.auditThrew && Metered(m)
    && m.key == KeyAfter(request, m.answer.value.CallOk?)
    && result == match m.answer.value
         case CallOk(data) => Done(data, Amount(m), false)
         case CallFailed(kind) => Failure(TransportFailed(kind), Amount(m))
  }

  /** What the catch and finally blocks may rely on: the variables say exactly what is still to be unwound. */
  ghost predicate Unwindable(
    request: Request, script: Script, m: Monitor, lockHeld: bool, reservation: Option<Reservation>, settled: bool, c: Completion)
  {
    && !m.astray && m.lock == LockBefore(lockHeld) && (lockHeld ==> request.siteId.Some?)
    && match c
       case Returned(result) => Reports(request, script, m, result)
       case Refused(code) =>
         && !m.called && m.answer.None? && m.audits == 0 && !m.auditThrew && !m.meter.Holding?
         && m.key == KeyAfter(request, false) && IsRefusal(code) && Reason(request, script, code)
       case Threw =>
         && m.audits <= 1 && PortThrows(request, script)
         && (m.key == KeyBefore(request)
             || (m.key == KeyAfter(request, m.key.KeySettled? && m.key.success) && m.called && m.auditThrew))
         && (if reservation.Some? && !settled
             then m.meter == Attempted(reservation.value, None) || (m.meter == Holding(reservation.value) && m.answer.None?)
             else !m.meter.Holding?)
  }

  /** The release of the lock is the last effect, or only the audit of a refusal follows it. */
  ghost predicate EndsWithRelease(trace: seq<Effect>) {
    var n := |trace|;
    n > 0 && (trace[n - 1].ReleaseLock? || (n > 1 && trace[n - 1].Audit? && trace[n - 2].ReleaseLock?))
  }

  /** How the result accounts for what happened and why. An absent one means the promise was rejected: asking for the
      digest or the claim threw, or the audit of a denial did. */
  ghost predicate Accounts(request: Request, script: Script, m: Monitor, r: Option<ExecuteResult>) {
    if r.None? then
      !m.called && (request.digest.None? || (request.key.Some? && script.claim.None?) || exists n: nat :: script.throws(n))
    else match r.value
      case Done(data, actionsConsumed, replayed) =>
        if replayed then m == CALM && actionsConsumed == 0 && script.claim == Some(Replay(data))
        else Reports(request, script, m, r.value)
      case Failure(code, actionsConsumed) =>
        if code.TransportFailed? then Reports(request, script, m, r.value)
        else if code.Internal? then actionsConsumed == 0 && PortThrows(request, script)
        else actionsConsumed == 0 && !m.called && m.audits == 1 && !m.auditThrew && Reason(request, script, code)
  }

  /** The whole trace of a call the gate denied. An approval that is required is asked for, in the name of the request's
      own digest, before the denial is audited; if asking throws, nothing else happens. */
  predicate TurnedAway(request: Request, trace: seq<Effect>, r: Option<ExecuteResult>) {
    if request.digest.None? then trace == [] && r.None?
    else if !request.NeedsApproval() then trace == [Audit(0, r.None?)]
    else
      || (trace == [AskApproval(request.digest.value, true)] && r.None?)
      || trace == [AskApproval(request.digest.value, false), Audit(0, r.None?)]
  }

  /** The effect, the n-th of its trace, came out as the port was going to answer. */
  predicate AsScripted(script: Script, n: nat, e: Effect) {
    match e
    case ClaimKey(_, _, claim) => claim == script.claim
    case Reserve(_, _, admission) => admission == script.admission
    case AcquireLock(_, _, held) => held == script.lock
    case TakeSnapshot(_, snapshot) => snapshot == script.snapshot
    case CallTool(_, _, result) => result == script.call
    case SettleKey(_, _, _, threw) => threw == script.throws(n)
    case SettleMeter(_, _, threw) => threw == script.throws(n)
    case ReleaseMeter(_, threw) => threw == script.throws(n)
    case ReleaseLock(_, threw) => threw == script.throws(n)
    case Audit(_, threw) => threw == script.throws(n)
    case AskApproval(_, threw) => threw == script.throws(n)
  }

  class Execution {
    const request: Request
    const script: Script
    var trace: seq<Effect>
    var reservation: Option<Reservation>
    var lockHeld: bool
    var snapshotId: Option<string>
    var settled: bool

    constructor (request: Request, script: Script)
      ensures this.request == request && this.script == script && trace == []
      ensures reservation == None && !lockHeld && snapshotId == None && !settled
    {
      this.request := request;
      this.script := script;
      trace, reservation, lockHeld, snapshotId, settled := [], None, false, None, false;
    }

    ghost function Seen(): Monitor
      reads this`trace
    {
      Watch(request, trace)
    }

    /** What the meter remembers is what the script's admission gave. */
    ghost predicate AdmissionKept()
      reads this`trace
    {
      !Seen().meter.Unreserved? ==> script.admission == Some(Admitted(Seen().meter.reservation))
    }

    /** Every port answered as scripted. */
    ghost predicate FollowsScript()
      reads this`trace
    {
      forall i :: 0 <= i < |trace| ==> AsScripted(script, i, trace[i])
    }

    method Emit(e: Effect)
      requires AsScripted(script, |trace|, e)
      requires FollowsScript()
      modifies this`trace
      ensures FollowsScript()
      ensures trace == old(trace) + [e] && Seen() == Observe(request, old(Seen()), e)
    {
      WatchAppend(request, trace, e);
      trace := trace + [e];
    }

    /** Errors of the idempotency store are swallowed. */
    method SettleClaim(success: bool, data: Option<string>)
      requires FollowsScript()
      modifies this`trace
      ensures FollowsScript()
      ensures Seen() == if request.key.None? then old(Seen())
        else Observe(request, old(Seen()), SettleKey(request.key.value, success, data, false))
    {
      hide Allowed;
      if request.key.Some? {
        var threw := script.throws(|trace|);
        SettleKeyAlike(old(Seen()), request.key.value, success, data, threw);
        Emit(SettleKey(request.key.value, success, data, threw));
      }
    }

    lemma SettleKeyAlike(m: Monitor, key: string, success: bool, data: Option<string>, threw: bool)
      ensures Observe(request, m, SettleKey(key, success, data, threw))
           == Observe(request, m, SettleKey(key, success, data, false))
    {
    }

    /** Errors of a release are swallowed. */
    method Release() returns (ghost threw: bool)
      requires FollowsScript()
      modifies this`trace
      ensures FollowsScript()
      ensures Seen() == if reservation.None? then old(Seen())
        else Observe(request, old(Seen()), ReleaseMeter(reservation.value.id, threw))
    {
      threw := script.throws(|trace|);
      if reservation.Some? {
        Emit(ReleaseMeter(reservation.value.id, script.throws(|trace|)));
      }
    }

    method Record(actionsConsumed: int) returns (threw: bool)
      requires FollowsScript()
      modifies this`trace
      ensures FollowsScript()
      ensures trace == old(trace) + [Audit(actionsConsumed, threw)] && (threw ==> exists n: nat :: script.throws(n))
      ensures Seen() == Observe(request, old(Seen()), Audit(actionsConsumed, threw))
    {
      threw := script.throws(|trace|);
      Emit(Audit(actionsConsumed, threw));
    }

    method TakeReservation() returns (stop: Option<Completion>)
      requires request.Callable() && Seen() == Prepared(request, None, false, None) && reservation == None && !lockHeld
      requires FollowsScript()
      modifies this`trace, this`reservation
      ensures FollowsScript()
      ensures AdmissionKept()
      ensures stop.None? ==>
        Seen() == Prepared(request, reservation, false, None) && (reservation.Some? <==> request.NeedsReservation())
      ensures stop.Some? ==> reservation.None? && StoppedEarly(request, script, Seen(), false, None, stop.value)
    {
      hide Watch;
      if request.NeedsReservation() {
        Emit(Reserve(request.ReservationKey(), request.price, script.admission));
        if script.admission.None? {
          return Some(Threw);
        }
        if script.admission.value.NotAdmitted? {
          SettleClaim(false, None);
          return Some(Refused(if script.admission.value.rateLimited then RateLimited else QuotaExceeded));
        }
        reservation := Some(script.admission.value.reservation);
      }
      return None;
    }

    method TakeLock() returns (stop: Option<Completion>)
      requires request.Callable() && !lockHeld && (reservation.Some? <==> request.NeedsReservation())
      requires Seen() == Prepared(request, reservation, false, None) && AdmissionKept()
      requires FollowsScript()
      modifies this`trace, this`reservation, this`lockHeld
      ensures FollowsScript()
      ensures AdmissionKept()
      ensures stop.None? ==> reservation == old(reservation) && (lockHeld <==> request.NeedsLock())
      ensures stop.None? ==> Seen() == Prepared(request, reservation, lockHeld, None)
      ensures stop.Some? ==> !lockHeld && StoppedEarly(request, script, Seen(), false, reservation, stop.value)
    {
      hide Watch;
      if request.NeedsLock() {
        Emit(AcquireLock(request.LockKey(), request.verdict.contract.timeoutMs + LOCK_MARGIN_MS, script.lock));
        if script.lock.None? {
          return Some(Threw);
        }
        lockHeld := script.lock.value;
        if !lockHeld {
          ghost var threw := Release();
          reservation := None;
          SettleClaim(false, None);
          return Some(Refused(SiteBusy));
        }
      }
      return None;
    }

    method EnsureSnapshot() returns (stop: Option<Completion>)
      requires request.Callable() && snapshotId == None && (lockHeld <==> request.NeedsLock())
      requires Seen() == Prepared(request, reservation, lockHeld, None) && AdmissionKept()
      requires FollowsScript()
      modifies this`trace, this`reservation, this`snapshotId
      ensures FollowsScript()
      ensures AdmissionKept()
      ensures stop.None? ==> reservation == old(reservation) && (snapshotId.Some? <==> request.NeedsSnapshot())
      ensures stop.None? ==> Seen() == Prepared(request, reservation, lockHeld, snapshotId)
      ensures stop.Some? ==> StoppedEarly(request, script, Seen(), lockHeld, reservation, stop.value)
    {
      hide Watch;
      if request.NeedsSnapshot() {
        Emit(TakeSnapshot(request.siteId.value, script.snapshot));
        if script.snapshot.None? {
          return Some(Threw);
        }
        if script.snapshot.value.None? {
          SettleClaim(false, None);
          ghost var threw := Release();
          reservation := None;
          return Some(Refused(SnapshotRequired));
        }
        snapshotId := script.snapshot.value;
      }
      return None;
    }

    /** The guarded part: everything between the claim and the catch. */
    method Attempt() returns (c: Completion)
      requires request.Callable() && Seen() == Prepared(request, None, false, None)
      requires reservation == None && !lockHeld && snapshotId == None && !settled
      requires FollowsScript()
      modifies this
      ensures FollowsScript()
      ensures AdmissionKept() && Unwindable(request, script, Seen(), lockHeld, reservation, settled, c)
    {
      hide Watch, Reports;
      var stop := TakeReservation();
      if stop.Some? {
        return stop.value;
      }
      stop := TakeLock();
      if stop.Some? {
        return stop.value;
      }
      stop := EnsureSnapshot();
      if stop.Some? {
        return stop.value;
      }
      c := Call();
    }

    method Call() returns (c: Completion)
      requires request.Callable() && (reservation.Some? <==> request.NeedsReservation()) && !settled
      requires (lockHeld <==> request.NeedsLock()) && (snapshotId.Some? <==> request.NeedsSnapshot())
      requires Seen() == Prepared(request, reservation, lockHeld, snapshotId) && AdmissionKept()
      requires FollowsScript()
      modifies this`trace, this`settled
      ensures FollowsScript()
      ensures AdmissionKept() && Unwindable(request, script, Seen(), lockHeld, reservation, settled, c)
    {
      hide Watch, Reports;
      var site := if request.siteId.Some? then request.siteId.value else "";
      Emit(CallTool(site, PassedOn(snapshotId), script.call));
      if script.call.None? {
        return Threw;
      }
      c := Conclude(script.call.value);
    }

    /** The two ways a tool call that answered is metered, claimed and audited. */
    method Conclude(result: TransportResult) returns (c: Completion)
      requires request.Callable() && script.call == Some(result) && !settled && (lockHeld ==> request.siteId.Some?)
      requires Seen() == Prepared(request, reservation, lockHeld, snapshotId).(called := true, answer := Some(result))
      requires AdmissionKept()
      requires FollowsScript()
      modifies this`trace, this`settled
      ensures FollowsScript()
      ensures AdmissionKept() && Unwindable(request, script, Seen(), lockHeld, reservation, settled, c)
    {
      hide Watch;
      var threw := CloseMeter(result);
      if threw {
        return Threw;
      }
      settled := true;
      SettleClaim(result.CallOk?, if result.CallOk? then result.data else None);
      threw := Record(Price(result));
      if threw {
        return Threw;
      }
      match result
      case CallOk(data) => return Returned(Done(data, Price(result), false));
      case CallFailed(kind) => return Returned(Failure(TransportFailed(kind), Price(result)));
    }

    method CloseMeter(result: TransportResult) returns (threw: bool)
      requires Seen() == Prepared(request, reservation, lockHeld, snapshotId).(called := true, answer := Some(result))
      requires FollowsScript()
      modifies this`trace
      ensures FollowsScript()
      ensures Price(result) == Amount(Seen()) == Amount(old(Seen()))
      ensures threw ==> reservation.Some? && PortThrows(request, script)
      ensures Seen() == old(Seen()).(meter := if reservation.None? then Unreserved
                                              else Attempted(reservation.value, if threw then None else Some(Price(result))))
    {
      hide Watch;
      threw := false;
      if reservation.Some? {
        threw := script.throws(|trace|);
        if result.CallOk? || Price(result) > 0 {
          Emit(SettleMeter(reservation.value.id, Price(result), threw));
        } else {
          Emit(ReleaseMeter(reservation.value.id, threw));
        }
      }
    }

    /** What a call that answered is charged: its reservation, the failed-call weight, or nothing when the site
        was never reached. */
    function Price(result: TransportResult): int
      reads this`reservation
    {
      match result
      case CallOk(_) => if reservation.Some? then reservation.value.cost else 0
      case CallFailed(kind) => if kind.Unreachable? then 0 else FAILED_CALL_WEIGHT
    }

    /** The whole pipeline, for every behaviour of the ports. */
    method Execute() returns (r: Option<ExecuteResult>)
      requires trace == [] && reservation == None && !lockHeld && snapshotId == None && !settled
      modifies this
      // The ports are asked and nothing is made up: what the trace says each answered is what it answered.
      ensures FollowsScript()
      // No effect is out of place or names anything but what was taken, and nothing taken is left open.
      ensures NothingOpen(Seen())
      // A lock is released at the end: nothing but a refusal's audit comes after.
      ensures Seen().lock.Unlocked? ==> EndsWithRelease(trace)
      // A claimed key is settled once, or twice after a call whose audit threw.
      ensures Seen().key.KeySettled? ==> Seen().key.times == 1 || (Seen().key.times == 2 && Seen().called && Seen().auditThrew)
      // The reservation settled or released is the one the meter admitted.
      ensures AdmissionKept()
      // The result is the tool's answer with what it was charged, or accounts for why there is none.
      ensures Accounts(request, script, Seen(), r) && Seen().audits <= 1
      // A call the gate denies does nothing but ask for the approval it needs and audit the denial.
      ensures request.verdict.Denied? ==> TurnedAway(request, trace, r)
    {
      hide Watch, Reports;
      assert Seen() == CALM by { EmptyTraceIsCalm(); }
      var proceed: bool;
      proceed, r := Screen();
      if !proceed {
        return;
      }
      if request.digest.None? {
        return None;
      }
      proceed, r := Claim();
      if !proceed {
        return;
      }
      r := Run();
    }

    /** Authorisation, role and site: a request turned away here has touched nothing. */
    method Screen() returns (proceed: bool, r: Option<ExecuteResult>)
      requires Seen() == CALM
      requires FollowsScript()
      modifies this`trace
      ensures FollowsScript()
      ensures proceed <==>
        request.verdict.Callable? && request.roleAllows && (request.verdict.contract.hasRoute ==> request.siteId.Some?)
      ensures if proceed then trace == old(trace)
        else Seen() == CALM.(approval := Seen().approval, audits := Seen().audits, auditThrew := Seen().auditThrew)
      ensures request.verdict.Denied? ==>
        TurnedAway(request, trace[|old(trace)|..], r) && trace == old(trace) + trace[|old(trace)|..]
      ensures !proceed ==> Seen().audits <= 1 && Accounts(request, script, Seen(), r)
      ensures !proceed && r.Some? ==> r.value.Failure? && r.value.actionsConsumed == 0
    {
      hide Watch;
      if request.verdict.Denied? {
        if request.verdict.code.ApprovalRequired? {
          r := RequestApproval();
        } else {
          r := Deny(GateDenied(request.verdict.code));
        }
        return false, r;
      }
      if !request.roleAllows {
        r := Deny(ForbiddenRole);
        return false, r;
      }
      if request.verdict.contract.hasRoute && request.siteId.None? {
        r := Deny(NoSite);
        return false, r;
      }
      return true, None;
    }

    /** The idempotency claim: only a caller told that it holds the key goes on. */
    method Claim() returns (proceed: bool, r: Option<ExecuteResult>)
      requires Seen() == CALM && request.Callable()
      requires FollowsScript()
      modifies this`trace
      ensures FollowsScript()
      ensures proceed <==> request.key.None? || script.claim == Some(Claimed)
      ensures if proceed then Seen() == Prepared(request, None, false, None)
        else Seen() == CALM.(audits := Seen().audits, auditThrew := Seen().auditThrew)
      ensures !proceed ==> Seen().audits <= 1 && Accounts(request, script, Seen(), r)
    {
      hide Watch, Reports;
      if request.key.Some? {
        Emit(ClaimKey(request.key.value, request.digest.value, script.claim));
        if script.claim.None? {
          return false, None;
        }
        match script.claim.value {
          case Replay(result) => return false, Some(Done(result, 0, true));
          case InFlight => r := Deny(InFlightConflict); return false, r;
          case Conflict => r := Deny(KeyConflict); return false, r;
          case Claimed =>
        }
      }
      return true, None;
    }

    /** What an authorised call does once its key, if it has one, is claimed. */
    method Run() returns (r: Option<ExecuteResult>)
      requires request.Callable() && Seen() == Prepared(request, None, false, None)
      requires reservation == None && !lockHeld && snapshotId == None && !settled
      requires FollowsScript()
      modifies this
      ensures FollowsScript()
      ensures NothingOpen(Seen()) && AdmissionKept() && Seen().audits <= 1
      ensures Seen().lock.Unlocked? ==> EndsWithRelease(trace)
      ensures Seen().key.KeySettled? ==> Seen().key.times == 1 || (Seen().key.times == 2 && Seen().called && Seen().auditThrew)
      ensures Accounts(request, script, Seen(), r)
    {
      hide Watch, Observe;
      var completion := Attempt();
      r := Unwind(completion);
    }

    /** The catch block, when the guarded part threw: the reservation is released if it was not settled, and the
        claim settled as failed, again if need be. */
    method Catch()
      requires Unwindable(request, script, Seen(), lockHeld, reservation, settled, Threw)
      requires FollowsScript()
      modifies this`trace
      ensures FollowsScript()
      ensures !Seen().astray && !Seen().meter.Holding? && Seen().lock == LockBefore(lockHeld)
      ensures Seen().audits == old(Seen()).audits && Seen().called == old(Seen()).called
      ensures Seen().meter.Unreserved? == old(Seen()).meter.Unreserved?
      ensures !Seen().meter.Unreserved? ==> Seen().meter.reservation == old(Seen()).meter.reservation
      ensures if request.key.None? then Seen().key.KeyFree?
        else Seen().key.KeySettled? && (Seen().key.times == 1 || (Seen().key.times == 2 && Seen().called && Seen().auditThrew))
    {
      hide Watch;
      if reservation.Some? && !settled {
        ghost var threw := Release();
      }
      SettleClaim(false, None);
    }

    /** The finally block. */
    method Finally()
      requires lockHeld ==> request.siteId.Some?
      requires FollowsScript()
      modifies this`trace
      ensures FollowsScript()
      ensures Seen() == if !lockHeld then old(Seen())
        else old(Seen()).(lock := Unlocked, astray := old(Seen()).astray || !old(Seen()).lock.Locked?)
      ensures lockHeld ==> trace != [] && trace[|trace| - 1].ReleaseLock?
    {
      hide Watch;
      if lockHeld {
        Emit(ReleaseLock(request.LockKey(), script.throws(|trace|)));
      }
    }

    method Unwind(c: Completion) returns (r: Option<ExecuteResult>)
      requires Unwindable(request, script, Seen(), lockHeld, reservation, settled, c) && AdmissionKept() && request.Callable()
      requires FollowsScript()
      modifies this`trace
      ensures FollowsScript()
      ensures NothingOpen(Seen()) && AdmissionKept() && Seen().audits <= 1
      ensures Seen().lock.Unlocked? ==> EndsWithRelease(trace)
      ensures Seen().key.KeySettled? ==> Seen().key.times == 1 || (Seen().key.times == 2 && Seen().called && Seen().auditThrew)
      ensures match c
        case Returned(result) => r == Some(result) && Reports(request, script, Seen(), result)
        case Refused(code) =>
          && IsRefusal(code) && Reason(request, script, code) && !Seen().called && Seen().audits == 1
          && (if Seen().auditThrew then r.None? && exists n: nat :: script.throws(n) else r == Some(Failure(code, 0)))
        case Threw => r == Some(Failure(Internal, 0)) && PortThrows(request, script)
    {
      hide Watch, Allowed;
      if c.Threw? {
        Catch();
      }
      Finally();
      match c
      case Returned(result) => return Some(result);
      case Refused(code) => r := Deny(code);
      case Threw => return Some(Failure(Internal, 0));
    }

    lemma EmptyTraceIsCalm()
      ensures Watch(request, []) == CALM
    {
    }

    /** A denial asks for the digest and is audited at no cost. */
    method Deny(code: ErrorCode) returns (r: Option<ExecuteResult>)
      requires Seen().audits == 0 && Seen().answer.None? && !request.NeedsApproval()
      requires FollowsScript()
      modifies this`trace
      ensures FollowsScript()
      ensures if request.digest.None? then r.None? && trace == old(trace)
        else trace == old(trace) + [Audit(0, r.None?)]
             && Seen() == old(Seen()).(audits := 1, auditThrew := old(Seen()).auditThrew || r.None?)
      ensures r.Some? ==> r.value == Failure(code, 0)
      ensures r.None? ==> request.digest.None? || exists n: nat :: script.throws(n)
    {
      hide Watch;
      if request.digest.None? {
        return None;
      }
      var threw := Record(0);
      return if threw then None else Some(Failure(code, 0));
    }

    method RequestApproval() returns (r: Option<ExecuteResult>)
      requires Seen() == CALM && request.verdict == Verdict.Denied(ApprovalRequired)
      requires FollowsScript()
      modifies this`trace
      ensures FollowsScript()
      ensures TurnedAway(request, trace[|old(trace)|..], r) && trace == old(trace) + trace[|old(trace)|..]
      ensures Seen() == CALM.(approval := Seen().approval, audits := Seen().audits, auditThrew := Seen().auditThrew)
      ensures Seen().audits <= 1
      ensures r.None? ==> request.digest.None? || exists n: nat :: script.throws(n)
      ensures r.Some? ==> r.value == Failure(GateDenied(ApprovalRequired), 0) && Seen().audits == 1 && !Seen().auditThrew
    {
      hide Watch;
      if request.digest.None? {
        return None;
      }
      var threw := script.throws(|trace|);
      Emit(AskApproval(request.digest.value, threw));
      if threw {
        return None;
      }
      threw := Record(0);
      return if threw then None else Some(Failure(GateDenied(ApprovalRequired), 0));
    }
  }
}
