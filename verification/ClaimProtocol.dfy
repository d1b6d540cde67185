/** Any number of callers claiming, settling and sweeping at once, one atomic step per SQL statement.
    Each caller reads the clock once, so the time its statements use may be long past. */
module ClaimProtocol {
  import opened Idempotency
  import opened Options
  import opened Ticks

  /** The next thing a caller does. */
  datatype Phase = Expiring | Inserting | Reading(won: bool) | Reopening | Answered(outcome: ClaimOutcome) | Crashed

  /** A caller is live from the write that makes its row pending until it settles or crashes; `expiry` is
      the expiry that write stored. */
  datatype Caller = Caller(claim: Claim, now: int, phase: Phase, live: bool, expiry: int)

  datatype System = System(clock: int, rows: Table, callers: map<nat, Caller>)

  datatype Event =
    | Tick(to: int)
    | Begin(id: nat, claim: Claim)
    | Run(id: nat)
    | SettleBy(id: nat, ok: bool, result: Option<string>)
    | Crash(id: nat)
    | SweepRow(key: string, now: int)
    | SweepUpdate(key: string, now: int)

  function Statement(s: System, id: nat): System
    requires id in s.callers
  {
    var c := s.callers[id];
    var key := c.claim.key;
    match c.phase
    case Expiring =>
      s.(rows := ExpireStale(s.rows, key, c.now), callers := s.callers[id := c.(phase := Inserting)])
    case Inserting =>
      var won := Takes(s.rows, key);
      s.(rows := Take(s.rows, c.claim, c.now),
         callers := s.callers[id := c.(phase := Reading(won), live := won, expiry := c.now + CLAIM_TTL_MS)])
    case Reading(won) =>
      var decision := Decide(s.rows, c.claim, won);
      s.(callers := s.callers[id := c.(phase := if decision.Some? then Answered(decision.value) else Reopening)])
    case Reopening =>
      var reopened := Reopens(s.rows, key);
      s.(rows := Reopen(s.rows, key, c.now),
         callers := s.callers[id := c.(phase := Answered(if reopened then Claimed else InFlight),
                                       live := reopened, expiry := c.now + CLAIM_TTL_MS)])
    case Answered(_) => s
    case Crashed => s
  }

  /** An event that is not enabled changes nothing. */
  function Apply(s: System, e: Event): System {
    match e
    case Tick(to) => if to > s.clock then s.(clock := to) else s
    case Begin(id, claim) =>
      if id in s.callers then s
      else s.(callers := s.callers[id := Caller(claim, s.clock, Expiring, false, s.clock)])
    case Run(id) => if id in s.callers then Statement(s, id) else s
    case SettleBy(id, ok, result) =>
      if id in s.callers && s.callers[id].phase == Answered(Claimed) then
        s.(rows := Settle(s.rows, s.callers[id].claim.key, ok, result, s.clock),
           callers := s.callers[id := s.callers[id].(live := false)])
      else s
    case Crash(id) =>
      if id in s.callers then s.(callers := s.callers[id := s.callers[id].(phase := Crashed, live := false)]) else s
    case SweepRow(key, now) =>
      if now <= s.clock && Stale(s.rows, key, now) then s.(rows := ExpireSelected(s.rows, key, now)) else s
    case SweepUpdate(key, now) => s.(rows := ExpireSelected(s.rows, key, now))
  }

  function After(s: System, events: seq<Event>): System {
    if events == [] then s else Apply(After(s, events[..|events| - 1]), events[|events| - 1])
  }

  // ------------------------------------------------------------------ exclusion ---

  predicate Live(s: System, id: nat) {
    id in s.callers && s.callers[id].live
  }

  /** Every live caller is still within the expiry of its claim. */
  ghost predicate WithinExpiry(s: System) {
    forall id :: Live(s, id) ==> s.clock < s.callers[id].expiry
  }

  /** The sweep's select and update are one step, and a caller that is not live never settles a pending
      row: in particular no second settle lands on somebody else's claim. */
  ghost predicate Disciplined(s: System, e: Event) {
    && !e.SweepUpdate?
    && (e.SettleBy? && e.id in s.callers && !s.callers[e.id].live ==>
          var key := s.callers[e.id].claim.key; key in s.rows ==> !s.rows[key].state.Pending?)
  }

  /** A live caller owns a pending row that carries its expiry, is alone on its key, and is being told so. */
  ghost predicate Owns(s: System, id: nat) {
    var c := s.callers;
    && id in c && c[id].claim.key in s.rows
    && s.rows[c[id].claim.key].state.Pending?
    && s.rows[c[id].claim.key].expiresAt == c[id].expiry
    && (c[id].phase == Answered(Claimed)
        || (c[id].phase == Reading(true) && s.rows[c[id].claim.key].requestHash == c[id].claim.requestHash))
  }

  ghost predicate Alone(s: System, id: nat, other: nat) {
    Live(s, id) && Live(s, other) && s.callers[id].claim.key == s.callers[other].claim.key ==> id == other
  }

  ghost predicate ExclusionInvariant(s: System) {
    && (forall id :: id in s.callers ==> s.callers[id].now <= s.clock)
    && (forall id :: Live(s, id) ==> Owns(s, id))
    && (forall id, other :: Alone(s, id, other))
  }

  lemma StatementKeepsExclusion(s: System, id: nat)
    requires ExclusionInvariant(s) && WithinExpiry(s) && id in s.callers
    ensures ExclusionInvariant(Statement(s, id))
  {
    var t, c := Statement(s, id), s.callers[id];
    forall other | Live(t, other) ensures Owns(t, other) {
      if other != id {
        assert Live(s, other) && Owns(s, other);
      } else if c.phase.Reading? {
        assert Live(s, id) && Owns(s, id);
      } else if c.phase.Answered? || c.phase.Crashed? || c.phase.Expiring? {
        assert Live(s, id) && Owns(s, id);
      }
    }
    forall a, b ensures Alone(t, a, b) {
      assert Alone(s, a, b);
      if Live(s, a) { assert Owns(s, a); }
      if Live(s, b) { assert Owns(s, b); }
    }
  }

  lemma EventKeepsExclusion(s: System, e: Event)
    requires ExclusionInvariant(s) && WithinExpiry(s) && Disciplined(s, e)
    ensures ExclusionInvariant(Apply(s, e))
  {
    var t := Apply(s, e);
    if e.Run? && e.id in s.callers {
      StatementKeepsExclusion(s, e.id);
    } else {
      forall id | Live(t, id) ensures Owns(t, id) {
        assert Live(s, id) && Owns(s, id);
        if e.SettleBy? && Live(s, e.id) {
          assert Owns(s, e.id) && Alone(s, id, e.id);
        }
      }
      forall a, b ensures Alone(t, a, b) {
        assert Alone(s, a, b);
      }
    }
  }

  const NOBODY := System(0, map[], map[])

  /** Every event is disciplined, and comes while every live caller is within its expiry. */
  ghost predicate ExclusiveRun(s: System, events: seq<Event>) {
    forall i :: 0 <= i < |events| ==> var t := After(s, events[..i]); WithinExpiry(t) && Disciplined(t, events[i])
  }

  lemma {:induction false} RunKeepsExclusion(s: System, events: seq<Event>, n: nat)
    requires ExclusionInvariant(s) && ExclusiveRun(s, events) && n <= |events|
    ensures ExclusionInvariant(After(s, events[..n]))
  {
    hide ExclusionInvariant, Apply, WithinExpiry, Disciplined;
    if n == 0 {
      assert After(s, events[..0]) == s;
    } else {
      RunKeepsExclusion(s, events, n - 1);
      assert events[..n][..n - 1] == events[..n - 1];
      EventKeepsExclusion(After(s, events[..n - 1]), events[n - 1]);
    }
  }

  /** From any table and for any interleaving of any number of callers: at no point are two callers live on
      one key, and a live caller that has been answered was told it holds the claim. */
  lemma AtMostOneLiveClaimant(rows: Table, events: seq<Event>, a: nat, b: nat)
    requires ExclusiveRun(NOBODY.(rows := rows), events)
    ensures var s := After(NOBODY.(rows := rows), events);
      && (Live(s, a) && Live(s, b) && s.callers[a].claim.key == s.callers[b].claim.key ==> a == b)
      && (Live(s, a) && s.callers[a].phase.Answered? ==> s.callers[a].phase.outcome == Claimed)
  {
    hide Apply, After;
    assert events[..|events|] == events;
    RunKeepsExclusion(NOBODY.(rows := rows), events, |events|);
    var s := After(NOBODY.(rows := rows), events);
    assert Alone(s, a, b);
    if Live(s, a) { assert Owns(s, a); }
  }

  // ----------------------------------------------------------- settled is settled ---

  predicate HasSucceeded(s: System, key: string) {
    key in s.rows && s.rows[key].state.Succeeded?
  }

  /** No statement of any caller, and no sweep, changes a row that has succeeded. */
  lemma EventKeepsSuccess(s: System, e: Event, key: string)
    requires HasSucceeded(s, key)
    ensures HasSucceeded(Apply(s, e), key) && Apply(s, e).rows[key] == s.rows[key]
  {
  }

  lemma {:induction false} SuccessIsFinal(s: System, events: seq<Event>, key: string)
    requires HasSucceeded(s, key)
    ensures HasSucceeded(After(s, events), key) && After(s, events).rows[key] == s.rows[key]
  {
    if events != [] {
      var before := events[..|events| - 1];
      SuccessIsFinal(s, before, key);
      EventKeepsSuccess(After(s, before), events[|events| - 1], key);
    }
  }

  /** Under any interleaving whatever, without assumptions on time or on who settles: every claim that
      reads a row after it succeeded is answered by the stored result, or by a conflict when its request
      is a different one. */
  lemma LaterReadIsReplayOrConflict(s: System, events: seq<Event>, key: string, id: nat)
    requires HasSucceeded(s, key)
    requires var t := After(s, events); id in t.callers && t.callers[id].phase.Reading? && t.callers[id].claim.key == key
    ensures var row := s.rows[key]; var t := Apply(After(s, events), Run(id));
      t.callers[id].phase == Answered(
        if t.callers[id].claim.requestHash == row.requestHash then Replay(row.resultJson) else Conflict)
  {
    SuccessIsFinal(s, events, key);
  }

  // ------------------------------------------------------- an uninterrupted caller ---

  /** A caller runs all its statements with nothing in between; once answered it has nothing left to run. */
  function ClaimBy(id: nat, claim: Claim): seq<Event> {
    [Begin(id, claim), Run(id), Run(id), Run(id), Run(id)]
  }

  function Holder(claim: Claim, now: int): Caller {
    Caller(claim, now, Answered(Claimed), true, now + CLAIM_TTL_MS)
  }

  lemma {:induction false} AfterAppend(s: System, a: seq<Event>, b: seq<Event>)
    ensures After(s, a + b) == After(After(s, a), b)
  {
    if b == [] {
      assert a + b == a;
    } else {
      var front := b[..|b| - 1];
      AfterAppend(s, a, front);
      assert (a + b)[..|a + b| - 1] == a + front;
    }
  }

  lemma AfterThen(s: System, events: seq<Event>, e: Event)
    ensures After(s, events + [e]) == Apply(After(s, events), e)
  {
    hide Apply;
    assert (events + [e])[..|events|] == events;
  }

  lemma AfterPrefix(s: System, events: seq<Event>, n: nat)
    requires n < |events|
    ensures After(s, events[..n + 1]) == Apply(After(s, events[..n]), events[n])
  {
    hide Apply;
    assert events[..n + 1][..n] == events[..n];
  }

  lemma AfterFive(s: System, e: seq<Event>)
    requires |e| == 5
    ensures After(s, e) == Apply(Apply(Apply(Apply(Apply(s, e[0]), e[1]), e[2]), e[3]), e[4])
  {
    assert After(s, e[..0]) == s;
    hide Apply, After;
    AfterPrefix(s, e, 0);
    AfterPrefix(s, e, 1);
    AfterPrefix(s, e, 2);
    AfterPrefix(s, e, 3);
    AfterPrefix(s, e, 4);
    assert e[..5] == e;
  }

  /** The key is there for the taking: free, expired, stale, or failed under the same request. */
  predicate Claimable(s: System, claim: Claim) {
    claim.key in s.rows ==>
      var row := s.rows[claim.key];
      row.state.Expired? || Stale(s.rows, claim.key, s.clock) || (row.state.Failed? && row.requestHash == claim.requestHash)
  }

  lemma BeginAndExpire(s: System, id: nat, claim: Claim)
    requires id !in s.callers && Claimable(s, claim)
    ensures var t := Apply(Apply(s, Begin(id, claim)), Run(id));
      && t.clock == s.clock && t.callers == s.callers[id := Caller(claim, s.clock, Inserting, false, s.clock)]
      && (claim.key !in t.rows || t.rows[claim.key].state.Expired?
          || (t.rows[claim.key].state.Failed? && t.rows[claim.key].requestHash == claim.requestHash))
  {
  }

  lemma InsertAndRead(s: System, id: nat, claim: Claim)
    requires id in s.callers && s.callers[id] == Caller(claim, s.clock, Inserting, false, s.clock)
    requires claim.key !in s.rows || s.rows[claim.key].state.Expired?
             || (s.rows[claim.key].state.Failed? && s.rows[claim.key].requestHash == claim.requestHash)
    ensures var t := Apply(Apply(Apply(s, Run(id)), Run(id)), Run(id));
      && t.clock == s.clock && t.callers == s.callers[id := Holder(claim, s.clock)]
      && claim.key in t.rows && t.rows[claim.key].state.Pending? && t.rows[claim.key].requestHash == claim.requestHash
      && t.rows[claim.key].expiresAt == s.clock + CLAIM_TTL_MS
  {
  }

  /** On such a key an uninterrupted claim makes its caller live. */
  lemma ClaimByTakes(s: System, id: nat, claim: Claim)
    requires id !in s.callers && Claimable(s, claim)
    ensures var t := After(s, ClaimBy(id, claim));
      && t.clock == s.clock && t.callers == s.callers[id := Holder(claim, s.clock)]
      && claim.key in t.rows && t.rows[claim.key].state.Pending? && t.rows[claim.key].requestHash == claim.requestHash
      && t.rows[claim.key].expiresAt == s.clock + CLAIM_TTL_MS
  {
    AfterFive(s, ClaimBy(id, claim));
    BeginAndExpire(s, id, claim);
    hide Apply, After;
    InsertAndRead(Apply(Apply(s, Begin(id, claim)), Run(id)), id, claim);
  }

  predicate StepOf(e: Event, id: nat, claim: Claim) {
    e == Begin(id, claim) || e == Run(id)
  }

  /** A caller that read the clock at this instant and, if it is live, claimed then. */
  ghost predicate ClaimedNow(c: Caller, clock: int) {
    c.now == clock && (c.live ==> c.expiry == clock + CLAIM_TTL_MS)
  }

  /** The steps of a new caller move no clock, and its own claim is fresh. */
  lemma {:induction false} NewCallerIsWithinExpiry(s: System, events: seq<Event>, id: nat, claim: Claim)
    requires id !in s.callers && WithinExpiry(s) && forall i :: 0 <= i < |events| ==> StepOf(events[i], id, claim)
    ensures var t := After(s, events);
      && t.clock == s.clock && WithinExpiry(t)
      && (id in t.callers ==> ClaimedNow(t.callers[id], s.clock))
    decreases |events|
  {
    if events != [] {
      var front, e := events[..|events| - 1], events[|events| - 1];
      NewCallerIsWithinExpiry(s, front, id, claim);
      NewCallerStep(After(s, front), e, id, claim);
    }
  }

  lemma NewCallerStep(s: System, e: Event, id: nat, claim: Claim)
    requires StepOf(e, id, claim) && WithinExpiry(s)
    requires id in s.callers ==> ClaimedNow(s.callers[id], s.clock)
    ensures var t := Apply(s, e);
      && t.clock == s.clock && WithinExpiry(t)
      && (id in t.callers ==> ClaimedNow(t.callers[id], s.clock))
  {
    var t := Apply(s, e);
    assert forall other :: other != id && Live(t, other) ==> Live(s, other) && t.callers[other] == s.callers[other];
  }

  lemma ClaimByIsExclusiveRun(s: System, id: nat, claim: Claim)
    requires id !in s.callers && WithinExpiry(s)
    ensures ExclusiveRun(s, ClaimBy(id, claim)) && WithinExpiry(After(s, ClaimBy(id, claim)))
  {
    hide After, WithinExpiry;
    var events := ClaimBy(id, claim);
    forall i | 0 <= i < |events| ensures WithinExpiry(After(s, events[..i])) && Disciplined(After(s, events[..i]), events[i]) {
      NewCallerIsWithinExpiry(s, events[..i], id, claim);
    }
    NewCallerIsWithinExpiry(s, events, id, claim);
  }

  lemma {:induction false} Beyond(s: set<nat>) returns (n: nat)
    ensures forall x :: x in s ==> x < n
  {
    if s == {} {
      n := 0;
    } else {
      var x := SomeMember(s);
      var m := Beyond(s - {x});
      n := if x < m then m else x + 1;
      assert forall y :: y in s ==> y == x || y in s - {x};
    }
  }

  // --------------------------------------------- the writes that prove no ownership ---

  ghost predicate OneLiveOn(s: System, key: string) {
    forall a, b :: Live(s, a) && Live(s, b) && s.callers[a].claim.key == key && s.callers[b].claim.key == key ==> a == b
  }

  ghost predicate SomeLiveOn(s: System, key: string) {
    exists id :: Live(s, id) && s.callers[id].claim.key == key
  }

  /** However the run goes on, disciplined and within expiry, two callers are never live on the key. */
  ghost predicate StaysExclusive(s: System, key: string) {
    forall events :: ExclusiveRun(s, events) ==> OneLiveOn(After(s, events), key)
  }

  /** A settle by a caller that is not live, or the update half of a sweep. */
  ghost predicate Unfenced(s: System, e: Event) {
    match e
    case SettleBy(id, _, _) => id in s.callers && s.callers[id].phase == Answered(Claimed) && !s.callers[id].live
    case SweepUpdate(_, _) => true
    case _ => false
  }

  /** The key such a write names. */
  function KeyWritten(s: System, e: Event): string {
    match e
    case SettleBy(id, _, _) => if id in s.callers then s.callers[id].claim.key else ""
    case SweepUpdate(key, _) => key
    case _ => ""
  }

  lemma UnfencedKeepsCallers(s: System, e: Event)
    requires Unfenced(s, e)
    ensures var t := Apply(s, e); t.clock == s.clock && t.callers == s.callers
    ensures var t := Apply(s, e); forall key :: key != KeyWritten(s, e) ==>
              (key in t.rows <==> key in s.rows) && (key in s.rows ==> t.rows[key] == s.rows[key])
  {
  }

  /** Nobody's claim is touched when nobody is live on the key. */
  lemma HarmlessWriteKeepsInvariant(s: System, e: Event)
    requires ExclusionInvariant(s) && Unfenced(s, e) && !SomeLiveOn(s, KeyWritten(s, e))
    ensures ExclusionInvariant(Apply(s, e))
  {
    UnfencedKeepsCallers(s, e);
    var t := Apply(s, e);
    forall id | Live(t, id) ensures Owns(t, id) {
      assert Live(s, id) && Owns(s, id);
    }
    forall a, b ensures Alone(t, a, b) {
      assert Alone(s, a, b);
    }
  }

  lemma InvariantStaysExclusive(s: System, key: string)
    requires ExclusionInvariant(s)
    ensures StaysExclusive(s, key)
  {
    hide Apply, After;
    forall events | ExclusiveRun(s, events) ensures OneLiveOn(After(s, events), key) {
      RunKeepsExclusion(s, events, |events|);
      assert events[..|events|] == events;
      var t := After(s, events);
      forall a, b | Live(t, a) && Live(t, b) && t.callers[a].claim.key == key && t.callers[b].claim.key == key ensures a == b {
        assert Alone(t, a, b);
      }
    }
  }

  lemma EventKeepsOneLiveOnSucceeded(s: System, e: Event, key: string)
    requires HasSucceeded(s, key) && OneLiveOn(s, key)
    ensures HasSucceeded(Apply(s, e), key) && OneLiveOn(Apply(s, e), key)
  {
    EventKeepsSuccess(s, e, key);
    var t := Apply(s, e);
    forall id | Live(t, id) && t.callers[id].claim.key == key ensures Live(s, id) && s.callers[id].claim.key == key {
      NobodyBecomesLiveOnSucceeded(s, e, key, id);
    }
    hide Apply, Live;
  }

  lemma NobodyBecomesLiveOnSucceeded(s: System, e: Event, key: string, id: nat)
    requires HasSucceeded(s, key) && Live(Apply(s, e), id) && Apply(s, e).callers[id].claim.key == key
    ensures Live(s, id) && s.callers[id].claim.key == key
  {
  }

  /** Once a row has succeeded nobody becomes live on its key again. */
  lemma {:induction false} SuccessStaysExclusive(s: System, events: seq<Event>, key: string)
    requires HasSucceeded(s, key) && OneLiveOn(s, key)
    ensures HasSucceeded(After(s, events), key) && OneLiveOn(After(s, events), key)
    decreases |events|
  {
    hide Apply, OneLiveOn, HasSucceeded;
    if events != [] {
      SuccessStaysExclusive(s, events[..|events| - 1], key);
      EventKeepsOneLiveOnSucceeded(After(s, events[..|events| - 1]), events[|events| - 1], key);
    }
  }

  lemma LateSuccessIsHarmless(s: System, e: Event)
    requires ExclusionInvariant(s) && Unfenced(s, e) && e.SettleBy? && e.ok && SomeLiveOn(s, KeyWritten(s, e))
    ensures StaysExclusive(Apply(s, e), KeyWritten(s, e))
  {
    var key, t := KeyWritten(s, e), Apply(s, e);
    var holder :| Live(s, holder) && s.callers[holder].claim.key == key;
    assert Owns(s, holder);
    assert HasSucceeded(t, key);
    forall a, b | Live(t, a) && Live(t, b) && t.callers[a].claim.key == key && t.callers[b].claim.key == key ensures a == b {
      assert Alone(s, a, b);
    }
    forall events | ExclusiveRun(t, events) ensures OneLiveOn(After(t, events), key) {
      SuccessStaysExclusive(t, events, key);
    }
  }

  /** Any other such write over a live caller's claim lets a further caller in beside it. */
  lemma HarmfulWriteLetsAnotherIn(s: System, e: Event) returns (events: seq<Event>)
    requires ExclusionInvariant(s) && WithinExpiry(s) && Unfenced(s, e) && !(e.SettleBy? && e.ok)
    requires SomeLiveOn(s, KeyWritten(s, e))
    ensures ExclusiveRun(Apply(s, e), events) && !OneLiveOn(After(Apply(s, e), events), KeyWritten(s, e))
    ensures WithinExpiry(After(Apply(s, e), events))
  {
    var key, t := KeyWritten(s, e), Apply(s, e);
    var holder :| Live(s, holder) && s.callers[holder].claim.key == key;
    assert Owns(s, holder);
    var claim := Claim(key, "", None, "", "", s.rows[key].requestHash);
    assert Claimable(t, claim);
    UnfencedKeepsCallers(s, e);
    var id := Beyond(t.callers.Keys);
    hide Apply, After, ClaimBy;
    events := ClaimBy(id, claim);
    ClaimByTakes(t, id, claim);
    ClaimByIsExclusiveRun(t, id, claim);
    assert Live(After(t, events), id) && Live(After(t, events), holder);
  }

  /** A settle by a caller that is not live, or a sweep's update, keeps exclusion exactly when it stores a success
      or no other caller is live on the key it names. */
  lemma UnfencedWriteIsSafeIff(s: System, e: Event)
    requires ExclusionInvariant(s) && WithinExpiry(s) && Unfenced(s, e)
    ensures StaysExclusive(Apply(s, e), KeyWritten(s, e)) <==> (e.SettleBy? && e.ok) || !SomeLiveOn(s, KeyWritten(s, e))
  {
    hide Apply, After, Unfenced, KeyWritten, WithinExpiry, ExclusionInvariant, SomeLiveOn;
    if !SomeLiveOn(s, KeyWritten(s, e)) {
      HarmlessWriteKeepsInvariant(s, e);
      InvariantStaysExclusive(Apply(s, e), KeyWritten(s, e));
    } else if e.SettleBy? && e.ok {
      LateSuccessIsHarmless(s, e);
    } else {
      var events := HarmfulWriteLetsAnotherIn(s, e);
    }
  }

  // ----------------------------------------------- whose request a claimed row carries ---

  predicate TakesKey(s: System, e: Event, key: string) {
    && e.Run? && e.id in s.callers && s.callers[e.id].phase.Inserting?
    && s.callers[e.id].claim.key == key && Takes(s.rows, key)
  }

  /** The request of the last insert among these events that took the key, if one did. */
  ghost function LastTaken(s: System, events: seq<Event>, key: string): Option<string> {
    if events == [] then None
    else
      var front, e := events[..|events| - 1], events[|events| - 1];
      var t := After(s, front);
      if TakesKey(t, e, key) then Some(t.callers[e.id].claim.requestHash) else LastTaken(s, front, key)
  }

  lemma EventKeepsRequest(s: System, e: Event, key: string)
    requires key in s.rows
    ensures key in Apply(s, e).rows
    ensures Apply(s, e).rows[key].requestHash
         == if TakesKey(s, e, key) then s.callers[e.id].claim.requestHash else s.rows[key].requestHash
  {
  }

  /** In any interleaving a row carries the request of the last insert that took it; nothing else changes it. */
  lemma {:induction false} RowCarriesLastTaken(s: System, events: seq<Event>, key: string)
    requires key in s.rows
    ensures key in After(s, events).rows
    ensures var taken := LastTaken(s, events, key);
      After(s, events).rows[key].requestHash == if taken.Some? then taken.value else s.rows[key].requestHash
  {
    hide Apply, TakesKey;
    if events != [] {
      var front := events[..|events| - 1];
      RowCarriesLastTaken(s, front, key);
      EventKeepsRequest(After(s, front), events[|events| - 1], key);
    }
  }

  /** A caller that reads back a row it inserted is answered as claimant only for its own request. A caller that read
      a failed row re-opens whatever failed row it finds when it gets there, and so holds a row of its own request
      exactly when no insert has taken the key since it read, or the last that did was for the same request. */
  lemma ReopenedRowIsOwnIff(s: System, id: nat, events: seq<Event>)
    requires id in s.callers && s.callers[id].phase.Reading?
    requires var t := After(Apply(s, Run(id)), events); t.callers.Keys >= {id} && t.callers[id] == Apply(s, Run(id)).callers[id]
    ensures var claim := s.callers[id].claim; var read := Apply(s, Run(id)); var t := After(read, events);
      && (read.callers[id].phase == Answered(Claimed) ==>
            claim.key in read.rows && read.rows[claim.key].requestHash == claim.requestHash)
      && (read.callers[id].phase.Reopening? && Reopens(t.rows, claim.key) ==>
            var u := Apply(t, Run(id));
            && u.callers[id].phase == Answered(Claimed) && claim.key in u.rows
            && (u.rows[claim.key].requestHash == claim.requestHash
                <==> LastTaken(read, events, claim.key) in [None, Some(claim.requestHash)]))
  {
    var claim, read := s.callers[id].claim, Apply(s, Run(id));
    if read.callers[id].phase.Reopening? {
      ReadsOwnFailure(s, id);
      RowCarriesLastTaken(read, events, claim.key);
      hide After;
      if Reopens(After(read, events).rows, claim.key) {
        EventKeepsRequest(After(read, events), Run(id), claim.key);
      }
    }
  }

  lemma ReadsOwnFailure(s: System, id: nat)
    requires id in s.callers && s.callers[id].phase.Reading? && Apply(s, Run(id)).callers[id].phase.Reopening?
    ensures var claim := s.callers[id].claim; var read := Apply(s, Run(id));
      read.callers[id].claim == claim && claim.key in read.rows && read.rows[claim.key].requestHash == claim.requestHash
  {
  }

  /** A caller that has its answer never becomes live again, and keeps its claim. */
  predicate Done(s: System, id: nat) {
    id in s.callers && (s.callers[id].phase == Answered(Claimed) || (s.callers[id].phase.Crashed? && !s.callers[id].live))
  }

  lemma LiveStepKeepsRequest(s: System, e: Event, id: nat)
    requires ExclusionInvariant(s) && Done(s, id)
    ensures var t := Apply(s, e); Done(t, id) && t.callers[id].claim == s.callers[id].claim && (Live(t, id) ==> Live(s, id))
    ensures Live(s, id) ==> var key := s.callers[id].claim.key;
      key in s.rows && key in Apply(s, e).rows && Apply(s, e).rows[key].requestHash == s.rows[key].requestHash
  {
    if Live(s, id) {
      assert Owns(s, id);
      EventKeepsRequest(s, e, s.callers[id].claim.key);
    }
  }

  /** While it is live, a claimant's row goes on carrying the request it carried when the caller was answered. */
  lemma {:induction false} LiveRowKeepsRequest(s: System, events: seq<Event>, n: nat, id: nat)
    requires ExclusionInvariant(s) && ExclusiveRun(s, events) && n <= |events| && Done(s, id)
    ensures var t := After(s, events[..n]); Done(t, id) && t.callers[id].claim == s.callers[id].claim
    ensures var t := After(s, events[..n]); var key := s.callers[id].claim.key;
      Live(t, id) ==>
        Live(s, id) && key in s.rows && key in t.rows && t.rows[key].requestHash == s.rows[key].requestHash
  {
    hide ExclusionInvariant, Apply, After, Disciplined, WithinExpiry, Done;
    if n == 0 {
      AfterNothing(s, events);
      if Live(s, id) { LiveStepKeepsRequest(s, Tick(s.clock), id); }
    } else {
      LiveRowKeepsRequest(s, events, n - 1, id);
      RunKeepsExclusion(s, events, n - 1);
      AfterPrefix(s, events, n - 1);
      LiveStepKeepsRequest(After(s, events[..n - 1]), events[n - 1], id);
    }
  }

  lemma AfterNothing(s: System, events: seq<Event>)
    ensures After(s, events[..0]) == s
  {
  }

  // ----------------------------------------- why the discipline cannot be dropped ---

  const REQUEST := Claim("k", "org", None, "actor", "tool", "h")

  /** Caller 0 settles its key as failed, whoever's claim is pending there. */
  lemma FailureFailsTheRow(s: System)
    requires 0 in s.callers && s.callers[0].claim == REQUEST && s.callers[0].phase == Answered(Claimed)
    requires REQUEST.key in s.rows && s.rows[REQUEST.key].state.Pending? && s.rows[REQUEST.key].requestHash == REQUEST.requestHash
    ensures var t := Apply(s, SettleBy(0, false, None));
      t.clock == s.clock && Claimable(t, REQUEST) && t.callers == s.callers[0 := s.callers[0].(live := false)]
  {
  }

  /** A call that fails is settled a second time when its audit write throws. If a retry re-opened the key
      in between, that second settle fails the retry's claim and lets a third caller in beside it. */
  lemma SecondSettleBreaksExclusion()
    ensures var fail := SettleBy(0, false, None);
      var s := After(NOBODY, ClaimBy(0, REQUEST) + [fail] + ClaimBy(1, REQUEST) + [fail] + ClaimBy(2, REQUEST));
      Live(s, 1) && Live(s, 2) && WithinExpiry(s) && s.callers[1].claim.key == s.callers[2].claim.key
  {
    hide After, Apply, ClaimBy;
    var fail := SettleBy(0, false, None);
    var e1, e2 := ClaimBy(0, REQUEST), ClaimBy(0, REQUEST) + [fail];
    var e3, e4 := e2 + ClaimBy(1, REQUEST), e2 + ClaimBy(1, REQUEST) + [fail];
    ClaimByTakes(NOBODY, 0, REQUEST);
    AfterThen(NOBODY, e1, fail);
    FailureFailsTheRow(After(NOBODY, e1));
    ClaimByTakes(After(NOBODY, e2), 1, REQUEST);
    AfterAppend(NOBODY, e2, ClaimBy(1, REQUEST));
    AfterThen(NOBODY, e3, fail);
    FailureFailsTheRow(After(NOBODY, e3));
    ClaimByTakes(After(NOBODY, e4), 2, REQUEST);
    AfterAppend(NOBODY, e4, ClaimBy(2, REQUEST));
  }

  function Orphaned(): seq<Event> {
    ClaimBy(0, REQUEST) + [Crash(0)] + [Tick(CLAIM_TTL_MS)]
  }

  lemma OrphanedClaimIsStale()
    ensures var s := After(NOBODY, Orphaned());
      s.clock == CLAIM_TTL_MS && Stale(s.rows, "k", s.clock) && s.callers.Keys == {0} && !s.callers[0].live
  {
    hide After, ClaimBy;
    ClaimByTakes(NOBODY, 0, REQUEST);
    AfterThen(NOBODY, ClaimBy(0, REQUEST), Crash(0));
    AfterThen(NOBODY, ClaimBy(0, REQUEST) + [Crash(0)], Tick(CLAIM_TTL_MS));
  }

  lemma SweepExpiresTheRow(s: System, now: int)
    requires "k" in s.rows && s.rows["k"].state.Pending?
    ensures var t := Apply(s, SweepUpdate("k", now));
      t.clock == s.clock && t.callers == s.callers && Claimable(t, REQUEST)
  {
  }

  lemma BothLive(s: System, t: System)
    requires s.callers.Keys == {0} && !s.callers[0].live && t.clock == s.clock
    requires t.callers == s.callers[1 := Holder(REQUEST, s.clock)][2 := Holder(REQUEST, s.clock)]
    ensures Live(t, 1) && Live(t, 2) && WithinExpiry(t) && t.callers[1].claim.key == t.callers[2].claim.key
  {
  }

  lemma SweepUpdateLetsAnotherIn(s: System)
    requires Stale(s.rows, "k", s.clock) && s.callers.Keys == {0} && !s.callers[0].live
    ensures var t := After(s, ClaimBy(1, REQUEST) + [SweepUpdate("k", s.clock)] + ClaimBy(2, REQUEST));
      && Live(t, 1) && Live(t, 2) && WithinExpiry(t) && t.callers[1].claim.key == t.callers[2].claim.key
  {
    hide Apply, After, ClaimBy, WithinExpiry;
    var update := SweepUpdate("k", s.clock);
    var e1, e2 := ClaimBy(1, REQUEST), ClaimBy(1, REQUEST) + [update];
    ClaimByTakes(s, 1, REQUEST);
    AfterThen(s, e1, update);
    SweepExpiresTheRow(After(s, e1), s.clock);
    ClaimByTakes(After(s, e2), 2, REQUEST);
    AfterAppend(s, e2, ClaimBy(2, REQUEST));
    BothLive(s, After(s, e2 + ClaimBy(2, REQUEST)));
  }

  /** The sweep updates a key it selected earlier without looking at the expiry again: a claim taken over in
      between is expired while its caller is live, and a further caller takes it as well. */
  lemma SplitSweepBreaksExclusion()
    ensures var s := After(NOBODY, Orphaned());
      && Stale(s.rows, "k", CLAIM_TTL_MS)
      && var t := After(s, ClaimBy(1, REQUEST) + [SweepUpdate("k", CLAIM_TTL_MS)] + ClaimBy(2, REQUEST));
         Live(t, 1) && Live(t, 2) && WithinExpiry(t) && t.callers[1].claim.key == t.callers[2].claim.key
  {
    hide After;
    OrphanedClaimIsStale();
    SweepUpdateLetsAnotherIn(After(NOBODY, Orphaned()));
  }

  const OTHER := REQUEST.(requestHash := "other")

  /** A failed row of `REQUEST`, and caller 0 about to re-open it. */
  function Paused(): System {
    System(0, map["k" := Row("org", None, "actor", "tool", "h", Failed, 0, CLAIM_TTL_MS, Some(0), None)],
           map[0 := Caller(REQUEST, 0, Reading(false), false, CLAIM_TTL_MS)])
  }

  /** While it pauses its own request is retried and abandoned, and another request takes the key and fails. */
  function DuringThePause(): seq<Event> {
    ClaimBy(1, REQUEST) + [Crash(1)] + [Tick(CLAIM_TTL_MS)] + ClaimBy(2, OTHER) + [SettleBy(2, false, None)]
  }

  lemma PausedReads()
    ensures Apply(Paused(), Run(0)) == Paused().(callers := map[0 := Caller(REQUEST, 0, Reopening, false, CLAIM_TTL_MS)])
  {
  }

  lemma CrashAndWait(s: System)
    requires 1 in s.callers && s.clock == 0
    requires "k" in s.rows && s.rows["k"].state.Pending? && s.rows["k"].expiresAt == CLAIM_TTL_MS
    ensures var t := Apply(Apply(s, Crash(1)), Tick(CLAIM_TTL_MS));
      && t.clock == CLAIM_TTL_MS && Claimable(t, OTHER)
      && t.callers == s.callers[1 := s.callers[1].(phase := Crashed, live := false)]
  {
  }

  lemma FailAndReopen(s: System)
    requires 0 in s.callers && s.callers[0].claim == REQUEST && s.callers[0].phase.Reopening?
    requires 2 in s.callers && s.callers[2].claim == OTHER && s.callers[2].phase == Answered(Claimed)
    requires "k" in s.rows && s.rows["k"].state.Pending? && s.rows["k"].requestHash == "other"
    ensures var t := Apply(Apply(s, SettleBy(2, false, None)), Run(0));
      && 0 in t.callers && t.callers[0].phase == Answered(Claimed) && t.callers[0].claim == REQUEST
      && "k" in t.rows && t.rows["k"].requestHash == "other"
  {
  }

  /** After a pause longer than a claim lasts, a caller re-opens the failed row of another request as its own. */
  lemma LongPauseReopensAnothersRow()
    ensures var s := After(Apply(Paused(), Run(0)), DuringThePause() + [Run(0)]);
      && 0 in s.callers && s.callers[0].phase == Answered(Claimed) && s.callers[0].claim == REQUEST
      && "k" in s.rows && s.rows["k"].requestHash != REQUEST.requestHash
  {
    hide After, ClaimBy, Apply;
    var s := Apply(Paused(), Run(0));
    assert s == Paused().(callers := map[0 := Caller(REQUEST, 0, Reopening, false, CLAIM_TTL_MS)]) by { PausedReads(); }
    var e1 := ClaimBy(1, REQUEST);
    ClaimByTakes(s, 1, REQUEST);
    AfterThen(s, e1, Crash(1));
    AfterThen(s, e1 + [Crash(1)], Tick(CLAIM_TTL_MS));
    CrashAndWait(After(s, e1));
    var e2 := e1 + [Crash(1)] + [Tick(CLAIM_TTL_MS)];
    ClaimByTakes(After(s, e2), 2, OTHER);
    AfterAppend(s, e2, ClaimBy(2, OTHER));
    var e3 := e2 + ClaimBy(2, OTHER);
    AfterThen(s, e3, SettleBy(2, false, None));
    AfterThen(s, e3 + [SettleBy(2, false, None)], Run(0));
    FailAndReopen(After(s, e3));
  }
}
