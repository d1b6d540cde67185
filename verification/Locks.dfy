/** Per-site concurrency locks: one row per key, taken over only once it has expired, and released only by
    the holder recorded in it. */
module Locks {
  import opened Options

  datatype Lock = Lock(holder: string, acquiredAt: int, expiresAt: int)

  type Table = map<string, Lock>

  /** A time-to-live as a JavaScript number: a real, or NaN or an infinity. */
  datatype Ttl = Finite(ms: real) | NonFinite

  /** At least one millisecond, whatever was asked for. */
  function ExpiresAt(now: int, ttl: Ttl): (e: int)
    ensures now < e
    ensures ttl.Finite? && ttl.ms >= 1.0 ==> e == now + ttl.ms.Floor
  {
    var floored := if ttl.Finite? then ttl.ms.Floor else 0;
    now + if floored > 1 then floored else 1
  }

  // ----------------------------------------------------------- the statements ---

  predicate Takes(rows: Table, key: string, now: int) {
    key !in rows || rows[key].expiresAt <= now
  }

  function Acquire(rows: Table, key: string, holder: string, now: int, ttl: Ttl): Table {
    if Takes(rows, key, now) then rows[key := Lock(holder, now, ExpiresAt(now, ttl))] else rows
  }

  function Release(rows: Table, key: string, holder: string): Table {
    if key in rows && rows[key].holder == holder then rows - {key} else rows
  }

  function Sweep(rows: Table, now: int): Table {
    map key | key in rows && rows[key].expiresAt > now :: rows[key]
  }

  class LockTable {
    var rows: Table

    constructor ()
      ensures rows == map[]
    {
      rows := map[];
    }

    /** The answer stands for the release closure: `Some(holder)` when the lock was taken. */
    method TryAcquire(key: string, holder: string, now: int, ttl: Ttl) returns (held: Option<string>)
      modifies this
      ensures rows == Acquire(old(rows), key, holder, now, ttl)
      ensures held == if Takes(old(rows), key, now) then Some(holder) else None
    {
      var expiresAt := ExpiresAt(now, ttl);
      if key in rows && rows[key].expiresAt > now {
        return None;
      }
      rows := rows[key := Lock(holder, now, expiresAt)];
      return Some(holder);
    }

    method ReleaseLock(key: string, holder: string)
      modifies this
      ensures rows == Release(old(rows), key, holder)
    {
      if key in rows && rows[key].holder == holder {
        rows := rows - {key};
      }
    }

    method SweepExpired(now: int) returns (changes: nat)
      modifies this
      ensures rows == Sweep(old(rows), now)
      ensures changes == |old(rows)| - |rows|
    {
      var kept := map key | key in rows && rows[key].expiresAt > now :: rows[key];
      assert |rows.Keys - kept.Keys| == |rows.Keys| - |kept.Keys|;
      changes := |rows| - |kept|;
      rows := kept;
    }
  }

  // --------------------------------------------------------- any number of callers ---

  /** A granted lock: who holds it on which key until when, and whether its release has run. */
  datatype Grant = Grant(key: string, expiresAt: int, released: bool)

  datatype System = System(clock: int, rows: Table, grants: map<string, Grant>)

  /** `now` is when the caller read its clock; by the time its statement runs that may be long past. */
  datatype Event =
    | Tick(to: int)
    | AcquireBy(holder: string, key: string, now: int, ttl: Ttl)
    | ReleaseBy(holder: string)
    | SweepAt(now: int)

  function Apply(s: System, e: Event): System {
    match e
    case Tick(to) => if to > s.clock then s.(clock := to) else s
    case AcquireBy(holder, key, now, ttl) =>
      if now > s.clock || holder in s.grants then s
      else
        s.(rows := Acquire(s.rows, key, holder, now, ttl),
           grants := if Takes(s.rows, key, now) then s.grants[holder := Grant(key, ExpiresAt(now, ttl), false)]
                     else s.grants)
    case ReleaseBy(holder) =>
      if holder in s.grants then
        s.(rows := Release(s.rows, s.grants[holder].key, holder),
           grants := s.grants[holder := s.grants[holder].(released := true)])
      else s
    case SweepAt(now) => if now > s.clock then s else s.(rows := Sweep(s.rows, now))
  }

  function After(s: System, events: seq<Event>): System {
    if events == [] then s else Apply(After(s, events[..|events| - 1]), events[|events| - 1])
  }

  /** Unreleased and not yet expired. */
  predicate Holds(s: System, holder: string) {
    holder in s.grants && !s.grants[holder].released && s.clock < s.grants[holder].expiresAt
  }

  ghost predicate Recorded(s: System, holder: string)
    requires holder in s.grants
  {
    var g := s.grants[holder];
    g.key in s.rows && s.rows[g.key].holder == holder && s.rows[g.key].expiresAt == g.expiresAt
  }

  ghost predicate LockInvariant(s: System) {
    && (forall holder :: Holds(s, holder) ==> Recorded(s, holder))
    && (forall key :: key in s.rows ==>
          var h := s.rows[key].holder;
          h in s.grants && !s.grants[h].released && s.grants[h].key == key && s.grants[h].expiresAt == s.rows[key].expiresAt)
  }

  lemma EventKeepsInvariant(s: System, e: Event)
    requires LockInvariant(s)
    ensures LockInvariant(Apply(s, e))
  {
    var t := Apply(s, e);
    forall holder | Holds(t, holder) ensures Recorded(t, holder) {
      if holder in s.grants {
        assert Holds(s, holder) && Recorded(s, holder);
      }
    }
  }

  const EMPTY := System(0, map[], map[])

  lemma {:induction false} RunKeepsInvariant(events: seq<Event>)
    ensures LockInvariant(After(EMPTY, events))
  {
    if events != [] {
      RunKeepsInvariant(events[..|events| - 1]);
      EventKeepsInvariant(After(EMPTY, events[..|events| - 1]), events[|events| - 1]);
    }
  }

  /** In every interleaving of acquires, releases and sweeps with stale clock readings, an unreleased,
      unexpired holder is the one recorded in the row, so two of them never coexist on one key. */
  lemma HoldersExcludeEachOther(events: seq<Event>, a: string, b: string)
    ensures var s := After(EMPTY, events);
      && (Holds(s, a) ==> Recorded(s, a))
      && (Holds(s, a) && Holds(s, b) && s.grants[a].key == s.grants[b].key ==> a == b)
  {
    RunKeepsInvariant(events);
  }

  /** A release, however late, leaves every other holder's lock in place, and so does a sweep. */
  lemma LateReleaseIsHarmless(events: seq<Event>, e: Event, other: string)
    requires e.ReleaseBy? || e.SweepAt?
    requires Holds(After(EMPTY, events), other) && (e.ReleaseBy? ==> e.holder != other)
    ensures var s := After(EMPTY, events); var t := Apply(s, e); var key := s.grants[other].key;
      Holds(t, other) && key in s.rows && key in t.rows && t.rows[key] == s.rows[key]
  {
    RunKeepsInvariant(events);
  }

  ghost predicate HeldOn(s: System, key: string) {
    exists other :: Holds(s, other) && s.grants[other].key == key
  }

  /** Some holder of the key has not released its lock, which was unexpired by this reading of the clock. */
  ghost predicate UnexpiredGrant(s: System, key: string, now: int) {
    exists other :: other in s.grants &&
      s.grants[other].key == key && !s.grants[other].released && now < s.grants[other].expiresAt
  }

  /** While somebody holds the key every acquire is refused, however stale its clock reading, and changes nothing.
      A refusal is always for an unreleased lock that was unexpired when the caller looked; so by the current clock
      an acquire is refused exactly when somebody holds the key. */
  lemma RefusedIffHeld(events: seq<Event>, holder: string, key: string, now: int, ttl: Ttl)
    requires var s := After(EMPTY, events); now <= s.clock && holder !in s.grants
    ensures var s := After(EMPTY, events); var t := Apply(s, AcquireBy(holder, key, now, ttl));
      && (HeldOn(s, key) ==> holder !in t.grants)
      && (holder !in t.grants ==> t == s && UnexpiredGrant(s, key, now))
      && (now == s.clock ==> (holder !in t.grants <==> HeldOn(s, key)))
  {
    RunKeepsInvariant(events);
    hide After;
    var s := After(EMPTY, events);
    var t := Apply(s, AcquireBy(holder, key, now, ttl));
    if holder !in t.grants {
      var other := s.rows[key].holder;
      assert other in s.grants && s.grants[other].key == key && now < s.grants[other].expiresAt;
    }
  }
}
