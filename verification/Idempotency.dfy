/** The idempotency claim table: one function and one method per SQL statement. Ownership of a key is
    decided by the number of rows a statement changed and by nothing else. */
module Idempotency {
  import opened Options

  const CLAIM_TTL_MS := 600_000

  datatype ClaimState = Pending | Succeeded | Failed | Expired

  datatype Row = Row(
    organizationId: string, siteId: Option<string>, actorId: string, tool: string, requestHash: string,
    state: ClaimState, createdAt: int, expiresAt: int, settledAt: Option<int>, resultJson: Option<string>)

  datatype Claim = Claim(
    key: string, organizationId: string, siteId: Option<string>, actorId: string, tool: string, requestHash: string)

  datatype ClaimOutcome = Claimed | Replay(result: Option<string>) | InFlight | Conflict

  type Table = map<string, Row>

  // ----------------------------------------------------------- the statements ---

  /** Reclaim the key if a previous attempt died holding it. */
  function ExpireStale(rows: Table, key: string, now: int): Table {
    if key in rows && rows[key].state.Pending? && rows[key].expiresAt <= now
    then rows[key := rows[key].(state := Expired, settledAt := Some(now))] else rows
  }

  /** Does the claiming INSERT change a row? */
  predicate Takes(rows: Table, key: string) {
    key !in rows || rows[key].state.Expired?
  }

  /** The claiming INSERT: a new row, or an expired one re-taken; otherwise nothing. */
  function Take(rows: Table, claim: Claim, now: int): Table {
    if claim.key !in rows then
      rows[claim.key := Row(claim.organizationId, claim.siteId, claim.actorId, claim.tool, claim.requestHash,
                            Pending, now, now + CLAIM_TTL_MS, None, None)]
    else if rows[claim.key].state.Expired? then
      rows[claim.key := rows[claim.key].(
        state := Pending, requestHash := claim.requestHash, actorId := claim.actorId, tool := claim.tool,
        createdAt := now, expiresAt := now + CLAIM_TTL_MS, settledAt := None, resultJson := None)]
    else rows
  }

  predicate Reopens(rows: Table, key: string) {
    key in rows && rows[key].state.Failed?
  }

  function Reopen(rows: Table, key: string, now: int): Table {
    if Reopens(rows, key)
    then rows[key := rows[key].(state := Pending, createdAt := now, expiresAt := now + CLAIM_TTL_MS, settledAt := None)]
    else rows
  }

  /** Only a pending claim settles; a result is stored for a success only. */
  function Settle(rows: Table, key: string, ok: bool, result: Option<string>, now: int): Table {
    if key in rows && rows[key].state.Pending?
    then rows[key := rows[key].(state := if ok then Succeeded else Failed, settledAt := Some(now),
                                resultJson := if ok then result else None)]
    else rows
  }

  /** The sweeper's update of one selected key; it does not look at the expiry again. */
  function ExpireSelected(rows: Table, key: string, now: int): Table {
    if key in rows && rows[key].state.Pending?
    then rows[key := rows[key].(state := Expired, settledAt := Some(now))] else rows
  }

  predicate Stale(rows: Table, key: string, now: int) {
    key in rows && rows[key].state.Pending? && rows[key].expiresAt <= now
  }

  /** What the read-back decides; `None` asks for the failed row to be re-opened. */
  function Decide(rows: Table, claim: Claim, won: bool): Option<ClaimOutcome> {
    if claim.key !in rows then Some(Conflict)
    else
      var row := rows[claim.key];
      if row.requestHash != claim.requestHash then Some(Conflict)
      else match row.state
        case Succeeded => Some(Replay(row.resultJson))
        case Failed => None
        case Pending => Some(if won then Claimed else InFlight)
        case Expired => Some(Conflict)
  }

  /** What the read-back says, whatever has happened to the row since the insert: a row that is missing, expired or of
      another request is a conflict; one's own request is told of its success, claims what it inserted, waits for what
      another inserted, and re-opens only a failure. */
  lemma DecideMeaning(rows: Table, claim: Claim, won: bool)
    ensures var d := Decide(rows, claim, won);
      var own := claim.key in rows && rows[claim.key].requestHash == claim.requestHash;
      && (d == Some(Conflict) <==> !own || rows[claim.key].state.Expired?)
      && (d == Some(Claimed) <==> own && rows[claim.key].state.Pending? && won)
      && (d == Some(InFlight) <==> own && rows[claim.key].state.Pending? && !won)
      && (d.Some? && d.value.Replay? <==> own && rows[claim.key].state.Succeeded?)
      && (d.Some? && d.value.Replay? ==> d.value.result == rows[claim.key].resultJson)
      && (d.None? <==> own && rows[claim.key].state.Failed?)
  {
  }

  // ---------------------------------------------------------------- the store ---

  /** A claim whose statements run with nothing in between. */
  function ClaimAlone(rows: Table, claim: Claim, now: int): (Table, ClaimOutcome) {
    var expired := ExpireStale(rows, claim.key, now);
    var won, taken := Takes(expired, claim.key), Take(expired, claim, now);
    var decision := Decide(taken, claim, won);
    if decision.Some? then (taken, decision.value)
    else (Reopen(taken, claim.key, now), if Reopens(taken, claim.key) then Claimed else InFlight)
  }

  class ClaimStore {
    var rows: Table

    constructor ()
      ensures rows == map[]
    {
      rows := map[];
    }

    method UpdateStale(key: string, now: int)
      modifies this
      ensures rows == ExpireStale(old(rows), key, now)
    {
      if key in rows && rows[key].state == Pending && rows[key].expiresAt <= now {
        rows := rows[key := rows[key].(state := Expired, settledAt := Some(now))];
      }
    }

    /** One change when the key was free or its row expired: the row is then pending and this claim's, with a fresh
        expiry and no result. Otherwise, and in every other row, nothing changes. */
    method Insert(claim: Claim, now: int) returns (changes: nat)
      modifies this
      ensures rows == Take(old(rows), claim, now)
      ensures changes == 1 <==> claim.key !in old(rows) || old(rows)[claim.key].state.Expired?
      ensures changes != 1 ==> changes == 0 && rows == old(rows)
      ensures changes == 1 ==> claim.key in rows && rows - {claim.key} == old(rows) - {claim.key}
      ensures changes == 1 ==> var row := rows[claim.key];
        && row.state.Pending? && row.requestHash == claim.requestHash && row.actorId == claim.actorId && row.tool == claim.tool
        && row.createdAt == now && row.expiresAt == now + CLAIM_TTL_MS && row.settledAt.None? && row.resultJson.None?
        && row.organizationId == (if claim.key in old(rows) then old(rows)[claim.key].organizationId else claim.organizationId)
        && row.siteId == (if claim.key in old(rows) then old(rows)[claim.key].siteId else claim.siteId)
    {
      if claim.key !in rows {
        rows := rows[claim.key := Row(claim.organizationId, claim.siteId, claim.actorId, claim.tool, claim.requestHash,
                                      Pending, now, now + CLAIM_TTL_MS, None, None)];
        return 1;
      }
      var row := rows[claim.key];
      if row.state != Expired {
        return 0;
      }
      rows := rows[claim.key := Row(row.organizationId, row.siteId, claim.actorId, claim.tool, claim.requestHash,
                                    Pending, now, now + CLAIM_TTL_MS, None, None)];
      return 1;
    }

    /** One change when the row had failed: it is pending again, for the same request and with a fresh expiry.
        Otherwise, and in every other row, nothing changes. */
    method UpdateFailed(key: string, now: int) returns (changes: nat)
      modifies this
      ensures rows == Reopen(old(rows), key, now)
      ensures changes == 1 <==> key in old(rows) && old(rows)[key].state.Failed?
      ensures changes != 1 ==> changes == 0 && rows == old(rows)
      ensures changes == 1 ==> key in rows && rows - {key} == old(rows) - {key}
      ensures changes == 1 ==> var before, row := old(rows)[key], rows[key];
        && row.state.Pending? && row.createdAt == now && row.expiresAt == now + CLAIM_TTL_MS && row.settledAt.None?
        && row.requestHash == before.requestHash && row.resultJson == before.resultJson && row.tool == before.tool
        && row.actorId == before.actorId && row.organizationId == before.organizationId && row.siteId == before.siteId
    {
      if key !in rows || rows[key].state != Failed {
        return 0;
      }
      var row := rows[key];
      rows := rows[key := Row(row.organizationId, row.siteId, row.actorId, row.tool, row.requestHash,
                              Pending, now, now + CLAIM_TTL_MS, None, row.resultJson)];
      return 1;
    }

    method Claim(claim: Claim, now: int) returns (outcome: ClaimOutcome)
      modifies this
      ensures (rows, outcome) == ClaimAlone(old(rows), claim, now)
    {
      UpdateStale(claim.key, now);
      var changed := Insert(claim, now);
      var weWonTheInsert := changed > 0;
      if claim.key !in rows {
        return Conflict;
      }
      var row := rows[claim.key];
      if row.requestHash != claim.requestHash {
        return Conflict;
      }
      match row.state {
        case Succeeded => return Replay(row.resultJson);
        case Failed =>
          var reopenedRows := UpdateFailed(claim.key, now);
          return if reopenedRows > 0 then Claimed else InFlight;
        case Pending => return if weWonTheInsert then Claimed else InFlight;
        case Expired => return Conflict;
      }
    }

    method SettleClaim(key: string, ok: bool, result: Option<string>, now: int)
      modifies this
      ensures rows == Settle(old(rows), key, ok, result, now)
    {
      var serialised := if ok then result else None;
      if key in rows && rows[key].state == Pending {
        rows := rows[key := rows[key].(state := if ok then Succeeded else Failed, settledAt := Some(now),
                                       resultJson := serialised)];
      }
    }

    /** `selected` is what the SELECT returned: distinct stale keys, at most `limit` of them. Every selected
        row expires and no other row changes. */
    method Sweep(selected: seq<string>, now: int) returns (count: nat)
      requires forall i, j :: 0 <= i < j < |selected| ==> selected[i] != selected[j]
      requires forall i :: 0 <= i < |selected| ==> Stale(rows, selected[i], now)
      modifies this
      ensures count == |selected| && rows.Keys == old(rows).Keys
      ensures forall key :: key in rows ==>
        rows[key] == if key in selected then old(rows)[key].(state := Expired, settledAt := Some(now)) else old(rows)[key]
      ensures forall key :: key in selected ==> key in rows && rows[key] == ExpireSelected(old(rows), key, now)[key]
    {
      for i := 0 to |selected|
        invariant rows.Keys == old(rows).Keys
        invariant forall key :: key in rows ==>
          rows[key] == if key in selected[..i] then old(rows)[key].(state := Expired, settledAt := Some(now)) else old(rows)[key]
      {
        var key := selected[i];
        assert selected[..i + 1] == selected[..i] + [key];
        assert Stale(old(rows), key, now) && key !in selected[..i];
        if key in rows && rows[key].state == Pending {
          rows := rows[key := rows[key].(state := Expired, settledAt := Some(now))];
        }
      }
      assert selected[..|selected|] == selected;
      return |selected|;
    }
  }

  // ---------------------------------------------------------- one caller's view ---

  /** A fresh key is claimed; once its call settles as a success, a repeat of the same request replays
      exactly the stored result, at any time and any number of times, and a different request conflicts. */
  lemma SucceededClaimReplays(rows: Table, claim: Claim, now: int, result: Option<string>, settledAt: int,
                              again: Claim, later: int)
    requires claim.key !in rows && again.key == claim.key
    ensures ClaimAlone(rows, claim, now).1 == Claimed
    ensures var settled := Settle(ClaimAlone(rows, claim, now).0, claim.key, true, result, settledAt);
      ClaimAlone(settled, again, later)
        == (settled, if again.requestHash == claim.requestHash then Replay(result) else Conflict)
  {
  }

  /** A failed call may be retried by its own request and by no other. */
  lemma FailedClaimReopens(rows: Table, claim: Claim, now: int, settledAt: int, again: Claim, later: int)
    requires claim.key !in rows && again.key == claim.key
    ensures var settled := Settle(ClaimAlone(rows, claim, now).0, claim.key, false, None, settledAt);
      ClaimAlone(settled, again, later).1 == if again.requestHash == claim.requestHash then Claimed else Conflict
  {
  }

  /** What any claim is told, and what it leaves in the table. A key that is free, expired or stale is claimed. While a
      claim is pending within its expiry, its own request is told to wait; a success is replayed and a failure re-opened
      to it; a different request conflicts with any of them. Only a claim that is granted puts a pending row there. */
  lemma ClaimAnswers(rows: Table, claim: Claim, now: int)
    ensures var (after, outcome) := ClaimAlone(rows, claim, now);
      var free := claim.key !in rows || rows[claim.key].state.Expired? || Stale(rows, claim.key, now);
      && (free ==> outcome == Claimed)
      && (!free ==> var row := rows[claim.key];
           && (row.requestHash != claim.requestHash <==> outcome == Conflict)
           && (row.requestHash == claim.requestHash && row.state.Pending? <==> outcome == InFlight)
           && (row.requestHash == claim.requestHash && row.state.Succeeded? <==> outcome == Replay(row.resultJson))
           && (row.requestHash == claim.requestHash && row.state.Failed? <==> outcome == Claimed))
      && (outcome != Claimed ==> after == rows)
      && (outcome == Claimed ==>
           && claim.key in after && after - {claim.key} == rows - {claim.key}
           && var row := after[claim.key];
              && row.state.Pending? && row.requestHash == claim.requestHash
              && row.createdAt == now && row.expiresAt == now + 600_000)
  {
  }
}
