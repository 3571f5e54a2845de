/**
 * SyncDatabase: the sync tables and the transactions on them. A transaction works on local copies
 * of an account's rows, writes them back at COMMIT, and leaves the fields alone at ROLLBACK.
 */
module SyncDatabase {
  import opened Wrappers
  import opened SyncModel
  import Devices
  import SyncPush
  import SyncRuns

  /** The response to a push, or the error thrown. */
  datatype PushReply =
    | PushOk(acceptedIds: seq<string>, rejectedIds: seq<string>, nextCursor: Option<nat>)
    | PushFailed(error: PushError)

  function LatestCursor(a: Account): Option<nat> {
    if a.lastSequence > 0 then Some(a.lastSequence) else None
  }

  /** The cursor a push reports is the sequence of the last row ever accepted, and null before the first. */
  lemma LatestIsLast(w: SyncRuns.World)
    requires SyncRuns.Inv(w)
    ensures LatestCursor(w.account)
         == if w.history == [] then None else Some(w.history[|w.history| - 1].sequence)
  {
  }

  /** The mutations that passed validateMutation, when all did. */
  function Validated(raw: seq<Option<Mutation>>): seq<Mutation>
    requires forall m :: m in raw ==> m.Some?
  {
    seq(|raw|, i requires 0 <= i < |raw| => raw[i].value)
  }

  class SyncDatabase {
    var accounts: map<string, Account>
    var lastRowid: nat

    constructor ()
      ensures accounts == map[] && lastRowid == 0
    {
      accounts, lastRowid := map[], 0;
    }

    /** ensureAccount's insertion: an account that is already there is left as it is. */
    method EnsureAccount(accountId: string)
      modifies this`accounts
      ensures accountId in accounts
      ensures accounts == if accountId in old(accounts) then old(accounts) else old(accounts)[accountId := NEW_ACCOUNT]
    {
      if accountId !in accounts {
        accounts := accounts[accountId := NEW_ACCOUNT];
      }
    }

    method EnsureDevice(accountId: string, id: string, key: Option<string>, allowCreate: bool, now: Instant,
                        p: Devices.Policy)
      returns (verdict: Devices.Verdict)
      requires accountId in accounts
      modifies this`accounts
      ensures var a := old(accounts)[accountId];
        var (v, r) := Devices.Ensure(a.registry, id, key, allowCreate, now, p);
        verdict == v && accounts == old(accounts)[accountId := a.(registry := r)]
    {
      var a := accounts[accountId];
      assert accounts == accounts[accountId := a];
      verdict := Devices.Refusal(a.registry, id, key, allowCreate, now, p);
      if verdict == Devices.Admitted {
        var devices, enrollments := a.registry.devices, a.registry.enrollments;
        if id !in devices {
          devices := devices[id := Devices.Device(key, now, None)];
          enrollments := enrollments + [Devices.Enrollment(id, now)];
        }
        var row := devices[id];
        assert row.revokedAt == None;
        devices := devices[id := row.(key := if row.key.Some? then row.key else key, lastSeen := now)];
        assert devices == a.registry.devices[id := Devices.Seen(a.registry, id, key, now)];
        accounts := accounts[accountId := a.(registry := Devices.Registry(devices, enrollments))];
      }
    }

    method RevokeDevice(accountId: string, id: string, now: Instant) returns (changed: bool)
      modifies this`accounts
      ensures accountId !in old(accounts) ==> !changed && accounts == old(accounts)
      ensures accountId in old(accounts) ==>
        var a := old(accounts)[accountId];
        var (c, r) := Devices.Revoke(a.registry, id, now);
        changed == c && accounts == old(accounts)[accountId := a.(registry := r)]
    {
      changed := false;
      if accountId in accounts {
        var a := accounts[accountId];
        if id in a.registry.devices && a.registry.devices[id].revokedAt.None? {
          var row := a.registry.devices[id].(revokedAt := Some(now));
          accounts := accounts[accountId := a.(registry := a.registry.(devices := a.registry.devices[id := row]))];
          changed := true;
        }
      }
    }

    /** The minimum over activeDeviceCursors. */
    method LeastCursor(a: Account, now: int, idleTtl: nat) returns (least: Option<nat>)
      ensures least == SlowestCursor(a, now, idleTtl)
    {
      var active := Devices.Active(a.registry, now, idleTtl);
      if active == {} {
        return None;
      }
      var first :| first in active;
      var cursor, rest := CursorOf(a, first), active - {first};
      while rest != {}
        invariant rest <= active
        invariant forall d :: d in active - rest ==> cursor <= CursorOf(a, d)
        invariant exists d :: d in active && cursor == CursorOf(a, d)
        decreases rest
      {
        var d :| d in rest;
        if CursorOf(a, d) < cursor {
          cursor := CursorOf(a, d);
        }
        rest := rest - {d};
      }
      assert active - rest == active;
      return Some(cursor);
    }

    /** compactSyncMutationsInTransaction on the transaction's copy of the account. */
    method CompactInTransaction(a: Account, now: int, idleTtl: nat, maxRows: nat) returns (kept: Account)
      ensures kept == Compact(a, now, idleTtl, maxRows)
    {
      hide SlowestCursor, DropBehind;
      var least := LeastCursor(a, now, idleTtl);
      if least.None? || least.value == 0 {
        return a;
      }
      var log := DeleteRows(a.log, least.value, maxRows);
      return a.(log := log);
    }

    /** Delete up to `maxRows` rows at or below the cursor, oldest first. */
    method DeleteRows(rows: seq<Row>, cursor: nat, maxRows: nat) returns (log: seq<Row>)
      ensures log == DropBehind(rows, cursor, maxRows)
    {
      log := [];
      var deleted, i := 0, 0;
      while i < |rows|
        invariant 0 <= i <= |rows| && deleted <= maxRows
        invariant log + DropBehind(rows[i..], cursor, maxRows - deleted) == DropBehind(rows, cursor, maxRows)
      {
        DropNext(rows, i, cursor, maxRows - deleted);
        if rows[i].sequence <= cursor && deleted < maxRows {
          deleted := deleted + 1;
        } else {
          log := log + [rows[i]];
        }
        i := i + 1;
      }
    }

    static lemma DropNext(log: seq<Row>, i: nat, cursor: nat, left: nat)
      requires i < |log|
      ensures DropBehind(log[i..], cursor, left) ==
        if log[i].sequence <= cursor && left > 0 then DropBehind(log[i + 1..], cursor, left - 1)
        else [log[i]] + DropBehind(log[i + 1..], cursor, left)
    {
      assert log[i..][1..] == log[i + 1..];
    }

    method CompactSyncMutations(accountId: string, now: int, idleTtl: nat, maxRows: nat)
      modifies this`accounts
      ensures accounts == if accountId in old(accounts)
        then old(accounts)[accountId := Compact(old(accounts)[accountId], now, idleTtl, maxRows)] else old(accounts)
    {
      if accountId in accounts {
        var kept := CompactInTransaction(accounts[accountId], now, idleTtl, maxRows);
        accounts := accounts[accountId := kept];
      }
    }

    /**
     * push. Every failure leaves all tables and the row counter as they were; success leaves the
     * other accounts alone and reports each id of the batch as accepted or rejected.
     */
    method Push(accountId: string, deviceId: string, mutations: seq<Option<Mutation>>, quota: int,
                now: int, idleTtl: nat, maxRows: nat) returns (reply: PushReply)
      modifies this
      ensures reply.PushFailed? ==> accounts == old(accounts) && lastRowid == old(lastRowid)
      ensures None in mutations ==> reply == PushFailed(InvalidMutation)
      ensures None !in mutations && quota < 1 ==> reply == PushFailed(InvalidQuota)
      ensures None !in mutations && quota >= 1 && accountId !in old(accounts) ==>
        && accounts == old(accounts) && lastRowid == old(lastRowid)
        && reply == if mutations == [] then PushOk([], [], None)
                    else PushFailed(if Size(mutations[0].value) > quota then AccountQuota else MissingAccount)
      ensures None !in mutations && quota >= 1 && accountId in old(accounts) ==>
        var batch := Validated(mutations);
        match SyncModel.Push(old(accounts)[accountId], old(lastRowid), deviceId, batch, quota, now, idleTtl, maxRows)
        case Refused(error) => reply == PushFailed(error)
        case Pushed(account, rowid, verdicts) =>
          && accounts == old(accounts)[accountId := account] && lastRowid == rowid
          && |verdicts| == |batch|
          && reply == PushOk(AcceptedIds(batch, verdicts), RejectedIds(batch, verdicts), LatestCursor(account))
          && multiset(reply.acceptedIds) + multiset(reply.rejectedIds) == multiset(SyncPush.Ids(batch))
    {
      if None in mutations {
        return PushFailed(InvalidMutation);
      }
      if quota < 1 {
        return PushFailed(InvalidQuota);
      }
      var batch := Validated(mutations);
      if accountId !in accounts {
        if batch == [] {
          return PushOk([], [], None);
        }
        return PushFailed(if Size(batch[0]) > quota then AccountQuota else MissingAccount);
      }
      var a := CompactInTransaction(accounts[accountId], now, idleTtl, maxRows);
      var attempt, acceptedIds, rejectedIds := WriteBatch(Opened(a, lastRowid), batch, deviceId, quota);
      if attempt.Abort? {
        return PushFailed(attempt.error);
      }
      var d := attempt.draft;
      accounts := accounts[accountId := a.(log := d.log, heads := d.heads, lastSequence := d.lastSequence)];
      lastRowid := d.rowid;
      SyncPush.EveryIdAnswered(batch, d.verdicts);
      return PushOk(acceptedIds, rejectedIds, LatestCursor(accounts[accountId]));
    }

    /** The body of push's transaction: one pass over the batch, stopping at the first error. */
    method WriteBatch(start: Draft, batch: seq<Mutation>, deviceId: string, quota: int)
      returns (attempt: Attempt, acceptedIds: seq<string>, rejectedIds: seq<string>)
      requires start.verdicts == []
      ensures attempt == PushAll(start, batch, deviceId, quota)
      ensures attempt.Next? ==>
        && |attempt.draft.verdicts| == |batch|
        && acceptedIds == AcceptedIds(batch, attempt.draft.verdicts)
        && rejectedIds == RejectedIds(batch, attempt.draft.verdicts)
    {
      NothingYet(start, batch, deviceId, quota);
      hide AcceptedIds, RejectedIds, PushAll;
      var d := start;
      acceptedIds, rejectedIds := [], [];
      var i := 0;
      while i < |batch|
        invariant 0 <= i <= |batch| && |d.verdicts| == i
        invariant PushAll(d, batch[i..], deviceId, quota) == PushAll(start, batch, deviceId, quota)
        invariant acceptedIds == AcceptedIds(batch[..i], d.verdicts)
        invariant rejectedIds == RejectedIds(batch[..i], d.verdicts)
      {
        var m := batch[i];
        ghost var before := d.verdicts;
        NextInBatch(d, batch, i, deviceId, quota);
        var duplicate := FindId(d.log, m.id);
        if duplicate.Some? {
          if duplicate.value.mutation != m {
            return Abort(MutationConflict), [], [];
          }
          d := d.(verdicts := d.verdicts + [Duplicate]);
          acceptedIds := acceptedIds + [m.id];
        } else if m.entity in d.heads && m.revision <= d.heads[m.entity].revision {
          d := d.(verdicts := d.verdicts + [Stale]);
          rejectedIds := rejectedIds + [m.id];
        } else {
          var projectedBytes := d.bytes + Size(m);
          if projectedBytes > quota {
            return Abort(AccountQuota), [], [];
          }
          var sequence := d.rowid + 1;
          d := d.(
            log := d.log + [Row(sequence, m, deviceId)],
            lastSequence := if d.lastSequence < sequence then sequence else d.lastSequence,
            heads := d.heads[m.entity := Head(m.revision, m.id, sequence)],
            rowid := sequence, bytes := projectedBytes, verdicts := d.verdicts + [Inserted]);
          acceptedIds := acceptedIds + [m.id];
        }
        AnswerGrows(batch, i, before, d.verdicts[i]);
        i := i + 1;
      }
      assert batch[..i] == batch && batch[i..] == [];
      BatchDone(d, deviceId, quota);
      return Next(d), acceptedIds, rejectedIds;
    }

    static lemma NothingYet(d: Draft, batch: seq<Mutation>, device: string, quota: int)
      ensures batch[0..] == batch && AcceptedIds(batch[..0], []) == [] && RejectedIds(batch[..0], []) == []
    {
    }

    static lemma NextInBatch(d: Draft, batch: seq<Mutation>, i: nat, device: string, quota: int)
      requires i < |batch|
      ensures PushAll(d, batch[i..], device, quota) ==
        match PushOne(d, batch[i], device, quota)
        case Abort(error) => Abort(error)
        case Next(d') => PushAll(d', batch[i + 1..], device, quota)
    {
      assert batch[i..][1..] == batch[i + 1..];
    }

    static lemma AnswerGrows(batch: seq<Mutation>, i: nat, verdicts: seq<Verdict>, v: Verdict)
      requires |verdicts| == i < |batch|
      ensures AcceptedIds(batch[..i + 1], verdicts + [v])
           == AcceptedIds(batch[..i], verdicts) + (if v.Stale? then [] else [batch[i].id])
      ensures RejectedIds(batch[..i + 1], verdicts + [v])
           == RejectedIds(batch[..i], verdicts) + (if v.Stale? then [batch[i].id] else [])
    {
      assert batch[..i + 1][..i] == batch[..i] && (verdicts + [v])[..i] == verdicts;
    }

    static lemma BatchDone(d: Draft, device: string, quota: int)
      ensures PushAll(d, [], device, quota) == Next(d)
    {
    }

    /** SELECT ... WHERE sequence > after [AND owner_profile_id = profile] ORDER BY sequence LIMIT limit. */
    method SelectPage(log: seq<Row>, after: nat, profile: nat, limit: nat) returns (page: seq<Row>)
      ensures page == Page(log, after, profile, limit)
    {
      page := [];
      var i := 0;
      while i < |log| && |page| < limit
        invariant 0 <= i <= |log| && |page| <= limit
        invariant page + Page(log[i..], after, profile, limit - |page|) == Page(log, after, profile, limit)
      {
        assert log[i..][1..] == log[i + 1..];
        if Wanted(log[i], after, profile) {
          page := page + [log[i]];
        }
        i := i + 1;
      }
    }

    /** pull: serve a page, record the cursor served, compact, in one transaction. */
    method Pull(accountId: string, deviceId: string, cursor: Option<nat>, limit: nat, profile: nat,
                now: int, idleTtl: nat, maxRows: nat) returns (response: Option<Response>)
      modifies this`accounts
      ensures accountId !in old(accounts) ==> response == None && accounts == old(accounts)
      ensures accountId in old(accounts) ==>
        match SyncModel.Pull(old(accounts)[accountId], deviceId, cursor, limit, profile, now, idleTtl, maxRows)
        case UnknownDevice => response == None && accounts == old(accounts)
        case Pulled(account, served) => response == Some(served) && accounts == old(accounts)[accountId := account]
    {
      if accountId !in accounts || deviceId !in accounts[accountId].registry.devices {
        return None;
      }
      var a := accounts[accountId];
      var after := Min(cursor.GetOr(0), a.lastSequence);
      var page := SelectPage(a.log, after, profile, limit);
      var next := if page == [] then after else page[|page| - 1].sequence;
      var more := SelectPage(a.log, next, profile, 1);
      var key := CursorKey(deviceId, profile);
      var stored := if key in a.cursors then Max(a.cursors[key], next) else next;
      var kept := CompactInTransaction(a.(cursors := a.cursors[key := stored]), now, idleTtl, maxRows);
      accounts := accounts[accountId := kept];
      return Some(Response(page, if page != [] || after > 0 then Some(next) else None, more != []));
    }
  }
}
