/**
 * The sync log of one account, as functions on its rows: what push, pull and compaction do.
 *
 * The SQL tables are keyed by account_id and every statement filters on it, so an account is a
 * value of its own; only the AUTOINCREMENT counter of sync_mutations is shared by all accounts.
 */
module SyncModel {
  import opened Wrappers
  import Devices

  datatype Entity = Entity(kind: string, id: string, profile: nat)

  datatype Mutation = Mutation(
    id: string, entity: Entity, revision: nat, deleted: bool, ciphertext: Option<string>, updatedAt: nat)

  datatype Row = Row(sequence: nat, mutation: Mutation, device: string)

  datatype Head = Head(revision: nat, mutationId: string, sequence: nat)

  /** A pull cursor's key: the device and the profile it pulls, 0 for all profiles. */
  datatype CursorKey = CursorKey(device: string, profile: nat)

  datatype Account = Account(
    log: seq<Row>, heads: map<Entity, Head>, registry: Devices.Registry,
    cursors: map<CursorKey, nat>, lastSequence: nat)

  const NEW_ACCOUNT := Account([], map[], Devices.EMPTY, map[], 0)

  /* ---- compaction ---- */

  function CursorOf(a: Account, device: string): nat {
    var key := CursorKey(device, 0);
    if key in a.cursors then a.cursors[key] else 0
  }

  /** The smallest unscoped cursor of an active device; none when no device is active. */
  ghost function SlowestCursor(a: Account, now: int, idleTtl: nat): (r: Option<nat>)
    ensures r.None? <==> Devices.Active(a.registry, now, idleTtl) == {}
    ensures r.Some? ==> forall d :: d in Devices.Active(a.registry, now, idleTtl) ==> r.value <= CursorOf(a, d)
    ensures r.Some? ==> exists d :: d in Devices.Active(a.registry, now, idleTtl) && r.value == CursorOf(a, d)
  {
    var active := Devices.Active(a.registry, now, idleTtl);
    if active == {} then None
    else
      var d := Slowest(a, active);
      Some(CursorOf(a, d))
  }

  ghost function Slowest(a: Account, active: set<string>): (d: string)
    requires active != {}
    ensures d in active
    ensures forall e :: e in active ==> CursorOf(a, d) <= CursorOf(a, e)
  {
    var x :| x in active;
    if active == {x} then x
    else
      var y := Slowest(a, active - {x});
      if CursorOf(a, x) < CursorOf(a, y) then x else y
  }

  /** Delete the first `maxRows` rows, in table order, whose sequence is at most `cursor`. */
  function DropBehind(log: seq<Row>, cursor: nat, maxRows: nat): seq<Row> {
    if log == [] || maxRows == 0 then log
    else if log[0].sequence <= cursor then DropBehind(log[1..], cursor, maxRows - 1)
    else [log[0]] + DropBehind(log[1..], cursor, maxRows)
  }

  /** compactSyncMutationsInTransaction. */
  ghost function Compact(a: Account, now: int, idleTtl: nat, maxRows: nat): (kept: Account)
    ensures kept == a.(log := kept.log)
  {
    match SlowestCursor(a, now, idleTtl)
    case None => a
    case Some(cursor) => if cursor == 0 then a else a.(log := DropBehind(a.log, cursor, maxRows))
  }

  /* ---- push ---- */

  datatype PushError = InvalidMutation | InvalidQuota | MutationConflict | AccountQuota | MissingAccount

  datatype Verdict = Inserted | Duplicate | Stale

  /** The transaction while `push` walks over the batch. */
  datatype Draft = Draft(
    log: seq<Row>, heads: map<Entity, Head>, lastSequence: nat, rowid: nat, bytes: nat, verdicts: seq<Verdict>)

  datatype Attempt = Next(draft: Draft) | Abort(error: PushError)

  function Size(m: Mutation): nat {
    if m.ciphertext.Some? then |m.ciphertext.value| else 0
  }

  function Bytes(log: seq<Row>): nat {
    if log == [] then 0 else Size(log[0].mutation) + Bytes(log[1..])
  }

  /** The retained row with this mutation id. */
  function FindId(log: seq<Row>, id: string): (r: Option<Row>)
    ensures r.None? <==> forall row :: row in log ==> row.mutation.id != id
    ensures r.Some? ==> r.value in log && r.value.mutation.id == id
  {
    if log == [] then None
    else if log[0].mutation.id == id then Some(log[0])
    else FindId(log[1..], id)
  }

  function PushOne(d: Draft, m: Mutation, device: string, quota: int): Attempt {
    var duplicate := FindId(d.log, m.id);
    if duplicate.Some? then
      if duplicate.value.mutation == m then Next(d.(verdicts := d.verdicts + [Duplicate]))
      else Abort(MutationConflict)
    else if m.entity in d.heads && m.revision <= d.heads[m.entity].revision then
      Next(d.(verdicts := d.verdicts + [Stale]))
    else if d.bytes + Size(m) > quota then
      Abort(AccountQuota)
    else
      var sequence := d.rowid + 1;
      Next(Draft(
        d.log + [Row(sequence, m, device)],
        d.heads[m.entity := Head(m.revision, m.id, sequence)],
        if d.lastSequence < sequence then sequence else d.lastSequence,
        sequence,
        d.bytes + Size(m),
        d.verdicts + [Inserted]))
  }

  function PushAll(d: Draft, batch: seq<Mutation>, device: string, quota: int): Attempt
    decreases |batch|
  {
    if batch == [] then Next(d)
    else
      match PushOne(d, batch[0], device, quota)
      case Abort(error) => Abort(error)
      case Next(d') => PushAll(d', batch[1..], device, quota)
  }

  function Opened(a: Account, rowid: nat): Draft {
    Draft(a.log, a.heads, a.lastSequence, rowid, Bytes(a.log), [])
  }

  /** Ids of the batch the response reports as accepted, in order. */
  function AcceptedIds(batch: seq<Mutation>, verdicts: seq<Verdict>): seq<string>
    requires |batch| == |verdicts|
  {
    if batch == [] then []
    else
      var n := |batch| - 1;
      AcceptedIds(batch[..n], verdicts[..n]) + (if verdicts[n].Stale? then [] else [batch[n].id])
  }

  /** Ids of the batch the response reports as rejected, in order. */
  function RejectedIds(batch: seq<Mutation>, verdicts: seq<Verdict>): seq<string>
    requires |batch| == |verdicts|
  {
    if batch == [] then []
    else
      var n := |batch| - 1;
      RejectedIds(batch[..n], verdicts[..n]) + (if verdicts[n].Stale? then [batch[n].id] else [])
  }

  /** What push leaves behind: the account, the counter, and one verdict per mutation; or an error. */
  datatype PushResult =
    | Pushed(account: Account, rowid: nat, verdicts: seq<Verdict>)
    | Refused(error: PushError)

  ghost function Push(a: Account, rowid: nat, device: string, batch: seq<Mutation>, quota: int,
                      now: int, idleTtl: nat, maxRows: nat): PushResult {
    if quota < 1 then Refused(InvalidQuota)
    else
      var kept := Compact(a, now, idleTtl, maxRows);
      match PushAll(Opened(kept, rowid), batch, device, quota)
      case Abort(error) => Refused(error)
      case Next(d) =>
        Pushed(kept.(log := d.log, heads := d.heads, lastSequence := d.lastSequence), d.rowid, d.verdicts)
  }

  /* ---- pull ---- */

  predicate Wanted(row: Row, after: nat, profile: nat) {
    row.sequence > after && (profile == 0 || row.mutation.entity.profile == profile)
  }

  /** The first `limit` rows past `after`, of one profile or (0) of all. */
  function Page(log: seq<Row>, after: nat, profile: nat, limit: nat): (page: seq<Row>)
    ensures |page| <= limit
  {
    if log == [] || limit == 0 then []
    else if Wanted(log[0], after, profile) then [log[0]] + Page(log[1..], after, profile, limit - 1)
    else Page(log[1..], after, profile, limit)
  }

  function Min(x: nat, y: nat): nat { if x < y then x else y }

  function Max(x: nat, y: nat): nat { if x < y then y else x }

  /** The row position a pull leaves its caller at. */
  function NextCursor(page: seq<Row>, after: nat): nat {
    if page == [] then after else page[|page| - 1].sequence
  }

  datatype Response = Response(page: seq<Row>, nextCursor: Option<nat>, hasMore: bool)

  function Serve(a: Account, cursor: Option<nat>, limit: nat, profile: nat): Response {
    var after := Min(cursor.GetOr(0), a.lastSequence);
    var page := Page(a.log, after, profile, limit);
    var next := NextCursor(page, after);
    Response(page, if page != [] || after > 0 then Some(next) else None, Page(a.log, next, profile, 1) != [])
  }

  /** Record the cursor just served; it never moves back. */
  function Acknowledge(a: Account, device: string, profile: nat, next: nat): Account {
    var key := CursorKey(device, profile);
    a.(cursors := a.cursors[key := if key in a.cursors then Max(a.cursors[key], next) else next])
  }

  datatype PullResult = Pulled(account: Account, response: Response) | UnknownDevice

  /** The foreign key of sync_device_cursors makes a pull by an unregistered device fail. */
  ghost function Pull(a: Account, device: string, cursor: Option<nat>, limit: nat, profile: nat,
                      now: int, idleTtl: nat, maxRows: nat): PullResult {
    if device !in a.registry.devices then UnknownDevice
    else
      var response := Serve(a, cursor, limit, profile);
      var after := Min(cursor.GetOr(0), a.lastSequence);
      var noted := Acknowledge(a, device, profile, NextCursor(response.page, after));
      Pulled(Compact(noted, now, idleTtl, maxRows), response)
  }
}
