/**
 * Every run of one account: what each step of push, pull, compaction, enrolment and revocation
 * keeps, whatever the other devices do in between.
 */
module SyncRuns {
  import opened Wrappers
  import opened SyncModel
  import Devices

  /** The account, the shared row counter, and (for the proof) every row ever accepted. */
  datatype World = World(account: Account, rowid: nat, history: seq<Row>)

  const START := World(NEW_ACCOUNT, 0, [])

  datatype Action =
    | PushAct(device: string, batch: seq<Mutation>, quota: int, now: Instant, idleTtl: nat, maxRows: nat)
    | PullAct(device: string, cursor: Option<nat>, limit: nat, profile: nat, now: Instant, idleTtl: nat, maxRows: nat)
    | CompactAct(now: Instant, idleTtl: nat, maxRows: nat)
    | EnsureAct(id: string, key: Option<string>, allowCreate: bool, now: Instant, policy: Devices.Policy)
    | RevokeAct(id: string, now: Instant)
    | ElsewhereAct(rows: nat)  // other accounts insert rows: only the counter moves

  ghost function Apply(w: World, act: Action): World {
    var a := w.account;
    match act
    case PushAct(device, batch, quota, now, idleTtl, maxRows) =>
      (match Push(a, w.rowid, device, batch, quota, now, idleTtl, maxRows)
       case Refused(_) => w
       case Pushed(a', rowid', _) =>
         World(a', rowid', w.history + NewRows(Compact(a, now, idleTtl, maxRows).log, a'.log)))
    case PullAct(device, cursor, limit, profile, now, idleTtl, maxRows) =>
      (match Pull(a, device, cursor, limit, profile, now, idleTtl, maxRows)
       case UnknownDevice => w
       case Pulled(a', _) => w.(account := a'))
    case CompactAct(now, idleTtl, maxRows) => w.(account := Compact(a, now, idleTtl, maxRows))
    case EnsureAct(id, key, allowCreate, now, policy) =>
      w.(account := a.(registry := Devices.Ensure(a.registry, id, key, allowCreate, now, policy).1))
    case RevokeAct(id, now) => w.(account := a.(registry := Devices.Revoke(a.registry, id, now).1))
    case ElsewhereAct(rows) => w.(rowid := w.rowid + rows)
  }

  ghost function Run(w: World, acts: seq<Action>): World
    decreases |acts|
  {
    if acts == [] then w else Run(Apply(w, acts[0]), acts[1..])
  }

  /** The rows a push appended to the log it started from. */
  function NewRows(before: seq<Row>, after: seq<Row>): seq<Row> {
    if |before| <= |after| then after[|before|..] else []
  }

  /* ---- the invariant ---- */

  ghost predicate Sorted(log: seq<Row>) {
    && (forall i :: 0 <= i < |log| ==> log[i].sequence > 0)
    && (forall i, j :: 0 <= i < j < |log| ==> log[i].sequence < log[j].sequence)
  }

  ghost predicate RevisionsGrow(log: seq<Row>) {
    forall i, j :: 0 <= i < j < |log| && log[i].mutation.entity == log[j].mutation.entity
      ==> log[i].mutation.revision < log[j].mutation.revision
  }

  ghost predicate DistinctIds(log: seq<Row>) {
    forall i, j :: 0 <= i < j < |log| ==> log[i].mutation.id != log[j].mutation.id
  }

  ghost predicate Suffix(log: seq<Row>, history: seq<Row>) {
    |log| <= |history| && log == history[|history| - |log|..]
  }

  /** The simple thing the heads index stands for: the last row of each entity. */
  function HeadsOf(history: seq<Row>): map<Entity, Head> {
    if history == [] then map[]
    else
      var n := |history| - 1;
      HeadsOf(history[..n])[history[n].mutation.entity := HeadOf(history[n])]
  }

  function HeadOf(row: Row): Head {
    Head(row.mutation.revision, row.mutation.id, row.sequence)
  }

  function LastSequence(history: seq<Row>): nat {
    if history == [] then 0 else history[|history| - 1].sequence
  }

  ghost predicate Coherent(log: seq<Row>, heads: map<Entity, Head>, lastSequence: nat, rowid: nat, history: seq<Row>) {
    && Sorted(history)
    && RevisionsGrow(history)
    && Suffix(log, history)
    && DistinctIds(log)
    && heads == HeadsOf(history)
    && lastSequence == LastSequence(history) <= rowid
  }

  ghost predicate Inv(w: World) {
    var a := w.account;
    && Coherent(a.log, a.heads, a.lastSequence, w.rowid, w.history)
    && (forall k :: k in a.cursors ==> k.device in a.registry.devices && a.cursors[k] <= a.lastSequence)
  }

  /* ---- heads ---- */

  /** A head's revision bounds every row of its entity, and is that of the entity's last row. */
  lemma {:induction false} HeadBoundsRow(history: seq<Row>, i: nat)
    requires RevisionsGrow(history) && i < |history|
    ensures history[i].mutation.entity in HeadsOf(history)
    ensures history[i].mutation.revision <= HeadsOf(history)[history[i].mutation.entity].revision
    ensures (forall j :: i < j < |history| ==> history[j].mutation.entity != history[i].mutation.entity)
      ==> HeadsOf(history)[history[i].mutation.entity] == HeadOf(history[i])
  {
    var n := |history| - 1;
    if i < n {
      HeadBoundsRow(history[..n], i);
    }
  }

  /** Every head comes from a row of the history. */
  lemma {:induction false} HeadHasRow(history: seq<Row>, e: Entity) returns (i: nat)
    requires e in HeadsOf(history)
    ensures i < |history| && history[i].mutation.entity == e && HeadsOf(history)[e] == HeadOf(history[i])
  {
    var n := |history| - 1;
    if history[n].mutation.entity == e {
      i := n;
    } else {
      i := HeadHasRow(history[..n], e);
    }
  }

  /* ---- compaction drops a prefix ---- */

  lemma {:induction false} DropsPrefix(log: seq<Row>, cursor: nat, maxRows: nat)
    requires Sorted(log)
    ensures Suffix(DropBehind(log, cursor, maxRows), log)
    ensures forall i :: 0 <= i < |log| - |DropBehind(log, cursor, maxRows)| ==> log[i].sequence <= cursor
  {
    if log == [] || maxRows == 0 {
    } else if log[0].sequence <= cursor {
      DropsPrefix(log[1..], cursor, maxRows - 1);
      var n := |log| - |DropBehind(log, cursor, maxRows)|;
      forall i | 0 <= i < n ensures log[i].sequence <= cursor {
        if i > 0 { assert log[i] == log[1..][i - 1]; }
      }
    } else {
      DropsNothing(log, cursor, maxRows);
    }
  }

  lemma {:induction false} DropsNothing(log: seq<Row>, cursor: nat, maxRows: nat)
    requires Sorted(log) && (log != [] ==> log[0].sequence > cursor)
    ensures DropBehind(log, cursor, maxRows) == log
  {
    if log != [] && maxRows > 0 {
      DropsNothing(log[1..], cursor, maxRows);
    }
  }

  lemma SuffixTransitive(a: seq<Row>, b: seq<Row>, c: seq<Row>)
    requires Suffix(a, b) && Suffix(b, c)
    ensures Suffix(a, c)
  {
  }

  lemma DropKeepsCoherent(log: seq<Row>, kept: seq<Row>, heads: map<Entity, Head>, lastSequence: nat, rowid: nat,
                          history: seq<Row>)
    requires Coherent(log, heads, lastSequence, rowid, history) && Suffix(kept, log)
    ensures Coherent(kept, heads, lastSequence, rowid, history)
  {
    hide Sorted, RevisionsGrow, HeadsOf;
    assert forall i :: 0 <= i < |kept| ==> kept[i] == log[|log| - |kept| + i];
    SuffixTransitive(kept, log, history);
  }

  lemma LogSorted(w: World)
    requires Inv(w)
    ensures Sorted(w.account.log)
  {
  }

  lemma CompactDrops(a: Account, now: int, idleTtl: nat, maxRows: nat)
    requires Sorted(a.log)
    ensures var kept := Compact(a, now, idleTtl, maxRows);
      && kept == a.(log := kept.log)
      && Suffix(kept.log, a.log)
      && forall d, i :: d in Devices.Active(a.registry, now, idleTtl) && 0 <= i < |a.log| - |kept.log|
           ==> a.log[i].sequence <= CursorOf(a, d)
  {
    match SlowestCursor(a, now, idleTtl)
    case None =>
    case Some(cursor) => DropsPrefix(a.log, cursor, maxRows);
  }

  /**
   * Compaction removes only rows that every active device has already been served, and an
   * active device that never made an unscoped pull holds back everything.
   */
  lemma CompactRemovesServed(w: World, now: int, idleTtl: nat, maxRows: nat)
    requires Inv(w)
    ensures Inv(w.(account := Compact(w.account, now, idleTtl, maxRows)))
    ensures var kept := Compact(w.account, now, idleTtl, maxRows).log;
            && Suffix(kept, w.account.log)
            && forall d, i :: d in Devices.Active(w.account.registry, now, idleTtl) && 0 <= i < |w.account.log| - |kept|
                 ==> w.account.log[i].sequence <= CursorOf(w.account, d)
  {
    var a := w.account;
    LogSorted(w);
    CompactDrops(a, now, idleTtl, maxRows);
    var kept := Compact(a, now, idleTtl, maxRows);
    hide Coherent, Sorted, Suffix, Compact;
    DropKeepsCoherent(a.log, kept.log, a.heads, a.lastSequence, w.rowid, w.history);
  }

  /* ---- push ---- */

  ghost predicate DraftCoherent(d: Draft, history: seq<Row>) {
    Coherent(d.log, d.heads, d.lastSequence, d.rowid, history)
  }

  lemma AppendKeepsOrder(history: seq<Row>, row: Row)
    requires Sorted(history) && RevisionsGrow(history)
    requires LastSequence(history) < row.sequence
    requires row.mutation.entity in HeadsOf(history)
      ==> HeadsOf(history)[row.mutation.entity].revision < row.mutation.revision
    ensures Sorted(history + [row]) && RevisionsGrow(history + [row])
    ensures HeadsOf(history + [row]) == HeadsOf(history)[row.mutation.entity := HeadOf(row)]
  {
    assert (history + [row])[..|history|] == history;
    forall i | 0 <= i < |history|
      ensures history[i].sequence < row.sequence
      ensures history[i].mutation.entity == row.mutation.entity ==> history[i].mutation.revision < row.mutation.revision
    {
      HeadBoundsRow(history, i);
      assert history[i].sequence <= LastSequence(history);
    }
  }

  lemma AppendKeepsSuffix(log: seq<Row>, history: seq<Row>, row: Row)
    requires Suffix(log, history) && DistinctIds(log)
    requires FindId(log, row.mutation.id).None?
    ensures Suffix(log + [row], history + [row]) && DistinctIds(log + [row])
  {
    forall i | 0 <= i < |log| ensures log[i].mutation.id != row.mutation.id {
      assert log[i] in log;
    }
  }

  /** A retained duplicate is covered by its entity's head. */
  lemma DuplicateCovered(log: seq<Row>, history: seq<Row>, row: Row)
    requires Suffix(log, history) && RevisionsGrow(history) && row in log
    ensures row.mutation.entity in HeadsOf(history)
    ensures row.mutation.revision <= HeadsOf(history)[row.mutation.entity].revision
  {
    var k :| 0 <= k < |log| && log[k] == row;
    HeadBoundsRow(history, |history| - |log| + k);
  }

  /** Every mutation of `batch` is at or below the head of its entity. */
  ghost predicate Covers(heads: map<Entity, Head>, batch: seq<Mutation>) {
    forall m :: m in batch ==> m.entity in heads && m.revision <= heads[m.entity].revision
  }

  ghost predicate HeadsRise(before: map<Entity, Head>, after: map<Entity, Head>) {
    forall e :: e in before ==> e in after && before[e].revision <= after[e].revision
  }

  /** What one mutation appends to the log: itself, under the next sequence number, or nothing. */
  function Gain(d: Draft, d': Draft, m: Mutation, device: string): seq<Row> {
    if d'.rowid == d.rowid then [] else [Row(d.rowid + 1, m, device)]
  }

  /** The one row a mutation adds, when it is neither a duplicate nor stale. */
  lemma InsertKeeps(d: Draft, m: Mutation, device: string, history: seq<Row>)
    requires DraftCoherent(d, history)
    requires FindId(d.log, m.id).None?
    requires m.entity in d.heads ==> d.heads[m.entity].revision < m.revision
    ensures var row := Row(d.rowid + 1, m, device);
      Coherent(d.log + [row], d.heads[m.entity := HeadOf(row)], row.sequence, row.sequence, history + [row])
  {
    var row := Row(d.rowid + 1, m, device);
    AppendKeepsOrder(history, row);
    AppendKeepsSuffix(d.log, history, row);
  }

  lemma PushOneKeeps(d: Draft, m: Mutation, device: string, quota: int, history: seq<Row>)
    requires DraftCoherent(d, history)
    requires PushOne(d, m, device, quota).Next?
    ensures var d' := PushOne(d, m, device, quota).draft;
      && d'.log == d.log + Gain(d, d', m, device)
      && DraftCoherent(d', history + Gain(d, d', m, device))
      && Covers(d'.heads, [m])
      && HeadsRise(d.heads, d'.heads)
  {
    hide Coherent;
    var d' := PushOne(d, m, device, quota).draft;
    var duplicate := FindId(d.log, m.id);
    if d'.rowid == d.rowid {
      assert history + [] == history && d.log + [] == d.log;
      if duplicate.Some? {
        CoherentCovers(d, history, duplicate.value);
      }
    } else {
      InsertKeeps(d, m, device, history);
      CoherentCounts(d, history);
    }
  }

  lemma CoherentCovers(d: Draft, history: seq<Row>, row: Row)
    requires DraftCoherent(d, history) && row in d.log
    ensures row.mutation.entity in d.heads && row.mutation.revision <= d.heads[row.mutation.entity].revision
  {
    DuplicateCovered(d.log, history, row);
  }

  lemma CoherentCounts(d: Draft, history: seq<Row>)
    requires DraftCoherent(d, history)
    ensures d.lastSequence <= d.rowid
  {
  }

  /** Heads covering a batch's first mutation, and then risen to cover the rest, cover it all. */
  lemma CoversAll(start: map<Entity, Head>, one: map<Entity, Head>, all: map<Entity, Head>, batch: seq<Mutation>)
    requires batch != [] && Covers(one, [batch[0]]) && Covers(all, batch[1..])
    requires HeadsRise(start, one) && HeadsRise(one, all)
    ensures Covers(all, batch) && HeadsRise(start, all)
  {
    assert batch[0] in [batch[0]];
    assert forall m :: m in batch ==> m == batch[0] || m in batch[1..];
  }

  lemma {:induction false} PushAllKeeps(d: Draft, batch: seq<Mutation>, device: string, quota: int, history: seq<Row>)
    returns (gain: seq<Row>)
    requires DraftCoherent(d, history)
    requires PushAll(d, batch, device, quota).Next?
    ensures PushAll(d, batch, device, quota).draft.log == d.log + gain
    ensures DraftCoherent(PushAll(d, batch, device, quota).draft, history + gain)
    ensures Covers(PushAll(d, batch, device, quota).draft.heads, batch)
    ensures HeadsRise(d.heads, PushAll(d, batch, device, quota).draft.heads)
    decreases |batch|
  {
    hide DraftCoherent, Covers, HeadsRise, PushOne, PushAll, Gain;
    if batch == [] {
      gain := [];
      PushNothing(d, device, quota);
      assert history + gain == history && d.log + gain == d.log;
    } else {
      PushAllUnfolds(d, batch, device, quota);
      PushOneKeeps(d, batch[0], device, quota, history);
      var d1 := PushOne(d, batch[0], device, quota).draft;
      var first := Gain(d, d1, batch[0], device);
      var rest := PushAllKeeps(d1, batch[1..], device, quota, history + first);
      gain := first + rest;
      assert history + first + rest == history + gain && d.log + first + rest == d.log + gain;
      CoversAll(d.heads, d1.heads, PushAll(d1, batch[1..], device, quota).draft.heads, batch);
    }
  }

  lemma PushNothing(d: Draft, device: string, quota: int)
    ensures PushAll(d, [], device, quota) == Next(d)
    ensures Covers(d.heads, []) && HeadsRise(d.heads, d.heads)
  {
  }

  lemma PushAllUnfolds(d: Draft, batch: seq<Mutation>, device: string, quota: int)
    requires batch != [] && PushAll(d, batch, device, quota).Next?
    ensures PushOne(d, batch[0], device, quota).Next?
    ensures PushAll(d, batch, device, quota) ==
            PushAll(PushOne(d, batch[0], device, quota).draft, batch[1..], device, quota)
  {
    hide PushOne;
  }

  /* ---- every step, every run ---- */

  /** The rows a push adds to the history are those it appended to the compacted log. */
  lemma PushGain(w: World, act: Action) returns (gain: seq<Row>)
    requires Inv(w) && act.PushAct?
    requires Push(w.account, w.rowid, act.device, act.batch, act.quota, act.now, act.idleTtl, act.maxRows).Pushed?
    ensures Apply(w, act).history == w.history + gain
    ensures Apply(w, act).account.log == Compact(w.account, act.now, act.idleTtl, act.maxRows).log + gain
    ensures Inv(Apply(w, act))
    ensures Covers(Apply(w, act).account.heads, act.batch)
    ensures HeadsRise(w.account.heads, Apply(w, act).account.heads)
  {
    CompactRemovesServed(w, act.now, act.idleTtl, act.maxRows);
    var kept := Compact(w.account, act.now, act.idleTtl, act.maxRows);
    gain := PushAllKeeps(Opened(kept, w.rowid), act.batch, act.device, act.quota, w.history);
    assert NewRows(kept.log, kept.log + gain) == gain;
    LastSequenceRises(w.history, gain);
  }

  lemma LastSequenceRises(history: seq<Row>, gain: seq<Row>)
    requires Sorted(history + gain)
    ensures LastSequence(history) <= LastSequence(history + gain)
  {
    var h := history + gain;
    if history != [] {
      assert h[|history| - 1] == history[|history| - 1];
    }
  }

  lemma PushKeepsInv(w: World, act: Action)
    requires Inv(w) && act.PushAct?
    ensures Inv(Apply(w, act)) && w.history <= Apply(w, act).history
  {
    if Push(w.account, w.rowid, act.device, act.batch, act.quota, act.now, act.idleTtl, act.maxRows).Pushed? {
      var _ := PushGain(w, act);
    }
  }

  lemma {:induction false} PageRows(log: seq<Row>, after: nat, profile: nat, limit: nat)
    ensures forall i :: 0 <= i < |Page(log, after, profile, limit)| ==> Page(log, after, profile, limit)[i] in log
  {
    if log != [] && limit > 0 {
      PageRows(log[1..], after, profile, limit - 1);
      PageRows(log[1..], after, profile, limit);
    }
  }

  /** A pull never leaves a cursor past the account's last row. */
  lemma NextBounded(w: World, cursor: Option<nat>, limit: nat, profile: nat)
    requires Inv(w)
    ensures var after := Min(cursor.GetOr(0), w.account.lastSequence);
      NextCursor(Page(w.account.log, after, profile, limit), after) <= w.account.lastSequence
  {
    var a := w.account;
    var after := Min(cursor.GetOr(0), a.lastSequence);
    var page := Page(a.log, after, profile, limit);
    PageRows(a.log, after, profile, limit);
    if page != [] {
      var i :| 0 <= i < |a.log| && a.log[i] == page[|page| - 1];
      assert w.history[|w.history| - |a.log| + i] == a.log[i];
    }
  }

  lemma AcknowledgeKeepsInv(w: World, device: string, profile: nat, next: nat)
    requires Inv(w) && device in w.account.registry.devices && next <= w.account.lastSequence
    ensures Inv(w.(account := Acknowledge(w.account, device, profile, next)))
  {
  }

  lemma PullKeepsInv(w: World, act: Action)
    requires Inv(w) && act.PullAct?
    ensures Inv(Apply(w, act)) && w.history == Apply(w, act).history
  {
    hide Inv;
    var a := w.account;
    if act.device in a.registry.devices {
      NextBounded(w, act.cursor, act.limit, act.profile);
      var after := Min(act.cursor.GetOr(0), a.lastSequence);
      var next := NextCursor(Serve(a, act.cursor, act.limit, act.profile).page, after);
      AcknowledgeKeepsInv(w, act.device, act.profile, next);
      var noted := Acknowledge(a, act.device, act.profile, next);
      CompactRemovesServed(w.(account := noted), act.now, act.idleTtl, act.maxRows);
    }
  }

  lemma StepKeepsInv(w: World, act: Action)
    requires Inv(w)
    ensures Inv(Apply(w, act)) && w.history <= Apply(w, act).history
  {
    match act
    case PushAct(_, _, _, _, _, _) => PushKeepsInv(w, act);
    case PullAct(_, _, _, _, _, _, _) => PullKeepsInv(w, act);
    case CompactAct(now, idleTtl, maxRows) => CompactRemovesServed(w, now, idleTtl, maxRows);
    case EnsureAct(_, _, _, _, _) =>
    case RevokeAct(_, _) =>
    case ElsewhereAct(_) =>
  }

  lemma {:induction false} RunKeepsInv(w: World, acts: seq<Action>)
    requires Inv(w)
    ensures Inv(Run(w, acts)) && w.history <= Run(w, acts).history
    decreases |acts|
  {
    if acts != [] {
      StepKeepsInv(w, acts[0]);
      RunKeepsInv(Apply(w, acts[0]), acts[1..]);
    }
  }

  /**
   * In every reachable state: the retained log is a suffix of everything ever accepted, in
   * sequence order; revisions of one entity strictly increase; and the heads index is the last
   * row of each entity over the full history, compacted or not.
   */
  lemma ReachableStates(acts: seq<Action>)
    ensures var w := Run(START, acts);
      && Suffix(w.account.log, w.history)
      && Sorted(w.history)
      && RevisionsGrow(w.history)
      && w.account.heads == HeadsOf(w.history)
      && DistinctIds(w.account.log)
  {
    RunKeepsInv(START, acts);
  }
}
