/**
 * Compaction is invisible: the server that compacts against the same server that never does
 * (gcMaxRows = 0 deletes no row), on the same requests.
 */
module SyncTransparency {
  import opened Wrappers
  import opened SyncModel
  import opened SyncRuns
  import opened SyncDelivery
  import Devices

  function WithoutGc(act: Action): Action {
    match act
    case PushAct(device, batch, quota, now, idleTtl, _) => PushAct(device, batch, quota, now, idleTtl, 0)
    case PullAct(device, cursor, limit, profile, now, idleTtl, _) =>
      PullAct(device, cursor, limit, profile, now, idleTtl, 0)
    case CompactAct(now, idleTtl, _) => CompactAct(now, idleTtl, 0)
    case _ => act
  }

  /** `w` compacts, `v` never does. Stored cursors of careless devices may differ. */
  ghost predicate Same(w: World, v: World) {
    && w.history == v.history == v.account.log
    && w.account.heads == v.account.heads
    && w.account.registry == v.account.registry
    && w.account.lastSequence == v.account.lastSequence
    && w.rowid == v.rowid
    && Suffix(w.account.log, v.account.log)
  }

  lemma NoGcKeeps(a: Account, now: int, idleTtl: nat)
    ensures Compact(a, now, idleTtl, 0) == a
  {
  }

  lemma {:induction false} BytesConcat(a: seq<Row>, b: seq<Row>)
    ensures Bytes(a + b) == Bytes(a) + Bytes(b)
  {
    if a == [] {
      assert a + b == b;
    } else {
      assert (a + b)[1..] == a[1..] + b;
      BytesConcat(a[1..], b);
    }
  }

  lemma SuffixBytes(log: seq<Row>, full: seq<Row>)
    requires Suffix(log, full)
    ensures Bytes(log) <= Bytes(full)
  {
    BytesConcat(full[..|full| - |log|], log);
    assert full[..|full| - |log|] + log == full;
  }

  /** The draft over the compacted log against the draft over the full one. */
  ghost predicate SameDraft(d: Draft, f: Draft) {
    && Suffix(d.log, f.log)
    && d.heads == f.heads && d.lastSequence == f.lastSequence && d.rowid == f.rowid
    && d.bytes <= f.bytes
  }

  /** A verdict may differ in one way: the replay of a compacted row is stale, not a duplicate. */
  ghost predicate VerdictAgrees(x: Verdict, y: Verdict, m: Mutation, compacted: seq<Row>) {
    x == y || (x == Stale && y == Duplicate && exists i :: 0 <= i < |compacted| && compacted[i].mutation == m)
  }

  lemma {:induction false} FindInSuffix(log: seq<Row>, full: seq<Row>, id: string)
    requires Suffix(log, full) && DistinctIds(full)
    ensures FindId(log, id).Some? ==> FindId(full, id) == FindId(log, id)
    ensures FindId(full, id).Some? && FindId(log, id).None? ==> FindId(full, id).value in full[..|full| - |log|]
    decreases |full|
  {
    hide FindId;
    var dropped := |full| - |log|;
    assert full == full[..dropped] + log;
    if FindId(log, id).Some? {
      var k :| 0 <= k < |log| && log[k] == FindId(log, id).value;
      assert full[dropped + k] == log[k];
    } else if FindId(full, id).Some? {
      assert FindId(full, id).value !in log;
    }
  }

  /** What the draft over the compacted log finds, against what the full one does. */
  lemma LookupAgrees(d: Draft, f: Draft, m: Mutation)
    requires SameDraft(d, f) && DraftCoherent(f, f.log)
    ensures FindId(d.log, m.id).Some? ==> FindId(f.log, m.id) == FindId(d.log, m.id)
    ensures FindId(d.log, m.id).None? && FindId(f.log, m.id).Some? ==>
      var known := FindId(f.log, m.id).value;
      && known in f.log[..|f.log| - |d.log|]
      && known.mutation.entity in d.heads
      && known.mutation.revision <= d.heads[known.mutation.entity].revision
  {
    hide RevisionsGrow, Sorted;
    FindInSuffix(d.log, f.log, m.id);
    if FindId(f.log, m.id).Some? {
      CoherentCovers(f, f.log, FindId(f.log, m.id).value);
    }
  }

  /** One mutation, when the full server takes it. */
  lemma PushOneAgrees(d: Draft, f: Draft, m: Mutation, device: string, quota: int)
    requires SameDraft(d, f) && DraftCoherent(f, f.log)
    requires PushOne(f, m, device, quota).Next?
    ensures PushOne(d, m, device, quota).Next?
    ensures var d', f' := PushOne(d, m, device, quota).draft, PushOne(f, m, device, quota).draft;
      && SameDraft(d', f')
      && f'.log[..|f'.log| - |d'.log|] == f.log[..|f.log| - |d.log|]
      && |d'.verdicts| == |d.verdicts| + 1 && |f'.verdicts| == |f.verdicts| + 1
      && d'.verdicts[..|d.verdicts|] == d.verdicts && f'.verdicts[..|f.verdicts|] == f.verdicts
      && VerdictAgrees(d'.verdicts[|d.verdicts|], f'.verdicts[|f.verdicts|], m, f.log[..|f.log| - |d.log|])
  {
    hide DraftCoherent, FindId;
    LookupAgrees(d, f, m);
  }

  /** The verdicts given since `d` and `f`, one by one. */
  ghost predicate VerdictsAgree(x: seq<Verdict>, y: seq<Verdict>, batch: seq<Mutation>, compacted: seq<Row>) {
    |x| == |y| == |batch| && forall i :: 0 <= i < |batch| ==> VerdictAgrees(x[i], y[i], batch[i], compacted)
  }

  lemma {:induction false} PushAllAgrees(d: Draft, f: Draft, batch: seq<Mutation>, device: string, quota: int)
    requires SameDraft(d, f) && DraftCoherent(f, f.log)
    requires PushAll(f, batch, device, quota).Next?
    ensures PushAll(d, batch, device, quota).Next?
    ensures var d', f' := PushAll(d, batch, device, quota).draft, PushAll(f, batch, device, quota).draft;
      && SameDraft(d', f')
      && f'.log[..|f'.log| - |d'.log|] == f.log[..|f.log| - |d.log|]
      && d.verdicts <= d'.verdicts && f.verdicts <= f'.verdicts
      && VerdictsAgree(d'.verdicts[|d.verdicts|..], f'.verdicts[|f.verdicts|..], batch, f.log[..|f.log| - |d.log|])
    decreases |batch|
  {
    hide DraftCoherent;
    if batch != [] {
      PushOneAgrees(d, f, batch[0], device, quota);
      var d1, f1 := PushOne(d, batch[0], device, quota).draft, PushOne(f, batch[0], device, quota).draft;
      StaysCoherent(f, batch[0], device, quota);
      PushAllAgrees(d1, f1, batch[1..], device, quota);
      var d', f' := PushAll(d, batch, device, quota).draft, PushAll(f, batch, device, quota).draft;
      TailAgrees(d.verdicts, d1.verdicts, d'.verdicts, f.verdicts, f1.verdicts, f'.verdicts, batch,
                 f.log[..|f.log| - |d.log|]);
    }
  }

  lemma StaysCoherent(f: Draft, m: Mutation, device: string, quota: int)
    requires DraftCoherent(f, f.log) && PushOne(f, m, device, quota).Next?
    ensures var f' := PushOne(f, m, device, quota).draft; DraftCoherent(f', f'.log)
  {
    PushOneKeeps(f, m, device, quota, f.log);
  }

  lemma TailAgrees(x0: seq<Verdict>, x1: seq<Verdict>, x: seq<Verdict>,
                   y0: seq<Verdict>, y1: seq<Verdict>, y: seq<Verdict>,
                   batch: seq<Mutation>, compacted: seq<Row>)
    requires batch != [] && |x1| == |x0| + 1 && |y1| == |y0| + 1
    requires x0 <= x1 <= x && y0 <= y1 <= y
    requires VerdictAgrees(x1[|x0|], y1[|y0|], batch[0], compacted)
    requires VerdictsAgree(x[|x1|..], y[|y1|..], batch[1..], compacted)
    ensures VerdictsAgree(x[|x0|..], y[|y0|..], batch, compacted)
  {
    forall i | 0 <= i < |batch| ensures VerdictAgrees(x[|x0|..][i], y[|y0|..][i], batch[i], compacted) {
      if i > 0 {
        assert x[|x1|..][i - 1] == x[|x0| + i] && y[|y1|..][i - 1] == y[|y0| + i] && batch[1..][i - 1] == batch[i];
      }
    }
  }

  /* ---- runs ---- */

  ghost function PushOf(w: World, act: Action): PushResult
    requires act.PushAct?
  {
    Push(w.account, w.rowid, act.device, act.batch, act.quota, act.now, act.idleTtl, act.maxRows)
  }

  /** The never-compacting server takes the push (or its quota argument is refused outright). */
  ghost predicate Fits(v: World, act: Action) {
    act.PushAct? ==> act.quota < 1 || PushOf(v, WithoutGc(act)).Pushed?
  }

  ghost predicate FitsRun(v: World, acts: seq<Action>)
    decreases |acts|
  {
    acts == [] || (Fits(v, acts[0]) && FitsRun(Apply(v, WithoutGc(acts[0])), acts[1..]))
  }

  ghost function RunWithoutGc(v: World, acts: seq<Action>): World
    decreases |acts|
  {
    if acts == [] then v else RunWithoutGc(Apply(v, WithoutGc(acts[0])), acts[1..])
  }

  /** The rows compaction has removed by the time a push begins to read the log. */
  ghost function Compacted(w: World, v: World, act: Action): seq<Row>
    requires act.PushAct? && Same(w, v) && Inv(w)
  {
    CompactRemovesServed(w, act.now, act.idleTtl, act.maxRows);
    v.account.log[..|v.account.log| - |Compact(w.account, act.now, act.idleTtl, act.maxRows).log|]
  }

  /** The two drafts a push ends with. */
  lemma DraftsAgree(w: World, v: World, act: Action)
    requires Inv(w) && Inv(v) && Same(w, v) && act.PushAct? && act.quota >= 1 && Fits(v, act)
    ensures var kept := Compact(w.account, act.now, act.idleTtl, act.maxRows);
      var d := PushAll(Opened(kept, w.rowid), act.batch, act.device, act.quota);
      var f := PushAll(Opened(v.account, v.rowid), act.batch, act.device, act.quota);
      && d.Next? && f.Next? && SameDraft(d.draft, f.draft)
      && Suffix(kept.log, v.account.log)
      && f.draft.log[..|f.draft.log| - |d.draft.log|] == v.account.log[..|v.account.log| - |kept.log|]
      && VerdictsAgree(d.draft.verdicts, f.draft.verdicts, act.batch, v.account.log[..|v.account.log| - |kept.log|])
  {
    hide Inv, DraftCoherent, VerdictsAgree;
    var kept := Compact(w.account, act.now, act.idleTtl, act.maxRows);
    CompactRemovesServed(w, act.now, act.idleTtl, act.maxRows);
    NoGcKeeps(v.account, act.now, act.idleTtl);
    SuffixTransitive(kept.log, w.account.log, v.account.log);
    SuffixBytes(kept.log, v.account.log);
    hide Suffix, Compact;
    var d, f := Opened(kept, w.rowid), Opened(v.account, v.rowid);
    OpenedCoherent(v);
    PushAllAgrees(d, f, act.batch, act.device, act.quota);
    var x := PushAll(d, act.batch, act.device, act.quota).draft.verdicts;
    var y := PushAll(f, act.batch, act.device, act.quota).draft.verdicts;
    assert x[|d.verdicts|..] == x && y[|f.verdicts|..] == y;
  }

  /** The same new rows and heads; verdicts differ only on replays of compacted rows. */
  lemma PushAgrees(w: World, v: World, act: Action)
    requires Inv(w) && Inv(v) && Same(w, v) && act.PushAct? && act.quota >= 1 && Fits(v, act)
    ensures PushOf(w, act).Pushed?
    ensures Same(Apply(w, act), Apply(v, WithoutGc(act)))
    ensures VerdictsAgree(PushOf(w, act).verdicts, PushOf(v, WithoutGc(act)).verdicts, act.batch, Compacted(w, v, act))
  {
    hide Inv, DraftCoherent, Suffix, VerdictsAgree, PushAll;
    var kept := Compact(w.account, act.now, act.idleTtl, act.maxRows);
    DraftsAgree(w, v, act);
    NoGcKeeps(v.account, act.now, act.idleTtl);
    var gw := PushGain(w, act);
    var gv := PushGain(v, WithoutGc(act));
    SameGain(kept.log, gw, v.account.log, gv);
  }

  lemma OpenedCoherent(v: World)
    requires Inv(v) && v.history == v.account.log
    ensures DraftCoherent(Opened(v.account, v.rowid), v.account.log)
  {
  }

  lemma SameGain(log: seq<Row>, gw: seq<Row>, full: seq<Row>, gv: seq<Row>)
    requires Suffix(log, full) && Suffix(log + gw, full + gv)
    requires (full + gv)[..|full + gv| - |log + gw|] == full[..|full| - |log|]
    ensures gw == gv
  {
    assert |full + gv| - |log + gw| == |full| - |log|;
    forall i | 0 <= i < |gw| ensures gw[i] == gv[i] {
      assert (log + gw)[|log| + i] == (full + gv)[|full| + i];
    }
  }

  lemma StepAgrees(w: World, v: World, act: Action)
    requires Inv(w) && Inv(v) && Same(w, v) && Fits(v, act)
    ensures Same(Apply(w, act), Apply(v, WithoutGc(act)))
  {
    hide Inv;
    match act
    case PushAct(_, _, quota, _, _, _) =>
      if quota >= 1 { PushAgrees(w, v, act); }
    case PullAct(device, cursor, limit, profile, now, idleTtl, maxRows) =>
      PullAgrees(w, v, act);
    case CompactAct(now, idleTtl, maxRows) =>
      CompactRemovesServed(w, now, idleTtl, maxRows);
      NoGcKeeps(v.account, now, idleTtl);
      SuffixTransitive(Apply(w, act).account.log, w.account.log, v.account.log);
    case EnsureAct(_, _, _, _, _) =>
    case RevokeAct(_, _) =>
    case ElsewhereAct(_) =>
  }

  lemma PullAgrees(w: World, v: World, act: Action)
    requires Inv(w) && Inv(v) && Same(w, v) && act.PullAct?
    ensures Same(Apply(w, act), Apply(v, WithoutGc(act)))
  {
    hide Inv;
    var a := w.account;
    if act.device in a.registry.devices {
      NextBounded(w, act.cursor, act.limit, act.profile);
      var after := Min(act.cursor.GetOr(0), a.lastSequence);
      var next := NextCursor(Serve(a, act.cursor, act.limit, act.profile).page, after);
      var noted := Acknowledge(a, act.device, act.profile, next);
      SyncRuns.AcknowledgeKeepsInv(w, act.device, act.profile, next);
      CompactRemovesServed(w.(account := noted), act.now, act.idleTtl, act.maxRows);
      SuffixTransitive(Compact(noted, act.now, act.idleTtl, act.maxRows).log, a.log, v.account.log);
      var nextV := NextCursor(Serve(v.account, act.cursor, act.limit, act.profile).page, after);
      NoGcKeeps(Acknowledge(v.account, act.device, act.profile, nextV), act.now, act.idleTtl);
    }
  }

  lemma {:induction false} RunAgrees(w: World, v: World, acts: seq<Action>)
    requires Inv(w) && Inv(v) && Same(w, v) && FitsRun(v, acts)
    ensures Inv(Run(w, acts)) && Inv(RunWithoutGc(v, acts)) && Same(Run(w, acts), RunWithoutGc(v, acts))
    decreases |acts|
  {
    hide Inv, Same;
    if acts != [] {
      StepAgrees(w, v, acts[0]);
      StepKeepsInv(w, acts[0]);
      StepKeepsInv(v, WithoutGc(acts[0]));
      RunAgrees(Apply(w, acts[0]), Apply(v, WithoutGc(acts[0])), acts[1..]);
    }
  }

  /**
   * Over every run whose pushes the never-compacting server takes, the compacting server has
   * accepted the same rows in the same order, keeps the same heads, and its log is a suffix.
   */
  lemma CompactionTransparent(acts: seq<Action>)
    requires FitsRun(START, acts)
    ensures var w, v := Run(START, acts), RunWithoutGc(START, acts);
      && Inv(w) && Inv(v) && Same(w, v)
  {
    StartInv();
    RunAgrees(START, START, acts);
  }

  /* ---- what a puller can tell ---- */

  lemma {:induction false} PageSkips(log: seq<Row>, n: nat, after: nat, profile: nat, limit: nat)
    requires n <= |log| && forall i :: 0 <= i < n ==> !Wanted(log[i], after, profile)
    ensures Page(log, after, profile, limit) == Page(log[n..], after, profile, limit)
  {
    if n > 0 && limit > 0 {
      PageSkips(log[1..], n - 1, after, profile, limit);
      assert log[1..][n - 1..] == log[n..];
    }
  }

  /** No compacted row is one the pull asks for. */
  ghost predicate BehindCompaction(w: World, v: World, cursor: Option<nat>, profile: nat)
    requires Same(w, v)
  {
    forall i :: 0 <= i < |v.account.log| - |w.account.log| ==>
      !Wanted(v.account.log[i], Min(cursor.GetOr(0), v.account.lastSequence), profile)
  }

  /** Then the two servers answer alike, whatever the limit. */
  lemma SamePage(w: World, v: World, cursor: Option<nat>, limit: nat, profile: nat)
    requires Inv(v) && Same(w, v) && BehindCompaction(w, v, cursor, profile)
    ensures Serve(w.account, cursor, limit, profile) == Serve(v.account, cursor, limit, profile)
  {
    var log, dropped := v.account.log, |v.account.log| - |w.account.log|;
    var after := Min(cursor.GetOr(0), v.account.lastSequence);
    PageSkips(log, dropped, after, profile, limit);
    var page := Page(log, after, profile, limit);
    var next := NextCursor(page, after);
    PageWanted(log, after, profile, limit);
    PageSkips(log, dropped, next, profile, 1);
  }

  lemma {:induction false} PageWanted(log: seq<Row>, after: nat, profile: nat, limit: nat)
    ensures forall row :: row in Page(log, after, profile, limit) ==> row.sequence > after
  {
    if log != [] && limit > 0 {
      PageWanted(log[1..], after, profile, limit - 1);
      PageWanted(log[1..], after, profile, limit);
    }
  }

  /**
   * A pull of at least one row, of one profile or of all, tells the two servers apart exactly when
   * compaction has removed a row it asks for: what a device that never received a response it was
   * served, or that came back after the idle time, may run into.
   */
  lemma SamePageExactly(w: World, v: World, cursor: Option<nat>, limit: nat, profile: nat)
    requires Inv(w) && Inv(v) && Same(w, v) && limit >= 1
    ensures Serve(w.account, cursor, limit, profile) == Serve(v.account, cursor, limit, profile) <==>
            BehindCompaction(w, v, cursor, profile)
  {
    if BehindCompaction(w, v, cursor, profile) {
      SamePage(w, v, cursor, limit, profile);
    } else {
      hide Inv;
      InvGives(v);
      var log, dropped := v.account.log, |v.account.log| - |w.account.log|;
      var after := Min(cursor.GetOr(0), v.account.lastSequence);
      var i :| 0 <= i < dropped && Wanted(log[i], after, profile);
      FirstWanted(log, after, profile, limit, i);
      PageRows(w.account.log, after, profile, limit);
      LaterRows(w.account.log, log, i);
    }
  }

  lemma LaterRows(log: seq<Row>, full: seq<Row>, i: nat)
    requires Suffix(log, full) && Sorted(full) && i < |full| - |log|
    ensures forall row :: row in log ==> row.sequence > full[i].sequence
  {
    forall j | 0 <= j < |log| ensures log[j].sequence > full[i].sequence {
      assert log[j] == full[|full| - |log| + j];
    }
  }

  /** A page from a log holding a row the pull asks for starts at or before that row. */
  lemma {:induction false} FirstWanted(log: seq<Row>, after: nat, profile: nat, limit: nat, i: nat)
    requires Sorted(log) && i < |log| && Wanted(log[i], after, profile) && limit >= 1
    ensures Page(log, after, profile, limit) != []
    ensures Page(log, after, profile, limit)[0].sequence <= log[i].sequence
  {
    if !Wanted(log[0], after, profile) {
      FirstWanted(log[1..], after, profile, limit, i - 1);
    }
  }

  lemma HoldsBehind(history: seq<Row>, log: seq<Row>, received: seq<Row>, cursor: nat, from: nat)
    requires Sorted(history) && Holds(history, log, received, cursor, from)
    requires from == 0 || received != []
    ensures forall i :: 0 <= i < |history| - |log| ==> history[i].sequence <= cursor
  {
    forall i | 0 <= i < |history| - |log| ensures history[i].sequence <= cursor {
      if i < from {
        assert history[i].sequence < history[from].sequence;
      }
    }
  }

  /** An honest device that saw the log from its start, or has received anything, cannot tell. */
  lemma HonestCannotTell(w: World, v: World, c: Client, from: nat, limit: nat, profile: nat)
    requires Inv(w) && Inv(v) && Same(w, v) && InStep(w, c, from)
    requires from == 0 || c.received != []
    ensures Serve(w.account, Some(c.cursor), limit, profile) == Serve(v.account, Some(c.cursor), limit, profile)
  {
    hide Inv, Suffix, Sorted, Holds, Serve;
    InvGives(v);
    HoldsBehind(w.history, w.account.log, c.received, c.cursor, from);
    SamePage(w, v, Some(c.cursor), limit, profile);
  }

  /**
   * A lost response loses rows: after one device enrols, pushes and pulls without receiving the
   * answer, the pull repeated from its old cursor brings nothing, though a row was accepted.
   */
  lemma LostResponse(m: Mutation, limit: nat)
    ensures var policy := Devices.Policy(8, 1000, 3, 1000);
      var acts := [EnsureAct("a", None, true, 1, policy), PushAct("a", [m], Size(m) + 1, 2, 1000, 5000),
                   PullAct("a", None, 1, 0, 3, 1000, 5000)];
      var w := Run(START, acts);
      |w.history| == 1 && Serve(w.account, None, limit, 0).page == []
  {
    var policy := Devices.Policy(8, 1000, 3, 1000);
    var ensure, push, pull :=
      EnsureAct("a", None, true, 1, policy), PushAct("a", [m], Size(m) + 1, 2, 1000, 5000),
      PullAct("a", None, 1, 0, 3, 1000, 5000);
    var w1 := Apply(START, ensure);
    FirstDevice(policy);
    OneRow(w1, push, m);
    OnePull(Apply(w1, push), pull, m);
    ThreeSteps(START, ensure, push, pull);
  }

  lemma ThreeSteps(w: World, a: Action, b: Action, c: Action)
    ensures Run(w, [a, b, c]) == Apply(Apply(Apply(w, a), b), c)
  {
    var acts := [a, b, c];
    assert acts[1..] == [b, c] && acts[1..][1..] == [c] && acts[1..][1..][1..] == [];
    var w1, w2 := Apply(w, a), Apply(Apply(w, a), b);
    assert Run(w2, [c]) == Apply(w2, c);
    assert Run(w1, [b, c]) == Run(w2, [c]);
    assert Run(w, acts) == Run(w1, [b, c]);
  }

  lemma FirstDevice(policy: Devices.Policy)
    requires policy == Devices.Policy(8, 1000, 3, 1000)
    ensures var w1 := Apply(START, EnsureAct("a", None, true, 1, policy));
      && w1 == World(NEW_ACCOUNT.(registry := w1.account.registry), 0, [])
      && w1.account.registry.devices == map["a" := Devices.Device(None, 1, None)]
  {
    assert Devices.Active(Devices.EMPTY, 1, 1000) == {};
  }

  lemma OneRow(w: World, push: Action, m: Mutation)
    requires push == PushAct("a", [m], Size(m) + 1, 2, 1000, 5000)
    requires w.account == NEW_ACCOUNT.(registry := w.account.registry) && w.rowid == 0 && w.history == []
    requires w.account.registry.devices == map["a" := Devices.Device(None, 1, None)]
    ensures Apply(w, push).account.log == [Row(1, m, "a")] == Apply(w, push).history
    ensures Apply(w, push).account.lastSequence == 1 && Apply(w, push).account.cursors == map[]
    ensures Apply(w, push).account.registry == w.account.registry
  {
    assert Compact(w.account, 2, 1000, 5000) == w.account;
    var d := Opened(w.account, 0);
    var d' := PushOne(d, m, "a", Size(m) + 1).draft;
    assert PushAll(d, [m], "a", Size(m) + 1) == PushAll(d', [], "a", Size(m) + 1);
  }

  lemma OnePull(w: World, pull: Action, m: Mutation)
    requires pull == PullAct("a", None, 1, 0, 3, 1000, 5000)
    requires w.account.log == [Row(1, m, "a")] && w.account.lastSequence == 1 && w.account.cursors == map[]
    requires w.account.registry.devices == map["a" := Devices.Device(None, 1, None)]
    ensures Apply(w, pull) == w.(account := Apply(w, pull).account) && Apply(w, pull).account.log == []
  {
    var noted := Acknowledge(w.account, "a", 0, 1);
    assert Page(w.account.log, 0, 0, 1) == [Row(1, m, "a")];
    assert "a" in Devices.Active(noted.registry, 3, 1000);
    assert Devices.Active(noted.registry, 3, 1000) == {"a"};
    assert CursorOf(noted, "a") == 1;
    assert SlowestCursor(noted, 3, 1000) == Some(1);
    assert noted.log[1..] == [];
    assert DropBehind(noted.log, 1, 5000) == DropBehind(noted.log[1..], 1, 4999);
  }

  /* ---- when the never-compacting server takes a push ---- */

  function BatchBytes(batch: seq<Mutation>): nat {
    if batch == [] then 0 else Size(batch[0]) + BatchBytes(batch[1..])
  }

  /** No id stands for two contents, in the batch or between batch and log. */
  ghost predicate IdsFaithful(log: seq<Row>, batch: seq<Mutation>) {
    && (forall row, m :: row in log && m in batch && row.mutation.id == m.id ==> row.mutation == m)
    && (forall m, n :: m in batch && n in batch && m.id == n.id ==> m == n)
  }

  lemma {:induction false} FaithfulFits(d: Draft, batch: seq<Mutation>, device: string, quota: int)
    requires IdsFaithful(d.log, batch) && d.bytes + BatchBytes(batch) <= quota
    ensures PushAll(d, batch, device, quota).Next?
    decreases |batch|
  {
    if batch != [] {
      var m := batch[0];
      assert m in batch;
      var d' := PushOne(d, m, device, quota).draft;
      assert forall row :: row in d'.log ==> row in d.log || row.mutation == m;
      assert forall n :: n in batch[1..] ==> n in batch;
      FaithfulFits(d', batch[1..], device, quota);
    }
  }

  /** Ids never reused for different content, and the quota not reached, are enough. */
  lemma FitsWhenFaithful(v: World, act: Action)
    requires Inv(v) && act.PushAct? && act.quota >= 1
    requires IdsFaithful(v.account.log, act.batch)
    requires Bytes(v.account.log) + BatchBytes(act.batch) <= act.quota
    ensures Fits(v, act)
  {
    NoGcKeeps(v.account, act.now, act.idleTtl);
    FaithfulFits(Opened(v.account, v.rowid), act.batch, act.device, act.quota);
  }
}
