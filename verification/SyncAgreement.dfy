/**
 * Compaction is invisible over whole runs, under conditions on the requests alone: ids that never
 * stand for two contents, and quotas no run of these pushes can reach.
 */
module SyncAgreement {
  import opened Wrappers
  import opened SyncModel
  import opened SyncRuns
  import opened SyncDelivery
  import opened SyncTransparency

  /** Everything a run asks to push, requests with an invalid quota aside. */
  function Batches(acts: seq<Action>): seq<Mutation> {
    if acts == [] then []
    else (if acts[0].PushAct? && acts[0].quota >= 1 then acts[0].batch else []) + Batches(acts[1..])
  }

  /** No id stands for two contents anywhere in the run. */
  ghost predicate RunFaithful(acts: seq<Action>) {
    forall m, n :: m in Batches(acts) && n in Batches(acts) && m.id == n.id ==> m == n
  }

  /** Every valid quota of the run is at least this many bytes. */
  ghost predicate Room(acts: seq<Action>, bytes: nat) {
    forall act :: act in acts && act.PushAct? && act.quota >= 1 ==> bytes <= act.quota
  }

  lemma {:induction false} BatchBytesConcat(a: seq<Mutation>, b: seq<Mutation>)
    ensures BatchBytes(a + b) == BatchBytes(a) + BatchBytes(b)
  {
    if a == [] {
      assert a + b == b;
    } else {
      assert (a + b)[1..] == a[1..] + b;
      BatchBytesConcat(a[1..], b);
    }
  }

  /** What a push adds to a log: rows of its batch, and no more bytes than the batch has. */
  lemma {:induction false} PushAllAdds(d: Draft, batch: seq<Mutation>, device: string, quota: int)
    requires PushAll(d, batch, device, quota).Next?
    ensures var log := PushAll(d, batch, device, quota).draft.log;
      && (forall row :: row in log ==> row in d.log || row.mutation in batch)
      && Bytes(log) <= Bytes(d.log) + BatchBytes(batch)
    decreases |batch|
  {
    if batch != [] {
      var d1 := PushOne(d, batch[0], device, quota).draft;
      if d1.log != d.log {
        var row := Row(d.rowid + 1, batch[0], device);
        assert d1.log == d.log + [row];
        BytesConcat(d.log, [row]);
        assert Bytes([row]) == Size(batch[0]);
      }
      PushAllAdds(d1, batch[1..], device, quota);
    }
  }

  lemma PushAdds(v: World, act: Action)
    requires act.PushAct? && act.quota >= 1 && Fits(v, act)
    ensures var log := Apply(v, WithoutGc(act)).account.log;
      && (forall row :: row in log ==> row in v.account.log || row.mutation in act.batch)
      && Bytes(log) <= Bytes(v.account.log) + BatchBytes(act.batch)
  {
    NoGcKeeps(v.account, act.now, act.idleTtl);
    PushAllAdds(Opened(v.account, v.rowid), act.batch, act.device, act.quota);
  }

  lemma OthersKeepLog(v: World, act: Action)
    requires !(act.PushAct? && act.quota >= 1)
    ensures Apply(v, WithoutGc(act)).account.log == v.account.log
  {
  }

  /** The run's pushes fit what the log already holds. */
  ghost predicate Welcome(log: seq<Row>, acts: seq<Action>) {
    && (forall row, m :: row in log && m in Batches(acts) && row.mutation.id == m.id ==> row.mutation == m)
    && RunFaithful(acts)
    && Room(acts, Bytes(log) + BatchBytes(Batches(acts)))
  }

  lemma WelcomeFirst(v: World, acts: seq<Action>)
    requires Inv(v) && acts != [] && Welcome(v.account.log, acts)
    ensures Fits(v, acts[0])
  {
    hide Inv;
    var act := acts[0];
    if act.PushAct? && act.quota >= 1 {
      assert act in acts;
      assert Batches(acts) == act.batch + Batches(acts[1..]);
      BatchBytesConcat(act.batch, Batches(acts[1..]));
      FitsWhenFaithful(v, act);
    }
  }

  lemma WelcomeRest(v: World, acts: seq<Action>)
    requires acts != [] && Welcome(v.account.log, acts) && Fits(v, acts[0])
    ensures Welcome(Apply(v, WithoutGc(acts[0])).account.log, acts[1..])
  {
    hide Fits, Apply, Welcome, Batches;
    var act := acts[0];
    if act.PushAct? && act.quota >= 1 {
      PushAdds(v, act);
      WelcomeAfter(v.account.log, Apply(v, WithoutGc(act)).account.log, act.batch, acts);
    } else {
      OthersKeepLog(v, act);
      WelcomeAfter(v.account.log, v.account.log, [], acts);
    }
  }

  lemma WelcomeAfter(log: seq<Row>, after: seq<Row>, batch: seq<Mutation>, acts: seq<Action>)
    requires acts != [] && Welcome(log, acts)
    requires batch == if acts[0].PushAct? && acts[0].quota >= 1 then acts[0].batch else []
    requires forall row :: row in after ==> row in log || row.mutation in batch
    requires Bytes(after) <= Bytes(log) + BatchBytes(batch)
    ensures Welcome(after, acts[1..])
  {
    var rest := acts[1..];
    assert forall a :: a in rest ==> a in acts;
    assert Batches(acts) == batch + Batches(rest);
    hide Batches, Bytes, BatchBytes;
    BatchBytesConcat(batch, Batches(rest));
    assert forall m :: m in batch || m in Batches(rest) ==> m in Batches(acts);
  }

  lemma {:induction false} WelcomeFits(v: World, acts: seq<Action>)
    requires Inv(v) && Welcome(v.account.log, acts)
    ensures FitsRun(v, acts)
    decreases |acts|
  {
    hide Inv, Welcome, Fits, Apply;
    if acts != [] {
      WelcomeFirst(v, acts);
      WelcomeRest(v, acts);
      StepKeepsInv(v, WithoutGc(acts[0]));
      WelcomeFits(Apply(v, WithoutGc(acts[0])), acts[1..]);
    }
  }

  /** Ids never standing for two contents and room for all the bytes: then every push of the run fits. */
  lemma FaithfulRunFits(acts: seq<Action>)
    requires RunFaithful(acts) && Room(acts, BatchBytes(Batches(acts)))
    ensures FitsRun(START, acts)
  {
    StartInv();
    assert START.account.log == [] && Bytes([]) == 0;
    WelcomeFits(START, acts);
  }

  /** So over every such run both servers accept the same rows in the same order and keep the same heads. */
  lemma FaithfulRunAgrees(acts: seq<Action>)
    requires RunFaithful(acts) && Room(acts, BatchBytes(Batches(acts)))
    ensures Same(Run(START, acts), RunWithoutGc(START, acts))
  {
    hide Same;
    FaithfulRunFits(acts);
    CompactionTransparent(acts);
  }

  /* ---- an honest device over such a run ---- */

  lemma {:induction false} RunSplits(w: World, a: seq<Action>, b: seq<Action>)
    ensures Run(w, a + b) == Run(Run(w, a), b)
    ensures RunWithoutGc(w, a + b) == RunWithoutGc(RunWithoutGc(w, a), b)
    ensures FitsRun(w, a + b) ==> FitsRun(w, a) && FitsRun(RunWithoutGc(w, a), b)
    decreases |a|
  {
    hide Apply, Fits;
    if a == [] {
      assert a + b == b;
    } else {
      assert (a + b)[1..] == a[1..] + b;
      RunSplits(Apply(w, a[0]), a[1..], b);
      RunSplits(Apply(w, WithoutGc(a[0])), a[1..], b);
    }
  }

  /** The same client, served by the server that never compacts. */
  ghost function RunClientWithoutGc(v: World, acts: seq<Action>, c: Client): Client
    decreases |acts|
  {
    if acts == [] then c else RunClientWithoutGc(Apply(v, WithoutGc(acts[0])), acts[1..], Receive(v, acts[0], c))
  }

  lemma ReceivesSame(w: World, v: World, act: Action, c: Client)
    requires Inv(w) && Inv(v) && Same(w, v) && InStep(w, c, 0) && Honours(w, act, c)
    ensures Receive(w, act, c) == Receive(v, act, c)
  {
    hide Inv, Sorted, Suffix, Holds, Serve;
    if OwnPull(act, c.device) {
      InvGives(v);
      HoldsBehind(w.history, w.account.log, c.received, c.cursor, 0);
      SamePage(w, v, act.cursor, act.limit, 0);
    }
  }

  lemma {:induction false} ClientsAgree(w: World, v: World, acts: seq<Action>, c: Client)
    requires Inv(w) && Inv(v) && Same(w, v) && FitsRun(v, acts) && InStep(w, c, 0) && HonestRun(w, acts, c)
    ensures RunClientWithoutGc(v, acts, c) == RunClient(w, acts, c)
    decreases |acts|
  {
    hide Inv, Same, InStep, Apply, Honours, Fits;
    if acts != [] {
      ReceivesSame(w, v, acts[0], c);
      StepAgrees(w, v, acts[0]);
      StepKeepsInv(w, acts[0]);
      StepKeepsInv(v, WithoutGc(acts[0]));
      StepInStep(w, acts[0], c, 0);
      ClientsAgree(Apply(w, acts[0]), Apply(v, WithoutGc(acts[0])), acts[1..], Receive(w, acts[0], c));
    }
  }

  lemma StartSame()
    ensures Same(START, START)
  {
  }

  /** The two servers right after a new device enrolled. */
  lemma Enrolled(before: seq<Action>, enrol: Action, after: seq<Action>) returns (from: nat)
    requires enrol.EnsureAct? && enrol.id !in Run(START, before).account.registry.devices
    requires FitsRun(START, before + [enrol] + after)
    ensures var w0, v0 := Run(START, before + [enrol]), RunWithoutGc(START, before + [enrol]);
      && w0 == Apply(Run(START, before), enrol)
      && Inv(w0) && Inv(v0) && Same(w0, v0) && FitsRun(v0, after)
      && from == |w0.history| - |w0.account.log| && InStep(w0, Client(enrol.id, 0, []), from)
  {
    hide Inv, Same, InStep, Apply, Fits;
    RunSplits(START, before + [enrol], after);
    RunSplits(START, before, [enrol]);
    assert [enrol][1..] == [];
    assert Run(Run(START, before), [enrol]) == Apply(Run(START, before), enrol);
    StartInv();
    StartSame();
    RunAgrees(START, START, before + [enrol]);
    RunKeepsInv(START, before);
    from := FreshInStep(Run(START, before), enrol);
  }

  /**
   * A device that enrols in a run of faithful ids and unreached quotas and is honest from then on:
   * once it has received a row, and from the start when nothing was compacted before it enrolled,
   * its next pull, for any profile, is answered alike by both servers. In the latter case it has
   * got the same rows and cursors from both throughout.
   */
  lemma HonestRunSamePages(before: seq<Action>, enrol: Action, after: seq<Action>, limit: nat, profile: nat)
    requires enrol.EnsureAct? && enrol.id !in Run(START, before).account.registry.devices
    requires HonestRun(Apply(Run(START, before), enrol), after, Client(enrol.id, 0, []))
    requires var acts := before + [enrol] + after; RunFaithful(acts) && Room(acts, BatchBytes(Batches(acts)))
    ensures var w0, v0 := Run(START, before + [enrol]), RunWithoutGc(START, before + [enrol]);
      var w, v := Run(w0, after), RunWithoutGc(v0, after);
      var c := RunClient(w0, after, Client(enrol.id, 0, []));
      && (w0.account.log == w0.history || c.received != [] ==>
            Serve(w.account, Some(c.cursor), limit, profile) == Serve(v.account, Some(c.cursor), limit, profile))
      && (w0.account.log == w0.history ==> RunClientWithoutGc(v0, after, Client(enrol.id, 0, [])) == c)
  {
    hide Inv, Same, InStep, Apply, HonestRun, RunFaithful, Room, FitsRun, Serve;
    FaithfulRunFits(before + [enrol] + after);
    var from := Enrolled(before, enrol, after);
    var w0, v0 := Run(START, before + [enrol]), RunWithoutGc(START, before + [enrol]);
    var c0 := Client(enrol.id, 0, []);
    RunAgrees(w0, v0, after);
    RunInStep(w0, after, c0, from);
    var c := RunClient(w0, after, c0);
    if from == 0 {
      ClientsAgree(w0, v0, after, c0);
    }
    if from == 0 || c.received != [] {
      HonestCannotTell(Run(w0, after), RunWithoutGc(v0, after), c, from, limit, profile);
    }
  }
}
