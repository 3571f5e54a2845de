/**
 * What a push means: replays change nothing, heads are maxima, ids are all answered for, and the
 * retained bytes stay within the quota.
 */
module SyncPush {
  import opened Wrappers
  import opened SyncModel
  import opened SyncRuns
  import opened SyncTransparency
  import SyncDelivery

  /* ---- replay ---- */

  /** No step of any kind lowers or loses a head. */
  lemma StepHeadsRise(w: World, act: Action)
    requires Inv(w)
    ensures HeadsRise(w.account.heads, Apply(w, act).account.heads)
  {
    hide Inv;
    if act.PushAct? && PushOf(w, act).Pushed? {
      var _ := PushGain(w, act);
    }
  }

  lemma {:induction false} RunHeadsRise(w: World, acts: seq<Action>)
    requires Inv(w)
    ensures HeadsRise(w.account.heads, Run(w, acts).account.heads)
    decreases |acts|
  {
    hide Inv;
    if acts != [] {
      StepHeadsRise(w, acts[0]);
      StepKeepsInv(w, acts[0]);
      RunHeadsRise(Apply(w, acts[0]), acts[1..]);
    }
  }

  /** A batch at or below its heads inserts nothing; only an id conflict can refuse it. */
  lemma {:induction false} CoveredInsertsNothing(d: Draft, batch: seq<Mutation>, device: string, quota: int)
    requires Covers(d.heads, batch)
    ensures match PushAll(d, batch, device, quota)
            case Next(d') =>
              d'.log == d.log && d'.heads == d.heads && d'.lastSequence == d.lastSequence && d'.rowid == d.rowid
            case Abort(error) => error == MutationConflict
    decreases |batch|
  {
    if batch != [] {
      assert batch[0] in batch;
      assert forall m :: m in batch[1..] ==> m in batch;
      if PushOne(d, batch[0], device, quota).Next? {
        CoveredInsertsNothing(PushOne(d, batch[0], device, quota).draft, batch[1..], device, quota);
      }
    }
  }

  /**
   * Replay idempotence: once a batch has been pushed successfully, pushing it again at any later
   * point of any run, from any device, accepts no row and changes no head, whether its rows are
   * retained, compacted, or the replay is refused for a reused id.
   */
  lemma ReplayChangesNothing(before: seq<Action>, push: Action, between: seq<Action>, replay: Action)
    requires push.PushAct? && PushOf(Run(START, before), push).Pushed?
    requires replay.PushAct? && replay.batch == push.batch
    ensures var u := Run(Apply(Run(START, before), push), between);
      && Apply(u, replay).history == u.history
      && Apply(u, replay).account.heads == u.account.heads
      && Apply(u, replay).rowid == u.rowid
      && (PushOf(u, replay).Refused? ==> PushOf(u, replay).error in {MutationConflict, InvalidQuota})
  {
    hide Inv;
    SyncDelivery.StartInv();
    RunKeepsInv(START, before);
    var w := Run(START, before);
    var gain := PushGain(w, push);
    var w1 := Apply(w, push);
    RunHeadsRise(w1, between);
    RunKeepsInv(w1, between);
    var u := Run(w1, between);
    var kept := Compact(u.account, replay.now, replay.idleTtl, replay.maxRows);
    assert Covers(kept.heads, replay.batch);
    CoveredInsertsNothing(Opened(kept, u.rowid), replay.batch, replay.device, replay.quota);
    if PushOf(u, replay).Pushed? {
      assert NewRows(kept.log, kept.log) == [];
      assert u.history + [] == u.history;
    }
  }

  /* ---- heads are maxima ---- */

  /** The head of each entity: the highest revision among the earlier head and the batch. */
  ghost predicate Maxima(before: map<Entity, Head>, batch: seq<Mutation>, after: map<Entity, Head>) {
    && HeadsRise(before, after)
    && Covers(after, batch)
    && (forall e :: e in after ==>
          (e in before && after[e] == before[e])
          || exists m :: m in batch && m.entity == e && m.revision == after[e].revision && m.id == after[e].mutationId)
  }

  lemma MaximaCons(start: map<Entity, Head>, one: map<Entity, Head>, all: map<Entity, Head>, batch: seq<Mutation>)
    requires batch != [] && Maxima(start, [batch[0]], one) && Maxima(one, batch[1..], all)
    ensures Maxima(start, batch, all)
  {
    CoversAll(start, one, all, batch);
    assert forall m :: m in [batch[0]] || m in batch[1..] ==> m in batch;
  }

  lemma PushOneMaxima(d: Draft, m: Mutation, device: string, quota: int, history: seq<Row>)
    requires DraftCoherent(d, history) && PushOne(d, m, device, quota).Next?
    ensures Maxima(d.heads, [m], PushOne(d, m, device, quota).draft.heads)
  {
    hide DraftCoherent;
    PushOneKeeps(d, m, device, quota, history);
    assert m in [m];
  }

  lemma {:induction false} PushAllMaxima(d: Draft, batch: seq<Mutation>, device: string, quota: int, history: seq<Row>)
    requires DraftCoherent(d, history) && PushAll(d, batch, device, quota).Next?
    ensures Maxima(d.heads, batch, PushAll(d, batch, device, quota).draft.heads)
    decreases |batch|
  {
    if batch != [] {
      hide DraftCoherent, Maxima;
      PushOneKeeps(d, batch[0], device, quota, history);
      PushOneMaxima(d, batch[0], device, quota, history);
      var d1 := PushOne(d, batch[0], device, quota).draft;
      PushAllMaxima(d1, batch[1..], device, quota, history + Gain(d, d1, batch[0], device));
      MaximaCons(d.heads, d1.heads, PushAll(d1, batch[1..], device, quota).draft.heads, batch);
    }
  }

  /** So the revisions a successful push leaves do not depend on the order within the batch. */
  lemma PushTakesMaxima(w: World, act: Action)
    requires Inv(w) && act.PushAct? && PushOf(w, act).Pushed?
    ensures Maxima(w.account.heads, act.batch, PushOf(w, act).account.heads)
  {
    hide Inv, Coherent;
    var kept := Compact(w.account, act.now, act.idleTtl, act.maxRows);
    CompactRemovesServed(w, act.now, act.idleTtl, act.maxRows);
    KeptCoherent(w, act.now, act.idleTtl, act.maxRows);
    PushAllMaxima(Opened(kept, w.rowid), act.batch, act.device, act.quota, w.history);
  }

  lemma KeptCoherent(w: World, now: int, idleTtl: nat, maxRows: nat)
    requires Inv(w)
    ensures DraftCoherent(Opened(Compact(w.account, now, idleTtl, maxRows), w.rowid), w.history)
  {
    CompactRemovesServed(w, now, idleTtl, maxRows);
  }

  /** Two orders of one batch, both accepted, leave the same revision at every entity. */
  lemma OrderDoesNotMatter(w: World, one: Action, other: Action, e: Entity)
    requires Inv(w) && one.PushAct? && other.PushAct?
    requires forall m :: m in one.batch <==> m in other.batch
    requires PushOf(w, one).Pushed? && PushOf(w, other).Pushed?
    ensures var a, b := PushOf(w, one).account.heads, PushOf(w, other).account.heads;
      (e in a <==> e in b) && (e in a ==> a[e].revision == b[e].revision)
  {
    hide Inv;
    PushTakesMaxima(w, one);
    PushTakesMaxima(w, other);
  }

  /**
   * Whether an order is accepted does depend on it: of two mutations of one entity that the quota has
   * no room for together, the later revision alone fits, and fits only when it comes first.
   */
  lemma OrderDecidesAcceptance(low: Mutation, high: Mutation, device: string, quota: nat, now: int)
    requires low.entity == high.entity && low.id != high.id && low.revision < high.revision
    requires Size(low) <= quota && Size(high) <= quota < Size(low) + Size(high) && quota >= 1
    ensures Push(NEW_ACCOUNT, 0, device, [low, high], quota, now, 0, 0) == Refused(AccountQuota)
    ensures Push(NEW_ACCOUNT, 0, device, [high, low], quota, now, 0, 0).Pushed?
  {
    var d := Opened(NEW_ACCOUNT, 0);
    NoGcKeeps(NEW_ACCOUNT, now, 0);
    AcceptsInTurn(d, low, high, device, quota);
    AcceptsInTurn(d, high, low, device, quota);
    var first := PushOne(d, low, device, quota).draft;
    assert first.log == [Row(1, low, device)] && first.bytes == Size(low);
    assert FindId(first.log, high.id).None?;
    var other := PushOne(d, high, device, quota).draft;
    assert other.log == [Row(1, high, device)];
    assert FindId(other.log, low.id).None?;
  }

  lemma AcceptsInTurn(d: Draft, a: Mutation, b: Mutation, device: string, quota: int)
    ensures PushAll(d, [a, b], device, quota) ==
            if PushOne(d, a, device, quota).Abort? then PushOne(d, a, device, quota)
            else PushOne(PushOne(d, a, device, quota).draft, b, device, quota)
  {
    hide PushOne;
    assert [a, b][1..] == [b] && [b][1..] == [];
    var next := PushOne(d, a, device, quota);
    if next.Next? && PushOne(next.draft, b, device, quota).Next? {
      assert PushAll(PushOne(next.draft, b, device, quota).draft, [], device, quota) ==
             PushOne(next.draft, b, device, quota);
    }
  }

  /* ---- the response ---- */

  function Ids(batch: seq<Mutation>): seq<string> {
    if batch == [] then [] else Ids(batch[..|batch| - 1]) + [batch[|batch| - 1].id]
  }

  /** Accepted and rejected ids together are exactly the ids of the batch. */
  lemma {:induction false} EveryIdAnswered(batch: seq<Mutation>, verdicts: seq<Verdict>)
    requires |batch| == |verdicts|
    ensures multiset(AcceptedIds(batch, verdicts)) + multiset(RejectedIds(batch, verdicts)) == multiset(Ids(batch))
  {
    if batch != [] {
      var n := |batch| - 1;
      EveryIdAnswered(batch[..n], verdicts[..n]);
    }
  }

  lemma {:induction false} OneVerdictEach(d: Draft, batch: seq<Mutation>, device: string, quota: int)
    requires PushAll(d, batch, device, quota).Next?
    ensures |PushAll(d, batch, device, quota).draft.verdicts| == |d.verdicts| + |batch|
    ensures d.verdicts <= PushAll(d, batch, device, quota).draft.verdicts
    decreases |batch|
  {
    if batch != [] {
      OneVerdictEach(PushOne(d, batch[0], device, quota).draft, batch[1..], device, quota);
    }
  }

  /* ---- quota ---- */

  lemma {:induction false} PushAllWithinQuota(d: Draft, batch: seq<Mutation>, device: string, quota: int)
    requires d.bytes == Bytes(d.log) <= quota && PushAll(d, batch, device, quota).Next?
    ensures var d' := PushAll(d, batch, device, quota).draft; d'.bytes == Bytes(d'.log) <= quota
    decreases |batch|
  {
    if batch != [] {
      var d1 := PushOne(d, batch[0], device, quota).draft;
      if d1.log != d.log {
        var row := Row(d.rowid + 1, batch[0], device);
        assert d1.log == d.log + [row];
        BytesConcat(d.log, [row]);
        assert [row][1..] == [];
      }
      PushAllWithinQuota(d1, batch[1..], device, quota);
    }
  }

  lemma StepWithinQuota(w: World, act: Action, quota: nat)
    requires Inv(w) && Bytes(w.account.log) <= quota
    requires act.PushAct? ==> act.quota == quota
    ensures Bytes(Apply(w, act).account.log) <= quota
  {
    hide Inv, Coherent;
    var a := w.account;
    match act
    case PushAct(device, batch, _, now, idleTtl, maxRows) =>
      if PushOf(w, act).Pushed? {
        CompactRemovesServed(w, now, idleTtl, maxRows);
        var kept := Compact(a, now, idleTtl, maxRows);
        SuffixBytes(kept.log, a.log);
        PushAllWithinQuota(Opened(kept, w.rowid), batch, device, quota);
      }
    case PullAct(device, cursor, limit, profile, now, idleTtl, maxRows) =>
      if device in a.registry.devices {
        PullShrinks(w, act);
      }
    case CompactAct(now, idleTtl, maxRows) =>
      CompactRemovesServed(w, now, idleTtl, maxRows);
      SuffixBytes(Compact(a, now, idleTtl, maxRows).log, a.log);
    case EnsureAct(_, _, _, _, _) =>
    case RevokeAct(_, _) =>
    case ElsewhereAct(_) =>
  }

  lemma PullShrinks(w: World, act: Action)
    requires Inv(w) && act.PullAct? && act.device in w.account.registry.devices
    ensures Bytes(Apply(w, act).account.log) <= Bytes(w.account.log)
  {
    hide Inv;
    var a := w.account;
    NextBounded(w, act.cursor, act.limit, act.profile);
    var after := Min(act.cursor.GetOr(0), a.lastSequence);
    var next := NextCursor(Serve(a, act.cursor, act.limit, act.profile).page, after);
    var noted := Acknowledge(a, act.device, act.profile, next);
    SyncRuns.AcknowledgeKeepsInv(w, act.device, act.profile, next);
    CompactRemovesServed(w.(account := noted), act.now, act.idleTtl, act.maxRows);
    SuffixBytes(Compact(noted, act.now, act.idleTtl, act.maxRows).log, a.log);
  }

  /** Under one quota, an account's retained ciphertext never exceeds it, in any reachable state. */
  lemma {:induction false} WithinQuota(w: World, acts: seq<Action>, quota: nat)
    requires Inv(w) && Bytes(w.account.log) <= quota
    requires forall act :: act in acts && act.PushAct? ==> act.quota == quota
    ensures Bytes(Run(w, acts).account.log) <= quota
    decreases |acts|
  {
    hide Inv;
    if acts != [] {
      assert acts[0] in acts && forall act :: act in acts[1..] ==> act in acts;
      StepWithinQuota(w, acts[0], quota);
      StepKeepsInv(w, acts[0]);
      WithinQuota(Apply(w, acts[0]), acts[1..], quota);
    }
  }
}
