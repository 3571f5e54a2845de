/**
 * What the answers mean: which ids a push reports as accepted, when it is refused and why, and which
 * rows a pull brings, from whatever cursor.
 */
module SyncAnswers {
  import opened Wrappers
  import opened SyncModel
  import opened SyncRuns
  import opened SyncTransparency
  import SyncDelivery
  import SyncPush

  /* ---- verdicts ---- */

  ghost predicate Retains(log: seq<Row>, m: Mutation) {
    exists k :: 0 <= k < |log| && log[k].mutation == m
  }

  /** The mutations of the batch with the verdict Inserted, in order, as rows numbered on from `rowid`. */
  function Insertions(batch: seq<Mutation>, verdicts: seq<Verdict>, device: string, rowid: nat): seq<Row>
    requires |batch| == |verdicts|
  {
    if batch == [] then []
    else if verdicts[0].Inserted? then
      [Row(rowid + 1, batch[0], device)] + Insertions(batch[1..], verdicts[1..], device, rowid + 1)
    else Insertions(batch[1..], verdicts[1..], device, rowid)
  }

  /** The verdicts a batch got, against the log it started from and the rows it added. */
  ghost predicate Answered(start: seq<Row>, gain: seq<Row>, batch: seq<Mutation>, verdicts: seq<Verdict>) {
    && |verdicts| == |batch|
    && (forall i :: 0 <= i < |batch| ==> (verdicts[i] == Stale <==> !Retains(start + gain, batch[i])))
    && (forall i :: 0 <= i < |batch| ==>
          (verdicts[i] == Inserted <==> Retains(gain, batch[i]) && batch[i] !in batch[..i]))
  }

  /** The batch without its last mutation first, then the last one. */
  lemma {:induction false} PushLast(d: Draft, batch: seq<Mutation>, m: Mutation, device: string, quota: int)
    ensures PushAll(d, batch + [m], device, quota) ==
      match PushAll(d, batch, device, quota)
      case Abort(error) => Abort(error)
      case Next(d') => PushOne(d', m, device, quota)
    decreases |batch|
  {
    hide PushOne;
    var all := batch + [m];
    if batch == [] {
      assert all[0] == m && all[1..] == [];
      if PushOne(d, m, device, quota).Next? {
        assert PushAll(PushOne(d, m, device, quota).draft, [], device, quota) == PushOne(d, m, device, quota);
      }
    } else {
      assert all[0] == batch[0] && all[1..] == batch[1..] + [m];
      if PushOne(d, batch[0], device, quota).Next? {
        PushLast(PushOne(d, batch[0], device, quota).draft, batch[1..], m, device, quota);
      }
    }
  }

  /** What is known of the transaction after the first mutations of a batch. */
  ghost predicate Halfway(d: Draft, d': Draft, gain: seq<Row>, batch: seq<Mutation>, device: string, history: seq<Row>)
  {
    && DraftCoherent(d', history + gain)
    && d'.log == d.log + gain && d'.rowid == d.rowid + |gain| && d'.bytes == Bytes(d'.log)
    && Covers(d'.heads, batch)
    && Answered(d.log, gain, batch, d'.verdicts)
    && gain == Insertions(batch, d'.verdicts, device, d.rowid)
    && (forall k :: 0 <= k < |gain| ==> gain[k].mutation in batch)
  }

  lemma HalfwayNext(d: Draft, d': Draft, gain: seq<Row>, batch: seq<Mutation>, m: Mutation, device: string, quota: int,
                    history: seq<Row>) returns (more: seq<Row>)
    requires Halfway(d, d', gain, batch, device, history) && PushOne(d', m, device, quota).Next?
    ensures Halfway(d, PushOne(d', m, device, quota).draft, more, batch + [m], device, history)
  {
    hide PushOne, Coherent, Bytes, Covers, HeadsRise, Answered, Insertions, Gain;
    AnsweredNext(d, d', gain, batch, m, device, quota, history);
    PushOneKeeps(d', m, device, quota, history + gain);
    var d2 := PushOne(d', m, device, quota).draft;
    var one := Gain(d', d2, m, device);
    more := gain + one;
    assert history + gain + one == history + more && d.log + gain + one == d.log + more;
    CoversOneMore(d'.heads, d2.heads, batch, m);
    BytesConcat(d'.log, one);
    GainNext(d, d', d2, gain, batch, m, device);
  }

  lemma GainNext(d: Draft, d': Draft, d2: Draft, gain: seq<Row>, batch: seq<Mutation>, m: Mutation, device: string)
    requires |d'.verdicts| == |batch| && |d2.verdicts| == |batch| + 1
    requires d2.verdicts == d'.verdicts + [d2.verdicts[|batch|]]
    requires d2.verdicts[|batch|].Inserted? <==> d2.rowid != d'.rowid
    requires d2.rowid == d'.rowid || d2.rowid == d'.rowid + 1
    requires gain == Insertions(batch, d'.verdicts, device, d.rowid) && d'.rowid == d.rowid + |gain|
    requires forall k :: 0 <= k < |gain| ==> gain[k].mutation in batch
    ensures var more := gain + Gain(d', d2, m, device);
      && more == Insertions(batch + [m], d2.verdicts, device, d.rowid) && d2.rowid == d.rowid + |more|
      && (forall k :: 0 <= k < |more| ==> more[k].mutation in batch + [m])
  {
    hide Insertions;
    InsertionsNext(batch, d'.verdicts, m, d2.verdicts[|batch|], device, d.rowid);
  }

  lemma CoversOneMore(before: map<Entity, Head>, after: map<Entity, Head>, batch: seq<Mutation>, m: Mutation)
    requires Covers(before, batch) && HeadsRise(before, after) && Covers(after, [m])
    ensures Covers(after, batch + [m])
  {
    assert m in [m];
  }

  lemma {:induction false} InsertionsNext(batch: seq<Mutation>, verdicts: seq<Verdict>, m: Mutation, v: Verdict,
                                          device: string, rowid: nat)
    requires |batch| == |verdicts|
    ensures var rows := Insertions(batch, verdicts, device, rowid);
      Insertions(batch + [m], verdicts + [v], device, rowid)
        == rows + (if v.Inserted? then [Row(rowid + |rows| + 1, m, device)] else [])
    decreases |batch|
  {
    var all, given := batch + [m], verdicts + [v];
    if batch == [] {
      assert all[1..] == [] && given[1..] == [];
    } else {
      assert all[1..] == batch[1..] + [m] && given[1..] == verdicts[1..] + [v];
      InsertionsNext(batch[1..], verdicts[1..], m, v, device, if verdicts[0].Inserted? then rowid + 1 else rowid);
    }
  }

  lemma RetainsConcat(a: seq<Row>, b: seq<Row>, m: Mutation)
    ensures Retains(a + b, m) <==> Retains(a, m) || Retains(b, m)
  {
    if k :| 0 <= k < |a| && a[k].mutation == m {
      assert (a + b)[k].mutation == m;
    } else if k :| 0 <= k < |b| && b[k].mutation == m {
      assert (a + b)[|a| + k].mutation == m;
    }
  }

  lemma AnsweredKept(start: seq<Row>, gain: seq<Row>, batch: seq<Mutation>, verdicts: seq<Verdict>, m: Mutation,
                     v: Verdict)
    requires Answered(start, gain, batch, verdicts)
    requires v != Inserted && (v == Stale <==> !Retains(start + gain, m))
    requires Retains(gain, m) ==> m in batch
    ensures Answered(start, gain, batch + [m], verdicts + [v])
  {
    hide Retains;
    var all, given := batch + [m], verdicts + [v];
    assert all[..|batch|] == batch;
    forall i | 0 <= i < |batch|
      ensures all[i] == batch[i] && given[i] == verdicts[i] && all[..i] == batch[..i]
    {
    }
  }

  lemma AnsweredInserted(start: seq<Row>, gain: seq<Row>, batch: seq<Mutation>, verdicts: seq<Verdict>, row: Row)
    requires Answered(start, gain, batch, verdicts)
    requires !Retains(start + gain, row.mutation) && row.mutation !in batch
    ensures Answered(start, gain + [row], batch + [row.mutation], verdicts + [Inserted])
  {
    var all := batch + [row.mutation];
    assert all[..|batch|] == batch;
    assert start + (gain + [row]) == start + gain + [row];
    SingleRow(row);
    hide Retains;
    forall i | 0 <= i <= |batch|
      ensures Retains(start + (gain + [row]), all[i]) <==> Retains(start + gain, all[i]) || all[i] == row.mutation
      ensures Retains(gain + [row], all[i]) <==> Retains(gain, all[i]) || all[i] == row.mutation
      ensures i < |batch| ==> all[..i] == batch[..i] && all[i] == batch[i] && all[i] in batch
    {
      RetainsConcat(start + gain, [row], all[i]);
      RetainsConcat(gain, [row], all[i]);
    }
  }

  lemma SingleRow(row: Row)
    ensures forall m :: Retains([row], m) <==> m == row.mutation
  {
    assert [row][0] == row;
  }

  /** A mutation the heads cover is stale unless its row is in the log. */
  lemma AnsweredNext(d: Draft, d': Draft, gain: seq<Row>, batch: seq<Mutation>, m: Mutation, device: string, quota: int,
                     history: seq<Row>)
    requires Halfway(d, d', gain, batch, device, history) && PushOne(d', m, device, quota).Next?
    ensures var d2 := PushOne(d', m, device, quota).draft;
      && (d2.rowid == d'.rowid || d2.rowid == d'.rowid + 1)
      && |d2.verdicts| == |d'.verdicts| + 1 == |batch| + 1
      && d2.verdicts == d'.verdicts + [d2.verdicts[|batch|]]
      && (d2.verdicts[|batch|].Inserted? <==> d2.rowid != d'.rowid)
      && d2.bytes == d'.bytes + Bytes(Gain(d', d2, m, device))
      && Answered(d.log, gain + Gain(d', d2, m, device), batch + [m], d2.verdicts)
  {
    hide DraftCoherent, Insertions;
    var d2 := PushOne(d', m, device, quota).draft;
    var one := Gain(d', d2, m, device);
    FoundRetained(d'.log, m);
    if d2.rowid == d'.rowid {
      assert gain + [] == gain;
      RetainedInBatch(gain, batch, m);
      hide Answered, FindId;
      AnsweredKept(d.log, gain, batch, d'.verdicts, m, d2.verdicts[|batch|]);
    } else {
      assert m !in batch;
      hide Answered;
      assert [Row(d'.rowid + 1, m, device)][1..] == [];
      AnsweredInserted(d.log, gain, batch, d'.verdicts, Row(d'.rowid + 1, m, device));
    }
  }

  lemma RetainedInBatch(gain: seq<Row>, batch: seq<Mutation>, m: Mutation)
    requires forall k :: 0 <= k < |gain| ==> gain[k].mutation in batch
    ensures Retains(gain, m) ==> m in batch
  {
  }

  lemma FoundRetained(log: seq<Row>, m: Mutation)
    ensures FindId(log, m.id).None? ==> !Retains(log, m)
    ensures FindId(log, m.id).Some? && FindId(log, m.id).value.mutation == m ==> Retains(log, m)
  {
    if k :| 0 <= k < |log| && log[k].mutation == m {
      assert log[k] in log;
    }
    if FindId(log, m.id).Some? {
      var k :| 0 <= k < |log| && log[k] == FindId(log, m.id).value;
    }
  }

  lemma NothingPushed(d: Draft, device: string, quota: int, history: seq<Row>)
    requires DraftCoherent(d, history) && d.verdicts == [] && d.bytes == Bytes(d.log)
    ensures PushAll(d, [], device, quota) == Next(d)
    ensures Halfway(d, d, [], [], device, history)
  {
    hide DraftCoherent;
    assert history + [] == history && d.log + [] == d.log;
  }

  lemma {:induction false} BatchAnswered(d: Draft, batch: seq<Mutation>, device: string, quota: int, history: seq<Row>)
    returns (gain: seq<Row>)
    requires DraftCoherent(d, history) && d.verdicts == [] && d.bytes == Bytes(d.log)
    requires PushAll(d, batch, device, quota).Next?
    ensures Halfway(d, PushAll(d, batch, device, quota).draft, gain, batch, device, history)
    decreases |batch|
  {
    hide DraftCoherent, Halfway, PushOne, PushAll;
    if batch == [] {
      gain := [];
      NothingPushed(d, device, quota, history);
    } else {
      var n := |batch| - 1;
      assert batch == batch[..n] + [batch[n]];
      PushLast(d, batch[..n], batch[n], device, quota);
      var before := BatchAnswered(d, batch[..n], device, quota, history);
      gain := HalfwayNext(d, PushAll(d, batch[..n], device, quota).draft, before, batch[..n], batch[n], device, quota,
        history);
    }
  }

  lemma PushAnswered(w: World, act: Action) returns (gain: seq<Row>)
    requires Inv(w) && act.PushAct? && PushOf(w, act).Pushed?
    ensures var result, start := PushOf(w, act), Compact(w.account, act.now, act.idleTtl, act.maxRows).log;
      && Apply(w, act).history == w.history + gain
      && result.account.log == start + gain && result.rowid == w.rowid + |gain|
      && Answered(start, gain, act.batch, result.verdicts)
      && gain == Insertions(act.batch, result.verdicts, act.device, w.rowid)
  {
    hide Inv, Coherent, Compact, Answered, Insertions;
    var kept := Compact(w.account, act.now, act.idleTtl, act.maxRows);
    CompactRemovesServed(w, act.now, act.idleTtl, act.maxRows);
    SyncPush.KeptCoherent(w, act.now, act.idleTtl, act.maxRows);
    gain := BatchAnswered(Opened(kept, w.rowid), act.batch, act.device, act.quota, w.history);
    assert NewRows(kept.log, kept.log + gain) == gain;
  }

  /**
   * The verdicts of a push. Stale: the log it leaves does not hold the mutation. Inserted: its row is
   * among those the push adds, and the batch did not hold it before. The rows it adds are the
   * inserted mutations in the order of the batch, under the device's name, numbered on from the counter.
   */
  lemma VerdictsMean(w: World, act: Action)
    requires Inv(w) && act.PushAct? && PushOf(w, act).Pushed?
    ensures var result := PushOf(w, act);
      var gain := Apply(w, act).history[|w.history|..];
      && w.history <= Apply(w, act).history
      && |result.verdicts| == |act.batch|
      && (forall i :: 0 <= i < |act.batch| ==>
            (result.verdicts[i] == Stale <==> !Retains(result.account.log, act.batch[i])))
      && (forall i :: 0 <= i < |act.batch| ==>
            (result.verdicts[i] == Inserted <==> Retains(gain, act.batch[i]) && act.batch[i] !in act.batch[..i]))
      && gain == Insertions(act.batch, result.verdicts, act.device, w.rowid)
      && result.rowid == w.rowid + |gain|
  {
    hide Inv, Apply, PushOf, Compact, Retains, Insertions;
    var gain := PushAnswered(w, act);
    assert Apply(w, act).history[|w.history|..] == gain;
  }

  /** Ids of the mutations of a batch that a log holds, or does not hold, in order. */
  ghost function IdsWhere(batch: seq<Mutation>, log: seq<Row>, held: bool): seq<string> {
    if batch == [] then []
    else (if Retains(log, batch[0]) == held then [batch[0].id] else []) + IdsWhere(batch[1..], log, held)
  }

  lemma {:induction false} IdsLast(batch: seq<Mutation>, m: Mutation, log: seq<Row>, held: bool)
    ensures IdsWhere(batch + [m], log, held)
         == IdsWhere(batch, log, held) + (if Retains(log, m) == held then [m.id] else [])
  {
    hide Retains;
    var all := batch + [m];
    if batch == [] {
      assert all[0] == m && all[1..] == [];
    } else {
      assert all[0] == batch[0] && all[1..] == batch[1..] + [m];
      IdsLast(batch[1..], m, log, held);
    }
  }

  lemma {:induction false} IdsByVerdict(batch: seq<Mutation>, verdicts: seq<Verdict>, log: seq<Row>)
    requires |verdicts| == |batch|
    requires forall i :: 0 <= i < |batch| ==> (verdicts[i] == Stale <==> !Retains(log, batch[i]))
    ensures AcceptedIds(batch, verdicts) == IdsWhere(batch, log, true)
    ensures RejectedIds(batch, verdicts) == IdsWhere(batch, log, false)
  {
    hide Retains;
    if batch != [] {
      var n := |batch| - 1;
      assert batch == batch[..n] + [batch[n]];
      IdsByVerdict(batch[..n], verdicts[..n], log);
      IdsLast(batch[..n], batch[n], log, true);
      IdsLast(batch[..n], batch[n], log, false);
    }
  }

  /**
   * The response to a push: the ids accepted are, in order, those of the mutations of the batch whose
   * rows the log holds when it ends, and the ids rejected those of the others.
   */
  lemma AcceptedMeansHeld(w: World, act: Action)
    requires Inv(w) && act.PushAct? && PushOf(w, act).Pushed?
    ensures var result := PushOf(w, act);
      && |result.verdicts| == |act.batch|
      && AcceptedIds(act.batch, result.verdicts) == IdsWhere(act.batch, result.account.log, true)
      && RejectedIds(act.batch, result.verdicts) == IdsWhere(act.batch, result.account.log, false)
  {
    hide Inv, Apply, PushOf, Retains, Insertions;
    VerdictsMean(w, act);
    IdsByVerdict(act.batch, PushOf(w, act).verdicts, PushOf(w, act).account.log);
  }

  /* ---- refusals ---- */

  /** The log has the mutation's id under another content. */
  ghost predicate Conflicts(log: seq<Row>, m: Mutation) {
    exists k :: 0 <= k < |log| && log[k].mutation.id == m.id && log[k].mutation != m
  }

  /** The mutation is new, past every row of its entity, and the quota has no room for it. */
  ghost predicate NoRoom(a: Account, m: Mutation, quota: int) {
    && (forall row :: row in a.log ==> row.mutation.id != m.id)
    && (m.entity in a.heads ==> m.revision > a.heads[m.entity].revision)
    && Bytes(a.log) + Size(m) > quota
  }

  /** The push of the first `i` mutations alone is taken, and the next one then fails with `error`. */
  ghost predicate FailsAt(w: World, act: Action, i: nat, error: PushError)
    requires act.PushAct? && i < |act.batch|
  {
    var before := PushOf(w, act.(batch := act.batch[..i]));
    && before.Pushed?
    && (if error == MutationConflict then Conflicts(before.account.log, act.batch[i])
        else error == AccountQuota && NoRoom(before.account, act.batch[i], act.quota))
  }

  ghost predicate StopsAt(d: Draft, batch: seq<Mutation>, i: nat, device: string, quota: int, error: PushError)
    requires i < |batch|
  {
    && PushAll(d, batch[..i], device, quota).Next?
    && PushOne(PushAll(d, batch[..i], device, quota).draft, batch[i], device, quota) == Abort(error)
  }

  lemma {:induction false} AbortsExactly(d: Draft, batch: seq<Mutation>, device: string, quota: int, error: PushError)
    ensures PushAll(d, batch, device, quota) == Abort(error)
       <==> exists i :: 0 <= i < |batch| && StopsAt(d, batch, i, device, quota, error)
    decreases |batch|
  {
    if batch != [] {
      hide PushOne, PushAll;
      var n := |batch| - 1;
      assert batch == batch[..n] + [batch[n]];
      PushLast(d, batch[..n], batch[n], device, quota);
      AbortsExactly(d, batch[..n], device, quota, error);
      forall i | 0 <= i < n
        ensures StopsAt(d, batch[..n], i, device, quota, error) <==> StopsAt(d, batch, i, device, quota, error)
      {
        assert batch[..n][..i] == batch[..i];
      }
      if PushAll(d, batch, device, quota) == Abort(error) && PushAll(d, batch[..n], device, quota).Next? {
        assert StopsAt(d, batch, n, device, quota, error);
      }
    }
  }

  lemma AbortMeans(d: Draft, m: Mutation, device: string, quota: int)
    requires DistinctIds(d.log) && d.bytes == Bytes(d.log)
    ensures PushOne(d, m, device, quota) == Abort(MutationConflict) <==> Conflicts(d.log, m)
    ensures PushOne(d, m, device, quota) == Abort(AccountQuota) <==>
      && (forall row :: row in d.log ==> row.mutation.id != m.id)
      && (m.entity in d.heads ==> m.revision > d.heads[m.entity].revision)
      && Bytes(d.log) + Size(m) > quota
    ensures PushOne(d, m, device, quota) in {Abort(MutationConflict), Abort(AccountQuota)}
         || PushOne(d, m, device, quota).Next?
  {
    hide Bytes;
    var found := FindId(d.log, m.id);
    if found.Some? {
      var k :| 0 <= k < |d.log| && d.log[k] == found.value;
      assert forall j :: 0 <= j < |d.log| && d.log[j].mutation.id == m.id ==> j == k;
    } else {
      assert forall k :: 0 <= k < |d.log| ==> d.log[k] in d.log;
    }
  }

  /** A push of a shorter batch, as a function of the transaction. */
  lemma PrefixPush(w: World, act: Action, i: nat)
    requires act.PushAct? && act.quota >= 1 && i <= |act.batch|
    ensures var before := PushOf(w, act.(batch := act.batch[..i]));
      var start := Opened(Compact(w.account, act.now, act.idleTtl, act.maxRows), w.rowid);
      var attempt := PushAll(start, act.batch[..i], act.device, act.quota);
      && (before.Pushed? <==> attempt.Next?)
      && (before.Pushed? ==> before.account.log == attempt.draft.log && before.account.heads == attempt.draft.heads)
      && (before.Refused? ==> attempt == Abort(before.error))
  {
    hide PushAll, Compact;
  }

  lemma StopsWhereItFails(w: World, act: Action, i: nat, error: PushError)
    requires Inv(w) && act.PushAct? && act.quota >= 1 && i < |act.batch|
    ensures var start := Opened(Compact(w.account, act.now, act.idleTtl, act.maxRows), w.rowid);
      StopsAt(start, act.batch, i, act.device, act.quota, error) <==> FailsAt(w, act, i, error)
  {
    hide Inv, Compact, Coherent, PushAll, PushOne, PushOf, Bytes, Answered, Insertions, Covers;
    var start := Opened(Compact(w.account, act.now, act.idleTtl, act.maxRows), w.rowid);
    PrefixPush(w, act, i);
    SyncPush.KeptCoherent(w, act.now, act.idleTtl, act.maxRows);
    if PushAll(start, act.batch[..i], act.device, act.quota).Next? {
      var d := PushAll(start, act.batch[..i], act.device, act.quota).draft;
      var gain := BatchAnswered(start, act.batch[..i], act.device, act.quota, w.history);
      CoherentDistinct(d, w.history + gain);
      AbortMeans(d, act.batch[i], act.device, act.quota);
    }
  }

  lemma CoherentDistinct(d: Draft, history: seq<Row>)
    requires DraftCoherent(d, history)
    ensures DistinctIds(d.log)
  {
  }

  /**
   * When a push is refused, and why: an invalid quota at once, and otherwise at the first mutation
   * whose id stands for another content in the log that the mutations before it leave, or that is
   * new and finds no room under the quota.
   */
  lemma RefusedExactly(w: World, act: Action)
    requires Inv(w) && act.PushAct?
    ensures PushOf(w, act) == Refused(InvalidQuota) <==> act.quota < 1
    ensures forall error :: error != InvalidQuota && act.quota >= 1 ==>
      (PushOf(w, act) == Refused(error) <==> exists i :: 0 <= i < |act.batch| && FailsAt(w, act, i, error))
  {
    if act.quota >= 1 {
      var start := Opened(Compact(w.account, act.now, act.idleTtl, act.maxRows), w.rowid);
      PrefixPush(w, act, |act.batch|);
      assert act.batch[..|act.batch|] == act.batch && act.(batch := act.batch) == act;
      NeverInvalid(start, act.batch, act.device, act.quota);
      hide Inv, Compact, PushAll, PushOne, PushOf, StopsAt, FailsAt, Opened;
      forall error | error != InvalidQuota
        ensures PushOf(w, act) == Refused(error) <==> exists i :: 0 <= i < |act.batch| && FailsAt(w, act, i, error)
      {
        AbortsExactly(start, act.batch, act.device, act.quota, error);
        forall i | 0 <= i < |act.batch|
          ensures StopsAt(start, act.batch, i, act.device, act.quota, error) <==> FailsAt(w, act, i, error)
        {
          StopsWhereItFails(w, act, i, error);
        }
      }
    }
  }

  lemma {:induction false} NeverInvalid(d: Draft, batch: seq<Mutation>, device: string, quota: int)
    ensures PushAll(d, batch, device, quota) != Abort(InvalidQuota)
    decreases |batch|
  {
    if batch != [] && PushOne(d, batch[0], device, quota).Next? {
      NeverInvalid(PushOne(d, batch[0], device, quota).draft, batch[1..], device, quota);
    }
  }

  /* ---- pull ---- */

  /** In order, the first of the log's wanted rows, `limit` of them unless there are fewer. */
  ghost predicate Leading(page: seq<Row>, log: seq<Row>, after: nat, profile: nat, limit: nat) {
    && Sorted(page) && |page| <= limit
    && (forall row :: row in page <==>
          row in log && Wanted(row, after, profile) && row.sequence <= NextCursor(page, after))
    && (|page| < limit ==> forall row :: row in log && Wanted(row, after, profile) ==> row in page)
  }

  lemma LeadingTaken(rest: seq<Row>, log: seq<Row>, after: nat, profile: nat, limit: nat)
    requires Sorted(log) && log != [] && Wanted(log[0], after, profile) && limit > 0
    requires Leading(rest, log[1..], after, profile, limit - 1)
    ensures Leading([log[0]] + rest, log, after, profile, limit)
  {
    LogSplits(log);
    hide Wanted;
    var page := [log[0]] + rest;
    assert page[1..] == rest;
    forall i | 0 <= i < |rest| ensures log[0].sequence < rest[i].sequence {
      assert rest[i] in rest;
    }
    if rest != [] {
      assert rest[|rest| - 1] in rest;
      assert NextCursor(page, after) == NextCursor(rest, after);
    }
  }

  lemma LeadingSkipped(page: seq<Row>, log: seq<Row>, after: nat, profile: nat, limit: nat)
    requires Sorted(log) && log != [] && !Wanted(log[0], after, profile)
    requires Leading(page, log[1..], after, profile, limit)
    ensures Leading(page, log, after, profile, limit)
  {
    LogSplits(log);
    hide Wanted, Sorted;
  }

  lemma LogSplits(log: seq<Row>)
    requires Sorted(log) && log != []
    ensures Sorted(log[1..])
    ensures forall row :: row in log <==> row == log[0] || row in log[1..]
    ensures forall row :: row in log[1..] ==> log[0].sequence < row.sequence
  {
  }

  lemma {:induction false} PageLeads(log: seq<Row>, after: nat, profile: nat, limit: nat)
    requires Sorted(log)
    ensures Leading(Page(log, after, profile, limit), log, after, profile, limit)
    decreases |log|
  {
    if log == [] || limit == 0 {
    } else {
      LogSplits(log);
      hide Sorted, Leading, Wanted;
      if Wanted(log[0], after, profile) {
        PageLeads(log[1..], after, profile, limit - 1);
        LeadingTaken(Page(log[1..], after, profile, limit - 1), log, after, profile, limit);
      } else {
        PageLeads(log[1..], after, profile, limit);
        LeadingSkipped(Page(log[1..], after, profile, limit), log, after, profile, limit);
      }
    }
  }

  /** The retained rows that a pull asks for, from any cursor. */
  ghost predicate AsksFor(a: Account, cursor: Option<nat>, profile: nat, row: Row) {
    && row in a.log
    && (cursor.Some? ==> row.sequence > cursor.value)
    && (profile == 0 || row.mutation.entity.profile == profile)
  }

  /**
   * The answer to a pull, from whatever cursor: in order, the first rows among those it asks for, up
   * to the next cursor it reports; `limit` of them when more remain, and it says whether they do. A
   * pull that brings nothing reports its own cursor back, brought down to the last row there ever was.
   */
  lemma ServesExactly(w: World, cursor: Option<nat>, limit: nat, profile: nat)
    requires Inv(w)
    ensures var response := Serve(w.account, cursor, limit, profile);
      var next := response.nextCursor.GetOr(0);
      && Sorted(response.page)
      && (forall row :: row in response.page <==> AsksFor(w.account, cursor, profile, row) && row.sequence <= next)
      && (response.hasMore <==> exists row :: AsksFor(w.account, cursor, profile, row) && row.sequence > next)
      && |response.page| <= limit
      && (response.hasMore ==> |response.page| == limit)
      && (response.page != [] ==> next == response.page[|response.page| - 1].sequence)
      && (response.page == [] ==>
            response.nextCursor == match cursor
                                   case None => None
                                   case Some(c) => var at := Min(c, LastSequence(w.history));
                                                   if at > 0 then Some(at) else None)
  {
    var a := w.account;
    var after := Min(cursor.GetOr(0), a.lastSequence);
    LogSorted(w);
    AsksAfter(w, cursor, profile);
    hide Inv, AsksFor, Wanted, Page;
    PageLeads(a.log, after, profile, limit);
    var page := Page(a.log, after, profile, limit);
    MoreLeads(a.log, page, after, profile, limit);
    hide Sorted;
  }

  /** Whether a wanted row lies past the page. */
  lemma MoreLeads(log: seq<Row>, page: seq<Row>, after: nat, profile: nat, limit: nat)
    requires Sorted(log) && Leading(page, log, after, profile, limit)
    ensures var next := NextCursor(page, after);
      && (Page(log, next, profile, 1) != [] <==>
            exists row :: row in log && Wanted(row, after, profile) && row.sequence > next)
      && (Page(log, next, profile, 1) != [] ==> |page| == limit)
      && after <= next
  {
    var next := NextCursor(page, after);
    if page != [] {
      assert page[|page| - 1] in page;
    }
    PageLeads(log, next, profile, 1);
    WantedLater(after, next, profile);
    hide Wanted, Sorted, Page;
    var more := Page(log, next, profile, 1);
    if more != [] {
      assert more[0] in more;
    }
  }

  lemma WantedLater(after: nat, next: nat, profile: nat)
    requires after <= next
    ensures forall row :: Wanted(row, next, profile) <==> Wanted(row, after, profile) && row.sequence > next
  {
  }

  lemma AsksAfter(w: World, cursor: Option<nat>, profile: nat)
    requires Inv(w)
    ensures w.account.lastSequence == LastSequence(w.history)
    ensures forall row :: AsksFor(w.account, cursor, profile, row) <==>
      row in w.account.log && Wanted(row, Min(cursor.GetOr(0), w.account.lastSequence), profile)
  {
    SyncDelivery.InvGives(w);
    forall row | row in w.account.log ensures 0 < row.sequence <= w.account.lastSequence {
      var i :| 0 <= i < |w.account.log| && w.account.log[i] == row;
      assert w.history[|w.history| - |w.account.log| + i] == row;
    }
  }
}
