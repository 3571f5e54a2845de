/**
 * A device that pulls one profile and never the whole log: its unscoped cursor stays at nothing
 * served, which holds compaction back altogether, so it misses no row of its profile either.
 */
module SyncProfiles {
  import opened Wrappers
  import opened SyncModel
  import opened SyncRuns
  import opened SyncDelivery
  import Devices

  /** The rows of one profile, in order. */
  function RowsOf(log: seq<Row>, profile: nat): seq<Row> {
    if log == [] then []
    else (if log[0].mutation.entity.profile == profile then [log[0]] else []) + RowsOf(log[1..], profile)
  }

  predicate ProfilePull(act: Action, device: string, profile: nat) {
    act.PullAct? && act.device == device && act.profile == profile
  }

  ghost function ReceiveOf(w: World, act: Action, c: Client, profile: nat): Client {
    if ProfilePull(act, c.device, profile) && c.device in w.account.registry.devices then
      var response := Serve(w.account, act.cursor, act.limit, profile);
      c.(cursor := response.nextCursor.GetOr(0), received := c.received + response.page)
    else c
  }

  /** As in SyncDelivery, for one profile; the device never pulls all profiles at once. */
  ghost predicate HonoursOf(w: World, act: Action, c: Client, profile: nat) {
    && (ProfilePull(act, c.device, profile) ==> act.cursor.GetOr(0) == c.cursor)
    && !OwnPull(act, c.device)
    && (act.PushAct? || act.PullAct? || act.CompactAct? ==>
          c.device in Devices.Active(w.account.registry, act.now, act.idleTtl))
  }

  ghost predicate HonestRunOf(w: World, acts: seq<Action>, c: Client, profile: nat)
    decreases |acts|
  {
    acts == [] ||
    (HonoursOf(w, acts[0], c, profile) &&
     HonestRunOf(Apply(w, acts[0]), acts[1..], ReceiveOf(w, acts[0], c, profile), profile))
  }

  ghost function RunClientOf(w: World, acts: seq<Action>, c: Client, profile: nat): Client
    decreases |acts|
  {
    if acts == [] then c else RunClientOf(Apply(w, acts[0]), acts[1..], ReceiveOf(w, acts[0], c, profile), profile)
  }

  /** The client holds the first of these rows, and its cursor parts them from the rest. */
  ghost predicate Parted(rows: seq<Row>, received: seq<Row>, cursor: nat) {
    var n := |received|;
    && n <= |rows| && received == rows[..n]
    && (forall i :: 0 <= i < n ==> rows[i].sequence <= cursor)
    && (forall i :: n <= i < |rows| ==> rows[i].sequence > cursor)
  }

  /** Nothing was compacted since `from`, and the client has its profile's rows up to its cursor. */
  ghost predicate InStepOf(w: World, c: Client, from: nat, profile: nat) {
    && from <= |w.history| && w.account.log == w.history[from..]
    && CursorKey(c.device, 0) !in w.account.cursors
    && Parted(RowsOf(w.account.log, profile), c.received, c.cursor)
    && c.cursor <= w.account.lastSequence
  }

  lemma {:induction false} PageOfProfile(log: seq<Row>, after: nat, profile: nat, limit: nat)
    requires profile > 0
    ensures Page(log, after, profile, limit) == Page(RowsOf(log, profile), after, 0, limit)
  {
    if log != [] && limit > 0 {
      var rows := RowsOf(log[1..], profile);
      if log[0].mutation.entity.profile == profile {
        assert ([log[0]] + rows)[1..] == rows;
        PageOfProfile(log[1..], after, profile, limit - 1);
        PageOfProfile(log[1..], after, profile, limit);
      } else {
        assert RowsOf(log, profile) == rows;
        PageOfProfile(log[1..], after, profile, limit);
      }
    }
  }

  lemma {:induction false} RowsAreRows(log: seq<Row>, profile: nat)
    ensures forall row :: row in RowsOf(log, profile) ==> row in log
  {
    if log != [] {
      RowsAreRows(log[1..], profile);
    }
  }

  lemma {:induction false} RowsSorted(log: seq<Row>, profile: nat)
    requires Sorted(log)
    ensures Sorted(RowsOf(log, profile))
  {
    if log != [] {
      SortedTail(log);
      hide Sorted;
      RowsSorted(log[1..], profile);
      RowsAreRows(log[1..], profile);
      var rest := RowsOf(log[1..], profile);
      if log[0].mutation.entity.profile == profile {
        SortedCons(log[0], rest);
      } else {
        assert RowsOf(log, profile) == rest;
      }
    }
  }

  lemma SortedTail(log: seq<Row>)
    requires Sorted(log) && log != []
    ensures Sorted(log[1..]) && log[0].sequence > 0
    ensures forall row :: row in log[1..] ==> log[0].sequence < row.sequence
  {
  }

  lemma SortedCons(row: Row, rest: seq<Row>)
    requires Sorted(rest) && row.sequence > 0 && forall later :: later in rest ==> row.sequence < later.sequence
    ensures Sorted([row] + rest)
  {
    assert forall i :: 0 <= i < |rest| ==> rest[i] in rest;
  }

  lemma {:induction false} RowsConcat(a: seq<Row>, b: seq<Row>, profile: nat)
    ensures RowsOf(a + b, profile) == RowsOf(a, profile) + RowsOf(b, profile)
  {
    if a == [] {
      assert a + b == b;
    } else {
      assert (a + b)[1..] == a[1..] + b;
      RowsConcat(a[1..], b, profile);
    }
  }

  /** A device at cursor 0 holds everything back. */
  lemma NothingCompacted(a: Account, device: string, now: int, idleTtl: nat, maxRows: nat)
    requires device in Devices.Active(a.registry, now, idleTtl) && CursorKey(device, 0) !in a.cursors
    ensures Compact(a, now, idleTtl, maxRows) == a
  {
    assert CursorOf(a, device) == 0;
  }

  lemma NextRows(rows: seq<Row>, received: seq<Row>, cursor: nat, limit: nat)
    requires Sorted(rows) && Parted(rows, received, cursor)
    ensures var n, k := |received|, Min(limit, |rows| - |received|);
      var page := Page(rows, cursor, 0, limit);
      && page == rows[n..n + k]
      && Parted(rows, received + page, NextCursor(page, cursor))
      && (Page(rows, NextCursor(page, cursor), 0, 1) != [] <==> n + k < |rows|)
  {
    var n, k := |received|, Min(limit, |rows| - |received|);
    PageIsNext(rows, cursor, limit, n);
    CursorSplits(rows, cursor, n, k);
    var next := NextCursor(rows[n..n + k], cursor);
    assert rows[..n] + rows[n..n + k] == rows[..n + k];
    PageIsNext(rows, next, 1, n + k);
  }

  /** The answer to an honest pull of the profile. */
  lemma ServesRows(w: World, c: Client, from: nat, profile: nat, cursor: Option<nat>, limit: nat)
    requires Inv(w) && InStepOf(w, c, from, profile) && profile > 0 && cursor.GetOr(0) == c.cursor
    ensures var rows := RowsOf(w.account.log, profile);
      var n, k := |c.received|, Min(limit, |rows| - |c.received|);
      var response := Serve(w.account, cursor, limit, profile);
      && response.page == rows[n..n + k]
      && response.nextCursor.GetOr(0) == NextCursor(response.page, c.cursor)
      && Parted(rows, c.received + response.page, response.nextCursor.GetOr(0))
      && (response.hasMore <==> n + k < |rows|)
  {
    hide Inv, Sorted, Suffix, Page, RowsOf, Parted;
    InvGives(w);
    LogSortedHere(w);
    var rows := RowsOf(w.account.log, profile);
    RowsSorted(w.account.log, profile);
    NextRows(rows, c.received, c.cursor, limit);
    PageOfProfile(w.account.log, c.cursor, profile, limit);
    PageOfProfile(w.account.log, NextCursor(Page(rows, c.cursor, 0, limit), c.cursor), profile, 1);
    PartedBounds(rows, c.received, c.cursor);
  }

  lemma PartedBounds(rows: seq<Row>, received: seq<Row>, cursor: nat)
    requires Parted(rows, received, cursor)
    ensures |received| <= |rows|
  {
  }

  lemma LogSortedHere(w: World)
    requires Inv(w)
    ensures Sorted(w.account.log)
  {
    InvGives(w);
  }

  lemma PulledInStep(w: World, act: Action, c: Client, from: nat, profile: nat)
    requires Inv(w) && InStepOf(w, c, from, profile) && profile > 0
    requires HonoursOf(w, act, c, profile) && act.PullAct?
    ensures InStepOf(Apply(w, act), ReceiveOf(w, act, c, profile), from, profile)
  {
    hide Inv, Parted, RowsOf, Serve;
    var a := w.account;
    if act.device in a.registry.devices {
      ServedBounded(w, act.cursor, act.limit, act.profile);
      var after := Min(act.cursor.GetOr(0), a.lastSequence);
      var next := NextCursor(Serve(a, act.cursor, act.limit, act.profile).page, after);
      var noted := Acknowledge(a, act.device, act.profile, next);
      NothingCompacted(noted, c.device, act.now, act.idleTtl, act.maxRows);
      if ProfilePull(act, c.device, profile) {
        ServesRows(w, c, from, profile, act.cursor, act.limit);
        assert ReceiveOf(w, act, c, profile).cursor == next;
      }
      assert Apply(w, act).account == noted;
    }
  }

  lemma ServedBounded(w: World, cursor: Option<nat>, limit: nat, profile: nat)
    requires Inv(w)
    ensures var after := Min(cursor.GetOr(0), w.account.lastSequence);
      NextCursor(Serve(w.account, cursor, limit, profile).page, after) <= w.account.lastSequence
  {
    NextBounded(w, cursor, limit, profile);
  }

  lemma PushedInStep(w: World, act: Action, c: Client, from: nat, profile: nat)
    requires Inv(w) && InStepOf(w, c, from, profile) && HonoursOf(w, act, c, profile) && act.PushAct?
    ensures InStepOf(Apply(w, act), c, from, profile)
  {
    hide Inv, Coherent;
    if Push(w.account, w.rowid, act.device, act.batch, act.quota, act.now, act.idleTtl, act.maxRows).Pushed? {
      NothingCompacted(w.account, c.device, act.now, act.idleTtl, act.maxRows);
      var gain := PushGain(w, act);
      var after := Apply(w, act);
      InvGives(w);
      InvGives(after);
      LastSequenceRises(w.history, gain);
      hide Apply, Push, Suffix, Parted, RowsOf;
      assert after.history[from..] == w.history[from..] + gain;
      GrowsParted(w.history, w.account.log, gain, c, profile);
    }
  }

  lemma GrowsParted(history: seq<Row>, log: seq<Row>, gain: seq<Row>, c: Client, profile: nat)
    requires Sorted(history + gain) && Parted(RowsOf(log, profile), c.received, c.cursor)
    requires c.cursor <= LastSequence(history)
    ensures Parted(RowsOf(log + gain, profile), c.received, c.cursor)
  {
    RowsConcat(log, gain, profile);
    RowsAreRows(gain, profile);
    forall i | 0 <= i < |gain|
      ensures gain[i].sequence > c.cursor
    {
      assert (history + gain)[|history| + i] == gain[i];
      if history != [] {
        assert (history + gain)[|history| - 1] == history[|history| - 1];
      }
    }
    assert forall i :: 0 <= i < |RowsOf(gain, profile)| ==> RowsOf(gain, profile)[i] in gain;
  }

  lemma StepInStepOf(w: World, act: Action, c: Client, from: nat, profile: nat)
    requires Inv(w) && InStepOf(w, c, from, profile) && HonoursOf(w, act, c, profile) && profile > 0
    ensures InStepOf(Apply(w, act), ReceiveOf(w, act, c, profile), from, profile)
  {
    hide Inv, Parted, RowsOf;
    match act
    case PushAct(_, _, _, _, _, _) => PushedInStep(w, act, c, from, profile);
    case PullAct(_, _, _, _, _, _, _) => PulledInStep(w, act, c, from, profile);
    case CompactAct(now, idleTtl, maxRows) => NothingCompacted(w.account, c.device, now, idleTtl, maxRows);
    case EnsureAct(_, _, _, _, _) =>
    case RevokeAct(_, _) =>
    case ElsewhereAct(_) =>
  }

  lemma {:induction false} RunInStepOf(w: World, acts: seq<Action>, c: Client, from: nat, profile: nat)
    requires Inv(w) && InStepOf(w, c, from, profile) && HonestRunOf(w, acts, c, profile) && profile > 0
    ensures Inv(Run(w, acts)) && InStepOf(Run(w, acts), RunClientOf(w, acts, c, profile), from, profile)
    decreases |acts|
  {
    hide Inv, InStepOf, Apply, HonoursOf;
    if acts != [] {
      StepKeepsInv(w, acts[0]);
      StepInStepOf(w, acts[0], c, from, profile);
      RunInStepOf(Apply(w, acts[0]), acts[1..], ReceiveOf(w, acts[0], c, profile), from, profile);
    }
  }

  lemma FreshInStepOf(w: World, enrol: Action, profile: nat) returns (from: nat)
    requires Inv(w) && enrol.EnsureAct? && enrol.id !in w.account.registry.devices
    ensures var w0 := Apply(w, enrol);
      && from == |w0.history| - |w0.account.log| && InStepOf(w0, Client(enrol.id, 0, []), from, profile)
  {
    var w0 := Apply(w, enrol);
    from := |w0.history| - |w0.account.log|;
    assert CursorKey(enrol.id, 0) !in w0.account.cursors;
    InvGives(w);
    LogSortedHere(w);
    RowsSorted(w.account.log, profile);
  }

  /**
   * A device that enrols, stays active, pulls one profile honestly and never all of them loses no
   * row of that profile: nothing retained at its enrolment or accepted since is ever compacted, it
   * holds the profile's rows among them in order and once each up to its cursor, and its next pull
   * brings the next min(limit, missing) of them and says whether more remain.
   */
  lemma ProfileLosesNothing(before: seq<Action>, enrol: Action, after: seq<Action>, profile: nat, limit: nat)
    requires enrol.EnsureAct? && enrol.id !in Run(START, before).account.registry.devices && profile > 0
    requires HonestRunOf(Apply(Run(START, before), enrol), after, Client(enrol.id, 0, []), profile)
    ensures var w0 := Apply(Run(START, before), enrol);
      var w, c := Run(w0, after), RunClientOf(w0, after, Client(enrol.id, 0, []), profile);
      var from := |w0.history| - |w0.account.log|;
      && 0 <= from <= |w.history| && w.account.log == w.history[from..]
      && var rows := RowsOf(w.history[from..], profile);
         var n := |c.received|;
         var next := Serve(w.account, Some(c.cursor), limit, profile);
         && n <= |rows| && c.received == rows[..n]
         && var k := Min(limit, |rows| - n);
            next.page == rows[n..n + k] && (next.hasMore <==> n + k < |rows|)
  {
    hide Inv, Apply, HonestRunOf, RowsOf, Serve;
    var w1 := Run(START, before);
    StartInv();
    RunKeepsInv(START, before);
    StepKeepsInv(w1, enrol);
    var from := FreshInStepOf(w1, enrol, profile);
    var w0 := Apply(w1, enrol);
    RunInStepOf(w0, after, Client(enrol.id, 0, []), from, profile);
    var w, c := Run(w0, after), RunClientOf(w0, after, Client(enrol.id, 0, []), profile);
    ServesRows(w, c, from, profile, Some(c.cursor), limit);
  }
}
