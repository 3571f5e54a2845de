/**
 * Cursors and compaction: which cursor the server holds for a device, over every run of careful and
 * careless devices alike, and which rows each step of a run deletes for it.
 */
module SyncCursors {
  import opened Wrappers
  import opened SyncModel
  import opened SyncRuns
  import opened SyncTransparency
  import Devices
  import SyncDelivery

  /* ---- the stored cursor ---- */

  /** The next cursors that the answers to one device and profile carried (null for 0), in order. */
  ghost function Answers(w: World, acts: seq<Action>, key: CursorKey): seq<nat>
    decreases |acts|
  {
    if acts == [] then []
    else Answer(w, acts[0], key) + Answers(Apply(w, acts[0]), acts[1..], key)
  }

  ghost function Answer(w: World, act: Action, key: CursorKey): seq<nat> {
    if act.PullAct? && CursorKey(act.device, act.profile) == key && act.device in w.account.registry.devices
    then [Serve(w.account, act.cursor, act.limit, act.profile).nextCursor.GetOr(0)] else []
  }

  ghost predicate Greatest(cursors: map<CursorKey, nat>, key: CursorKey, answers: seq<nat>) {
    && (key in cursors <==> answers != [])
    && (key in cursors ==> cursors[key] in answers)
    && (forall next :: next in answers ==> key in cursors && next <= cursors[key])
  }

  lemma StepAnswers(w: World, act: Action, key: CursorKey, past: seq<nat>)
    requires Greatest(w.account.cursors, key, past)
    ensures Greatest(Apply(w, act).account.cursors, key, past + Answer(w, act, key))
  {
    hide Compact;
    assert past + [] == past;
  }

  lemma {:induction false} RunAnswers(w: World, acts: seq<Action>, key: CursorKey, past: seq<nat>)
    requires Greatest(w.account.cursors, key, past)
    ensures Greatest(Run(w, acts).account.cursors, key, past + Answers(w, acts, key))
    decreases |acts|
  {
    hide Greatest, Apply, Answer;
    if acts == [] {
      assert past + [] == past;
    } else {
      var one := Answer(w, acts[0], key);
      StepAnswers(w, acts[0], key, past);
      RunAnswers(Apply(w, acts[0]), acts[1..], key, past + one);
      assert past + one + Answers(Apply(w, acts[0]), acts[1..], key) == past + Answers(w, acts, key);
    }
  }

  /**
   * After any run the stored cursor of a device and profile is the greatest next cursor that any
   * answer to that device and profile carried, and there is none without an answer.
   */
  lemma CursorIsGreatest(acts: seq<Action>, key: CursorKey)
    ensures Greatest(Run(START, acts).account.cursors, key, Answers(START, acts, key))
  {
    RunAnswers(START, acts, key, []);
    assert [] + Answers(START, acts, key) == Answers(START, acts, key);
  }

  /** An answer to the device, for all profiles, carried a next cursor at or past the row. */
  ghost predicate ServedPast(acts: seq<Action>, device: string, row: Row) {
    exists next :: next in Answers(START, acts, CursorKey(device, 0)) && row.sequence <= next
  }

  lemma PassedWhenServed(acts: seq<Action>, device: string, row: Row)
    requires row.sequence > 0
    ensures row.sequence <= CursorOf(Run(START, acts).account, device) <==> ServedPast(acts, device, row)
  {
    CursorIsGreatest(acts, CursorKey(device, 0));
  }

  /* ---- what a compaction deletes ---- */

  /** Every active device has an unscoped cursor at or past the row. */
  ghost predicate Passed(a: Account, active: set<string>, row: Row) {
    forall d :: d in active ==> row.sequence <= CursorOf(a, d)
  }

  ghost function CountPassed(log: seq<Row>, a: Account, active: set<string>): (n: nat)
    ensures n <= |log|
  {
    if log == [] then 0 else (if Passed(a, active, log[0]) then 1 else 0) + CountPassed(log[1..], a, active)
  }

  /** How many rows a compaction deletes: none without an active device, at most `maxRows`. */
  ghost function Deletions(log: seq<Row>, a: Account, active: set<string>, maxRows: nat): (n: nat)
    ensures n <= |log|
  {
    if active == {} then 0 else Min(maxRows, CountPassed(log, a, active))
  }

  lemma {:induction false} DropsPassed(log: seq<Row>, a: Account, active: set<string>, cursor: nat, maxRows: nat)
    requires Sorted(log) && active != {}
    requires forall row :: Passed(a, active, row) <==> row.sequence <= cursor
    ensures DropBehind(log, cursor, maxRows) == log[Min(maxRows, CountPassed(log, a, active))..]
    decreases |log|
  {
    hide Passed;
    if log == [] || maxRows == 0 {
    } else if log[0].sequence <= cursor {
      DropsPassed(log[1..], a, active, cursor, maxRows - 1);
      var n := Min(maxRows - 1, CountPassed(log[1..], a, active));
      assert log[1..][n..] == log[n + 1..];
    } else {
      DropsNothing(log, cursor, maxRows);
      NonePassed(log, a, active, cursor);
    }
  }

  lemma {:induction false} NonePassed(log: seq<Row>, a: Account, active: set<string>, cursor: nat)
    requires Sorted(log) && (log != [] ==> log[0].sequence > cursor)
    requires forall row :: Passed(a, active, row) <==> row.sequence <= cursor
    ensures CountPassed(log, a, active) == 0
  {
    hide Passed;
    if log != [] {
      NonePassed(log[1..], a, active, cursor);
    }
  }

  /** From any account: the rows kept are all but the first ones that every active device has passed. */
  lemma CompactExactly(a: Account, now: int, idleTtl: nat, maxRows: nat)
    requires Sorted(a.log)
    ensures var active := Devices.Active(a.registry, now, idleTtl);
      Compact(a, now, idleTtl, maxRows) == a.(log := a.log[Deletions(a.log, a, active, maxRows)..])
  {
    var active := Devices.Active(a.registry, now, idleTtl);
    match SlowestCursor(a, now, idleTtl)
    case None =>
    case Some(cursor) =>
      PassedBySlowest(a, now, idleTtl);
      if cursor == 0 {
        NonePassed(a.log, a, active, cursor);
      } else {
        DropsPassed(a.log, a, active, cursor, maxRows);
      }
  }

  lemma PassedBySlowest(a: Account, now: int, idleTtl: nat)
    requires SlowestCursor(a, now, idleTtl).Some?
    ensures forall row :: Passed(a, Devices.Active(a.registry, now, idleTtl), row)
                     <==> row.sequence <= SlowestCursor(a, now, idleTtl).value
  {
    var active := Devices.Active(a.registry, now, idleTtl);
    var slowest := SlowestCursor(a, now, idleTtl).value;
    forall row ensures Passed(a, active, row) <==> row.sequence <= slowest {
      var d :| d in active && slowest == CursorOf(a, d);
    }
  }

  /** The devices that count as active when the step compacts. */
  function ActiveAt(w: World, act: Action): set<string>
    requires act.PushAct? || act.PullAct? || act.CompactAct?
  {
    Devices.Active(w.account.registry, act.now, act.idleTtl)
  }

  /** A step that compacts: a push that is taken, a pull by a known device, or a compaction. */
  ghost predicate Compacts(w: World, act: Action) {
    || (act.PushAct? && PushOf(w, act).Pushed?)
    || (act.PullAct? && act.device in w.account.registry.devices)
    || act.CompactAct?
  }

  /**
   * Each step that compacts leaves all of the log but its first n rows, and then the rows it adds:
   * n counts the rows that every active device has passed, by the cursors the step leaves, up to
   * maxRows; it is 0 when no device is active.
   */
  lemma StepCompacts(w: World, act: Action)
    requires Inv(w) && Compacts(w, act)
    ensures var u := Apply(w, act);
      var n := Deletions(w.account.log, u.account, ActiveAt(w, act), act.maxRows);
      && w.history <= u.history
      && u.account.log == w.account.log[n..] + u.history[|w.history|..]
  {
    LogSorted(w);
    match act
    case PushAct(_, _, _, now, idleTtl, maxRows) =>
      PushCompacts(w, act);
    case PullAct(device, cursor, limit, profile, now, idleTtl, maxRows) =>
      PullCompacts(w, act);
    case CompactAct(now, idleTtl, maxRows) =>
      CompactExactly(w.account, now, idleTtl, maxRows);
      SameCursors(w.account.log, w.account, Apply(w, act).account,
        Devices.Active(w.account.registry, now, idleTtl));
  }

  lemma PushCompacts(w: World, act: Action)
    requires Inv(w) && act.PushAct? && PushOf(w, act).Pushed?
    ensures var u := Apply(w, act);
      var n := Deletions(w.account.log, u.account, ActiveAt(w, act), act.maxRows);
      && w.history <= u.history
      && u.account.log == w.account.log[n..] + u.history[|w.history|..]
  {
    LogSorted(w);
    hide Inv;
    var gain := PushGain(w, act);
    CompactExactly(w.account, act.now, act.idleTtl, act.maxRows);
    SameCursors(w.account.log, w.account, Apply(w, act).account,
      ActiveAt(w, act));
    assert Apply(w, act).history[|w.history|..] == gain;
  }

  lemma PullCompacts(w: World, act: Action)
    requires Inv(w) && act.PullAct? && act.device in w.account.registry.devices
    ensures var u := Apply(w, act);
      var n := Deletions(w.account.log, u.account, ActiveAt(w, act), act.maxRows);
      && w.history == u.history
      && u.account.log == w.account.log[n..]
  {
    LogSorted(w);
    hide Inv;
    var a := w.account;
    var after := Min(act.cursor.GetOr(0), a.lastSequence);
    var next := NextCursor(Serve(a, act.cursor, act.limit, act.profile).page, after);
    var noted := Acknowledge(a, act.device, act.profile, next);
    CompactExactly(noted, act.now, act.idleTtl, act.maxRows);
    SameCursors(a.log, noted, Apply(w, act).account, Devices.Active(a.registry, act.now, act.idleTtl));
  }

  lemma {:induction false} SameCursors(log: seq<Row>, a: Account, b: Account, active: set<string>)
    requires a.cursors == b.cursors
    ensures CountPassed(log, a, active) == CountPassed(log, b, active)
  {
    if log != [] {
      SameCursors(log[1..], a, b, active);
      assert forall d :: CursorOf(a, d) == CursorOf(b, d);
    }
  }

  lemma {:induction false} CountIsPrefix(log: seq<Row>, a: Account, active: set<string>, i: nat)
    requires Sorted(log) && i < |log|
    ensures i < CountPassed(log, a, active) <==> Passed(a, active, log[i])
  {
    if Passed(a, active, log[0]) {
      if i > 0 {
        CountIsPrefix(log[1..], a, active, i - 1);
      }
    } else {
      NoLaterPassed(log, a, active);
    }
  }

  lemma {:induction false} NoLaterPassed(log: seq<Row>, a: Account, active: set<string>)
    requires Sorted(log) && log != [] && !Passed(a, active, log[0])
    ensures CountPassed(log, a, active) == 0
    ensures forall i :: 0 <= i < |log| ==> !Passed(a, active, log[i])
  {
    var d :| d in active && log[0].sequence > CursorOf(a, d);
    forall i | 0 <= i < |log| ensures !Passed(a, active, log[i]) {
      assert log[i].sequence > CursorOf(a, d);
    }
    if |log| > 1 {
      NoLaterPassed(log[1..], a, active);
    }
  }

  lemma DeletesPassed(w: World, u: World, active: set<string>, maxRows: nat, i: nat)
    requires Inv(w) && Inv(u) && w.history <= u.history && i < |w.account.log|
    requires u.account.log
          == w.account.log[Deletions(w.account.log, u.account, active, maxRows)..] + u.history[|w.history|..]
    ensures w.account.log[i].sequence > 0
    ensures w.account.log[i] !in u.account.log <==>
      active != {} && i < maxRows && Passed(u.account, active, w.account.log[i])
  {
    LogSorted(w);
    hide Inv, Sorted, Passed, CountPassed;
    DropsFirst(w, u, Deletions(w.account.log, u.account, active, maxRows), i);
    CountIsPrefix(w.account.log, u.account, active, i);
  }

  lemma StepDeletes(w: World, act: Action, i: nat)
    requires Inv(w) && Compacts(w, act) && i < |w.account.log|
    ensures w.account.log[i].sequence > 0
    ensures var active := ActiveAt(w, act);
      w.account.log[i] !in Apply(w, act).account.log <==>
        active != {} && i < act.maxRows && Passed(Apply(w, act).account, active, w.account.log[i])
  {
    hide Inv, Apply, Passed, Deletions, PushOf, ActiveAt;
    StepKeepsInv(w, act);
    StepCompacts(w, act);
    DeletesPassed(w, Apply(w, act), ActiveAt(w, act), act.maxRows, i);
  }

  /**
   * So in every run, whatever the devices ask for and in whatever order, a step that compacts deletes
   * a row if and only if some device is active, the row is among the first maxRows, and every active
   * device was sent a next cursor at or past it, by this very step or before.
   */
  lemma DeletesExactly(acts: seq<Action>, act: Action, i: nat)
    requires Compacts(Run(START, acts), act)
    requires i < |Run(START, acts).account.log|
    ensures var w := Run(START, acts);
      var active := ActiveAt(w, act);
      w.account.log[i] !in Apply(w, act).account.log <==>
        && active != {} && i < act.maxRows
        && forall d :: d in active ==> ServedPast(acts + [act], d, w.account.log[i])
  {
    hide Inv, Run, Apply, PushOf, Passed, ServedPast, ActiveAt;
    SyncDelivery.StartInv();
    RunKeepsInv(START, acts);
    var w := Run(START, acts);
    StepDeletes(w, act, i);
    RunOneMore(START, acts, act);
    PassedByAll(acts + [act], ActiveAt(w, act), w.account.log[i]);
  }

  lemma PassedByAll(acts: seq<Action>, active: set<string>, row: Row)
    requires row.sequence > 0
    ensures Passed(Run(START, acts).account, active, row) <==> forall d :: d in active ==> ServedPast(acts, d, row)
  {
    hide ServedPast, CursorOf, Run;
    forall d ensures row.sequence <= CursorOf(Run(START, acts).account, d) <==> ServedPast(acts, d, row) {
      PassedWhenServed(acts, d, row);
    }
  }

  /** A log that lost its first n rows and gained later ones holds the others and not those. */
  lemma DropsFirst(w: World, u: World, n: nat, i: nat)
    requires Inv(w) && Inv(u) && w.history <= u.history
    requires n <= |w.account.log| && i < |w.account.log|
    requires u.account.log == w.account.log[n..] + u.history[|w.history|..]
    ensures w.account.log[i].sequence > 0
    ensures w.account.log[i] in u.account.log <==> n <= i
  {
    var at := |w.history| - |w.account.log|;
    assert w.account.log[i] == w.history[at + i] == u.history[at + i];
    if n <= i {
      assert u.account.log[i - n] == w.account.log[i];
    } else {
      forall j | 0 <= j < |u.account.log| ensures u.account.log[j] != w.account.log[i] {
        assert u.account.log[j] == u.history[at + n + j];
      }
    }
  }

  lemma {:induction false} RunOneMore(w: World, acts: seq<Action>, act: Action)
    ensures Run(w, acts + [act]) == Apply(Run(w, acts), act)
    decreases |acts|
  {
    hide Apply;
    if acts == [] {
      assert acts + [act] == [act] && [act][1..] == [];
    } else {
      assert (acts + [act])[1..] == acts[1..] + [act];
      RunOneMore(Apply(w, acts[0]), acts[1..], act);
    }
  }
}
