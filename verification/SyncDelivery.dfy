/**
 * What an honest device receives: every row accepted since it enrolled, once, in order.
 */
module SyncDelivery {
  import opened Wrappers
  import opened SyncModel
  import opened SyncRuns
  import Devices

  /** A device's own memory: the cursor it was last given and all rows it was delivered. */
  datatype Client = Client(device: string, cursor: nat, received: seq<Row>)

  /** The client's unscoped pulls deliver; nothing else reaches it. */
  predicate OwnPull(act: Action, device: string) {
    act.PullAct? && act.device == device && act.profile == 0
  }

  ghost function Receive(w: World, act: Action, c: Client): Client {
    if OwnPull(act, c.device) && c.device in w.account.registry.devices then
      var response := Serve(w.account, act.cursor, act.limit, 0);
      c.(cursor := response.nextCursor.GetOr(0), received := c.received + response.page)
    else c
  }

  /**
   * What is asked of the run: the client pulls with the cursor it was last given, and whenever a
   * step may compact, the client is not revoked and was seen within the idle time.
   */
  ghost predicate Honours(w: World, act: Action, c: Client) {
    && (OwnPull(act, c.device) ==> act.cursor.GetOr(0) == c.cursor)
    && (act.PushAct? || act.PullAct? || act.CompactAct? ==>
          c.device in Devices.Active(w.account.registry, act.now, act.idleTtl))
  }

  ghost predicate HonestRun(w: World, acts: seq<Action>, c: Client)
    decreases |acts|
  {
    acts == [] || (Honours(w, acts[0], c) && HonestRun(Apply(w, acts[0]), acts[1..], Receive(w, acts[0], c)))
  }

  ghost function RunClient(w: World, acts: seq<Action>, c: Client): Client
    decreases |acts|
  {
    if acts == [] then c else RunClient(Apply(w, acts[0]), acts[1..], Receive(w, acts[0], c))
  }

  /**
   * The client holds history[from..k]; past its cursor lie exactly the rows from k on, all
   * retained. Rows before `from` were compacted before it enrolled.
   */
  ghost predicate Holds(history: seq<Row>, log: seq<Row>, received: seq<Row>, cursor: nat, from: nat) {
    var k := from + |received|;
    && k <= |history|
    && received == history[from..k]
    && (forall i :: from <= i < k ==> history[i].sequence <= cursor)
    && (forall i :: k <= i < |history| ==> history[i].sequence > cursor)
    && from <= |history| - |log| <= k
  }

  ghost predicate InStep(w: World, c: Client, from: nat) {
    && Holds(w.history, w.account.log, c.received, c.cursor, from)
    && CursorOf(w.account, c.device) == c.cursor <= w.account.lastSequence
  }

  /* ---- pages ---- */

  /** From an unscoped cursor with `skip` rows behind it, a page is the next `limit` rows. */
  lemma {:induction false} PageIsNext(log: seq<Row>, after: nat, limit: nat, skip: nat)
    requires skip <= |log|
    requires forall i :: 0 <= i < skip ==> log[i].sequence <= after
    requires forall i :: skip <= i < |log| ==> log[i].sequence > after
    ensures Page(log, after, 0, limit) == log[skip..skip + Min(limit, |log| - skip)]
    decreases |log|
  {
    if log == [] || limit == 0 {
    } else if skip > 0 {
      PageIsNext(log[1..], after, limit, skip - 1);
      var n := Min(limit, |log| - skip);
      assert log[1..][skip - 1..skip - 1 + n] == log[skip..skip + n];
    } else {
      PageIsNext(log[1..], after, limit - 1, 0);
      var n := Min(limit, |log|);
      assert [log[0]] + log[1..][..n - 1] == log[..n];
    }
  }

  /** The same over the full history, of which the log is a suffix. */
  lemma PageOfHistory(log: seq<Row>, history: seq<Row>, after: nat, limit: nat, k: nat)
    requires Suffix(log, history) && |history| - |log| <= k <= |history|
    requires forall i :: |history| - |log| <= i < k ==> history[i].sequence <= after
    requires forall i :: k <= i < |history| ==> history[i].sequence > after
    ensures Page(log, after, 0, limit) == history[k..k + Min(limit, |history| - k)]
  {
    var dropped := |history| - |log|;
    PageIsNext(log, after, limit, k - dropped);
    assert log[k - dropped..k - dropped + Min(limit, |history| - k)] == history[k..k + Min(limit, |history| - k)];
  }

  lemma InvGives(w: World)
    requires Inv(w)
    ensures Sorted(w.history) && Suffix(w.account.log, w.history)
    ensures w.account.lastSequence == LastSequence(w.history)
    ensures forall i :: 0 <= i < |w.history| ==> w.history[i].sequence <= w.account.lastSequence
  {
  }

  /** A page, and whether more is left, from a cursor that splits the history at `k`. */
  lemma ServesFrom(log: seq<Row>, history: seq<Row>, cursor: nat, limit: nat, k: nat)
    requires Suffix(log, history) && Sorted(history) && |history| - |log| <= k <= |history|
    requires forall i :: |history| - |log| <= i < k ==> history[i].sequence <= cursor
    requires forall i :: k <= i < |history| ==> history[i].sequence > cursor
    ensures var n := Min(limit, |history| - k);
      var page := Page(log, cursor, 0, limit);
      && page == history[k..k + n]
      && (Page(log, NextCursor(page, cursor), 0, 1) != [] <==> k + n < |history|)
  {
    var n := Min(limit, |history| - k);
    PageOfHistory(log, history, cursor, limit, k);
    CursorSplits(history, cursor, k, n);
    PageOfHistory(log, history, NextCursor(history[k..k + n], cursor), 1, k + n);
  }

  /** The answer to an honest unscoped pull, in terms of the full history. */
  lemma ServesNext(w: World, c: Client, from: nat, cursor: Option<nat>, limit: nat)
    requires Inv(w) && InStep(w, c, from)
    requires cursor.GetOr(0) == c.cursor
    ensures var k := from + |c.received|;
      var n := Min(limit, |w.history| - k);
      var response := Serve(w.account, cursor, limit, 0);
      && response.page == w.history[k..k + n]
      && response.nextCursor.GetOr(0) == NextCursor(response.page, c.cursor)
      && (response.hasMore <==> k + n < |w.history|)
  {
    hide Inv, Sorted, Suffix, Page;
    InvGives(w);
    assert Min(cursor.GetOr(0), w.account.lastSequence) == c.cursor;
    ServesFrom(w.account.log, w.history, c.cursor, limit, from + |c.received|);
  }

  /** The cursor after a page separates what has been served from what has not. */
  lemma CursorSplits(history: seq<Row>, cursor: nat, k: nat, n: nat)
    requires Sorted(history) && k + n <= |history|
    requires forall i :: k <= i < |history| ==> history[i].sequence > cursor
    ensures var next := NextCursor(history[k..k + n], cursor);
      && cursor <= next
      && (forall i :: 0 <= i < |history| && history[i].sequence <= cursor ==> history[i].sequence <= next)
      && (forall i :: k <= i < k + n ==> history[i].sequence <= next)
      && (forall i :: k + n <= i < |history| ==> history[i].sequence > next)
  {
    if n > 0 {
      assert history[k..k + n][n - 1] == history[k + n - 1];
    }
  }

  /* ---- one step ---- */

  lemma SparesRows(history: seq<Row>, log: seq<Row>, kept: seq<Row>, cursor: nat, k: nat)
    requires Suffix(log, history) && Suffix(kept, log)
    requires forall i :: 0 <= i < |log| - |kept| ==> log[i].sequence <= cursor
    requires |history| - |log| <= k <= |history|
    requires forall i :: k <= i < |history| ==> history[i].sequence > cursor
    ensures |history| - |log| <= |history| - |kept| <= k
  {
    if |kept| < |log| {
      var last := |log| - |kept| - 1;
      assert log[last] == history[|history| - |log| + last];
    }
  }

  /** Compaction takes nothing an honest active client still waits for. */
  lemma CompactSpares(w: World, c: Client, from: nat, now: int, idleTtl: nat, maxRows: nat)
    requires Inv(w) && InStep(w, c, from)
    requires c.device in Devices.Active(w.account.registry, now, idleTtl)
    ensures InStep(w.(account := Compact(w.account, now, idleTtl, maxRows)), c, from)
  {
    hide Inv, Sorted, Suffix;
    CompactRemovesServed(w, now, idleTtl, maxRows);
    InvGives(w);
    var kept := Compact(w.account, now, idleTtl, maxRows).log;
    SparesRows(w.history, w.account.log, kept, c.cursor, from + |c.received|);
  }

  lemma PushInStep(w: World, act: Action, c: Client, from: nat)
    requires Inv(w) && InStep(w, c, from) && Honours(w, act, c) && act.PushAct?
    ensures InStep(Apply(w, act), c, from)
  {
    hide Inv, Coherent;
    if Push(w.account, w.rowid, act.device, act.batch, act.quota, act.now, act.idleTtl, act.maxRows).Pushed? {
      CompactSpares(w, c, from, act.now, act.idleTtl, act.maxRows);
      var gain := PushGain(w, act);
      InvGives(w);
      InvGives(Apply(w, act));
      LastSequenceRises(w.history, gain);
      GrowInStep(w.(account := Compact(w.account, act.now, act.idleTtl, act.maxRows)), Apply(w, act), c, from, gain);
    }
  }

  lemma GrowInStep(w: World, w': World, c: Client, from: nat, gain: seq<Row>)
    requires InStep(w, c, from)
    requires w'.history == w.history + gain && w'.account.log == w.account.log + gain
    requires Sorted(w'.history) && w.account.lastSequence == LastSequence(w.history)
    requires w'.account.cursors == w.account.cursors && w.account.lastSequence <= w'.account.lastSequence
    ensures InStep(w', c, from)
  {
    forall i | from + |c.received| <= i < |w'.history| ensures w'.history[i].sequence > c.cursor {
      if i >= |w.history| && w.history != [] {
        assert w'.history[|w.history| - 1].sequence < w'.history[i].sequence;
      }
    }
  }

  lemma OwnPullInStep(w: World, act: Action, c: Client, from: nat)
    requires Inv(w) && InStep(w, c, from) && Honours(w, act, c) && OwnPull(act, c.device)
    ensures InStep(Apply(w, act), Receive(w, act, c), from)
  {
    hide Inv, InStep;
    var c' := Receive(w, act, c);
    var w1 := w.(account := Acknowledge(w.account, c.device, 0, c'.cursor));
    ServedInStep(w, act, c, from);
    CompactSpares(w1, c', from, act.now, act.idleTtl, act.maxRows);
  }

  /** Taking the next `n` rows keeps the client in step with the history. */
  lemma TakesNext(history: seq<Row>, log: seq<Row>, received: seq<Row>, cursor: nat, from: nat, n: nat)
    requires Sorted(history) && Holds(history, log, received, cursor, from)
    requires from + |received| + n <= |history|
    ensures var page := history[from + |received|..from + |received| + n];
      Holds(history, log, received + page, NextCursor(page, cursor), from)
  {
    var k := from + |received|;
    CursorSplits(history, cursor, k, n);
    assert history[from..k] + history[k..k + n] == history[from..k + n];
  }

  /** The state between serving the page and compacting. */
  lemma ServedInStep(w: World, act: Action, c: Client, from: nat)
    requires Inv(w) && InStep(w, c, from) && Honours(w, act, c) && OwnPull(act, c.device)
    requires c.device in w.account.registry.devices
    ensures var c' := Receive(w, act, c);
      var w1 := w.(account := Acknowledge(w.account, c.device, 0, c'.cursor));
      && c'.cursor == NextCursor(Serve(w.account, act.cursor, act.limit, 0).page, c.cursor)
      && InStep(w1, c', from) && Inv(w1)
  {
    hide Inv, Sorted, Suffix, Holds, Serve, SyncModel.Page;
    InvGives(w);
    ServesNext(w, c, from, act.cursor, act.limit);
    var n := WithinHistory(w, c, from, act.limit);
    TakesNext(w.history, w.account.log, c.received, c.cursor, from, n);
    AcknowledgeKeepsInv(w, c.device, 0, Receive(w, act, c).cursor);
  }

  lemma WithinHistory(w: World, c: Client, from: nat, limit: nat) returns (n: nat)
    requires Inv(w) && InStep(w, c, from)
    ensures from + |c.received| <= |w.history| && n == Min(limit, |w.history| - from - |c.received|)
    ensures NextCursor(w.history[from + |c.received|..from + |c.received| + n], c.cursor) <= w.account.lastSequence
    ensures c.cursor <= NextCursor(w.history[from + |c.received|..from + |c.received| + n], c.cursor)
  {
    hide Inv, Suffix;
    InvGives(w);
    n := Min(limit, |w.history| - from - |c.received|);
    CursorSplits(w.history, c.cursor, from + |c.received|, n);
  }

  lemma OtherPullInStep(w: World, act: Action, c: Client, from: nat)
    requires Inv(w) && InStep(w, c, from) && Honours(w, act, c) && act.PullAct? && !OwnPull(act, c.device)
    ensures InStep(Apply(w, act), c, from)
  {
    hide Inv, Holds;
    var a := w.account;
    if act.device in a.registry.devices {
      NextBounded(w, act.cursor, act.limit, act.profile);
      var after := Min(act.cursor.GetOr(0), a.lastSequence);
      var next := NextCursor(Serve(a, act.cursor, act.limit, act.profile).page, after);
      AcknowledgeKeepsInv(w, act.device, act.profile, next);
      var noted := Acknowledge(a, act.device, act.profile, next);
      CompactSpares(w.(account := noted), c, from, act.now, act.idleTtl, act.maxRows);
    }
  }

  lemma StepInStep(w: World, act: Action, c: Client, from: nat)
    requires Inv(w) && InStep(w, c, from) && Honours(w, act, c)
    ensures InStep(Apply(w, act), Receive(w, act, c), from)
  {
    hide Inv, Holds;
    match act
    case PushAct(_, _, _, _, _, _) => PushInStep(w, act, c, from);
    case PullAct(_, _, _, _, _, _, _) =>
      if OwnPull(act, c.device) {
        OwnPullInStep(w, act, c, from);
      } else {
        OtherPullInStep(w, act, c, from);
      }
    case CompactAct(now, idleTtl, maxRows) => CompactSpares(w, c, from, now, idleTtl, maxRows);
    case EnsureAct(_, _, _, _, _) =>
    case RevokeAct(_, _) =>
    case ElsewhereAct(_) =>
  }

  lemma {:induction false} RunInStep(w: World, acts: seq<Action>, c: Client, from: nat)
    requires Inv(w) && InStep(w, c, from) && HonestRun(w, acts, c)
    ensures Inv(Run(w, acts)) && InStep(Run(w, acts), RunClient(w, acts, c), from)
    decreases |acts|
  {
    hide Inv, InStep;
    if acts != [] {
      StepKeepsInv(w, acts[0]);
      StepInStep(w, acts[0], c, from);
      RunInStep(Apply(w, acts[0]), acts[1..], Receive(w, acts[0], c), from);
    }
  }

  /* ---- the promise ---- */

  /** history[from..], in order and each row once, up to the client's cursor; the rest is retained. */
  ghost predicate Delivered(w: World, c: Client, from: int) {
    var k := from + |c.received|;
    && 0 <= from && k <= |w.history|
    && c.received == w.history[from..k]
    && (forall i, j :: 0 <= i < j < |c.received| ==> c.received[i].sequence < c.received[j].sequence)
    && Suffix(w.history[k..], w.account.log)
  }

  /** What the client lacks comes with its next pulls. */
  ghost predicate NextPullBrings(w: World, c: Client, from: int, limit: nat)
    requires Delivered(w, c, from)
  {
    var k := from + |c.received|;
    var n := Min(limit, |w.history| - k);
    var next := Serve(w.account, Some(c.cursor), limit, 0);
    next.page == w.history[k..k + n] && (next.hasMore <==> k + n < |w.history|)
  }

  /**
   * No loss, no repeat. After any run up to its enrolment and any honest run after it, a new
   * device holds exactly the rows retained at its enrolment and those accepted since, in sequence
   * order and each once, up to its cursor; what it lacks is retained for it, and its next pull
   * brings the next min(limit, missing) of it and says whether more is left.
   */
  lemma NoLossNoRepeat(before: seq<Action>, enrol: Action, after: seq<Action>, limit: nat)
    requires enrol.EnsureAct? && enrol.id !in Run(START, before).account.registry.devices
    requires HonestRun(Apply(Run(START, before), enrol), after, Client(enrol.id, 0, []))
    ensures var w0 := Apply(Run(START, before), enrol);
      var w, c := Run(w0, after), RunClient(w0, after, Client(enrol.id, 0, []));
      var from := |w0.history| - |w0.account.log|;
      Delivered(w, c, from) && NextPullBrings(w, c, from, limit)
  {
    hide Inv, InStep, Delivered, NextPullBrings;
    var w1 := Run(START, before);
    var w0 := Apply(w1, enrol);
    var c0 := Client(enrol.id, 0, []);
    StartInv();
    RunKeepsInv(START, before);
    StepKeepsInv(w1, enrol);
    var from := FreshInStep(w1, enrol);
    RunInStep(w0, after, c0, from);
    var w, c := Run(w0, after), RunClient(w0, after, c0);
    InStepDelivers(w, c, from, limit);
  }

  lemma InStepDelivers(w: World, c: Client, from: nat, limit: nat)
    requires Inv(w) && InStep(w, c, from)
    ensures Delivered(w, c, from) && NextPullBrings(w, c, from, limit)
  {
    hide Inv;
    HoldsDelivers(w, c, from);
    hide Sorted, Suffix, Holds, Page;
    ServesNext(w, c, from, Some(c.cursor), limit);
  }

  lemma HoldsDelivers(w: World, c: Client, from: nat)
    requires Inv(w) && Holds(w.history, w.account.log, c.received, c.cursor, from)
    ensures Delivered(w, c, from)
  {
    hide Inv;
    InvGives(w);
    TailRetained(w.history, w.account.log, from + |c.received|);
  }

  lemma TailRetained(history: seq<Row>, log: seq<Row>, k: nat)
    requires Suffix(log, history) && |history| - |log| <= k <= |history|
    ensures Suffix(history[k..], log)
  {
    assert history[k..] == log[k - (|history| - |log|)..];
  }

  lemma StartInv()
    ensures Inv(START)
  {
  }

  /** A newcomer has no cursor, so nothing retained at its enrolment is behind it. */
  lemma FreshInStep(w: World, enrol: Action) returns (from: nat)
    requires Inv(w) && enrol.EnsureAct? && enrol.id !in w.account.registry.devices
    ensures var w0 := Apply(w, enrol);
      from == |w0.history| - |w0.account.log| && InStep(w0, Client(enrol.id, 0, []), from)
  {
    var w0 := Apply(w, enrol);
    from := |w0.history| - |w0.account.log|;
    assert CursorKey(enrol.id, 0) !in w0.account.cursors;
  }
}
