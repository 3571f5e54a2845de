/**
 * When the sweep of the missed-call journal leaves an expired target behind: after a forgotten
 * call, and only then.
 */
module StaleTargets {
  import opened Wrappers
  import opened OrderedMaps
  import opened Journal
  import opened JournalOrder

  const SAMPLE := [RememberOp("t", "x", 1), RememberOp("u", "y", 5), RememberOp("t", "z", 6), ForgetOp("t", "z")]

  /**
   * How a wholly expired target comes to stand behind a live one, where the sweep leaves it: the
   * call that put it at the end is forgotten.
   */
  lemma ForgottenNewest(c: Config)
    requires c.ttl == 10 && c.peersMax >= 2 && c.entriesMax >= 3
    ensures var s := Run(SAMPLE, c);
      Sweep(s, 14, c.ttl) == s && s.calls.Has("t") && AllExpired(s.calls.items["t"], 14, c.ttl)
  {
    var tx, uy := JsMap(["x"], map["x" := Entry(1, 1, None)]), JsMap(["y"], map["y" := Entry(5, 1, None)]);
    var txz := JsMap(["x", "z"], map["x" := Entry(1, 1, None), "z" := Entry(6, 1, None)]);
    var s4 := State(JsMap(["u", "t"], map["u" := uy, "t" := tx]), 2, 0);
    SampleFirst(c, tx);
    SampleSecond(c, tx, uy);
    SampleThird(c, tx, uy, txz);
    SampleForget(tx, uy, txz);
    SampleSweep(tx, uy);
    hide Run, Remember, DropCall, Sweep, AllExpired;
    SampleRun(c, State(JsMap(["t"], map["t" := tx]), 1, 0), State(JsMap(["t", "u"], map["t" := tx, "u" := uy]), 2, 0),
              State(JsMap(["u", "t"], map["u" := uy, "t" := txz]), 3, 0), s4);
  }

  lemma SampleRun(c: Config, s1: State, s2: State, s3: State, s4: State)
    requires Remember(START, "t", "x", 1, c) == s1 && Remember(s1, "u", "y", 5, c) == s2
    requires Remember(s2, "t", "z", 6, c) == s3 && DropCall(s3, "t", "z") == s4
    ensures Run(SAMPLE, c) == s4
  {
    hide Run, Remember, DropCall;
    FourSteps(SAMPLE[0], SAMPLE[1], SAMPLE[2], SAMPLE[3], c);
  }

  lemma SampleForget(tx: Callers, uy: Callers, txz: Callers)
    requires tx == JsMap(["x"], map["x" := Entry(1, 1, None)])
    requires txz == JsMap(["x", "z"], map["x" := Entry(1, 1, None), "z" := Entry(6, 1, None)])
    ensures DropCall(State(JsMap(["u", "t"], map["u" := uy, "t" := txz]), 3, 0), "t", "z") ==
            State(JsMap(["u", "t"], map["u" := uy, "t" := tx]), 2, 0)
  {
    assert Without(["x", "z"], "z") == ["x"];
    assert txz.Delete("z") == tx;
  }

  lemma SampleSweep(tx: Callers, uy: Callers)
    requires tx == JsMap(["x"], map["x" := Entry(1, 1, None)]) && uy == JsMap(["y"], map["y" := Entry(5, 1, None)])
    ensures var s := State(JsMap(["u", "t"], map["u" := uy, "t" := tx]), 2, 0);
      Sweep(s, 14, 10) == s && s.calls.Has("t") && AllExpired(s.calls.items["t"], 14, 10)
  {
  }

  // Within all caps, remembering is just noting.
  lemma RememberNotes(s: State, target: string, from: string, now: nat, c: Config)
    requires Sweep(s, now, c.ttl) == s
    requires var n := Noted(s, target, from, now);
             && n.calls.Has(target) && |n.calls.items[target].keys| <= PER_PEER
             && |n.calls.keys| <= c.peersMax && !OverBudget(n, c)
    ensures Remember(s, target, from, now, c) == Noted(s, target, from, now)
  {
  }

  lemma SampleFirst(c: Config, tx: Callers)
    requires c.ttl == 10 && c.peersMax >= 2 && c.entriesMax >= 3
    requires tx == JsMap(["x"], map["x" := Entry(1, 1, None)])
    ensures Remember(START, "t", "x", 1, c) == State(JsMap(["t"], map["t" := tx]), 1, 0)
  {
    assert Empty<string, Entry>().Set("x", Entry(1, 1, None)).keys == ["x"];
    var n := Noted(START, "t", "x", 1);
    assert n.calls.keys == ["t"];
    assert n == State(JsMap(["t"], map["t" := tx]), 1, 0);
    RememberNotes(START, "t", "x", 1, c);
  }

  lemma SampleSecond(c: Config, tx: Callers, uy: Callers)
    requires c.ttl == 10 && c.peersMax >= 2 && c.entriesMax >= 3
    requires tx == JsMap(["x"], map["x" := Entry(1, 1, None)]) && uy == JsMap(["y"], map["y" := Entry(5, 1, None)])
    ensures Remember(State(JsMap(["t"], map["t" := tx]), 1, 0), "u", "y", 5, c) ==
            State(JsMap(["t", "u"], map["t" := tx, "u" := uy]), 2, 0)
  {
    var s := State(JsMap(["t"], map["t" := tx]), 1, 0);
    assert Empty<string, Entry>().Set("y", Entry(5, 1, None)).keys == ["y"];
    var n := Noted(s, "u", "y", 5);
    WithoutAbsent(["t"], "u");
    assert n.calls.keys == ["t"] + ["u"];
    assert n == State(JsMap(["t", "u"], map["t" := tx, "u" := uy]), 2, 0);
    RememberNotes(s, "u", "y", 5, c);
  }

  lemma SampleThird(c: Config, tx: Callers, uy: Callers, txz: Callers)
    requires c.ttl == 10 && c.peersMax >= 2 && c.entriesMax >= 3
    requires tx == JsMap(["x"], map["x" := Entry(1, 1, None)]) && uy == JsMap(["y"], map["y" := Entry(5, 1, None)])
    requires txz == JsMap(["x", "z"], map["x" := Entry(1, 1, None), "z" := Entry(6, 1, None)])
    ensures Remember(State(JsMap(["t", "u"], map["t" := tx, "u" := uy]), 2, 0), "t", "z", 6, c) ==
            State(JsMap(["u", "t"], map["u" := uy, "t" := txz]), 3, 0)
  {
    var s := State(JsMap(["t", "u"], map["t" := tx, "u" := uy]), 2, 0);
    assert tx.Set("z", Entry(6, 1, None)).keys == ["x"] + ["z"];
    assert tx.Set("z", Entry(6, 1, None)) == txz;
    var n := Noted(s, "t", "z", 6);
    assert Without(["t", "u"], "t") == ["u"];
    assert n.calls.keys == ["u"] + ["t"];
    assert n == State(JsMap(["u", "t"], map["u" := uy, "t" := txz]), 3, 0);
    RememberNotes(s, "t", "z", 6, c);
  }

  lemma FourSteps(a: Op, b: Op, d: Op, e: Op, c: Config)
    ensures Run([a, b, d, e], c) == Step(Step(Step(Step(START, a, c), b, c), d, c), e, c)
  {
    hide Step;
    assert [a, b, d, e][..3] == [a, b, d] && [a, b, d][..2] == [a, b] && [a, b][..1] == [a] && [a][..0] == [];
    assert Run([a], c) == Step(START, a, c);
    assert Run([a, b], c) == Step(Run([a], c), b, c);
    assert Run([a, b, d], c) == Step(Run([a, b], c), d, c);
  }

  /* ---- without forgetting there are none ---- */

  /** The clock reading of a target's last remembrance. */
  function TimeOf(ops: seq<Op>, target: string): nat {
    if ops == [] then 0
    else
      var n := |ops| - 1;
      if ops[n].RememberOp? && ops[n].target == target then ops[n].now else TimeOf(ops[..n], target)
  }

  lemma {:induction false} TimeBounded(ops: seq<Op>, target: string)
    requires Clocked(ops)
    ensures TimeOf(ops, target) <= LastTime(ops)
  {
    if ops != [] {
      TimeBounded(ops[..|ops| - 1], target);
    }
  }

  lemma {:induction false} TimesFollow(ops: seq<Op>, t: string, u: string)
    requires Clocked(ops) && LastRemembered(ops, t) < LastRemembered(ops, u)
    ensures TimeOf(ops, t) <= TimeOf(ops, u)
  {
    var n := |ops| - 1;
    if ops[n].RememberOp? && ops[n].target == u {
      TimeBounded(ops[..n], t);
    } else {
      TimesFollow(ops[..n], t, u);
    }
  }

  /** The target's last caller called at its last remembrance. */
  ghost predicate NewestLast(byCaller: Callers, at: nat) {
    byCaller.keys != [] && byCaller.Has(byCaller.keys[|byCaller.keys| - 1]) &&
    byCaller.items[byCaller.keys[|byCaller.keys| - 1]].at == at
  }

  ghost predicate Remembered(s: State, ops: seq<Op>) {
    Accounted(s) && forall t :: s.calls.Has(t) ==> NewestLast(s.calls.items[t], TimeOf(ops, t))
  }

  lemma DropTargetRemembered(s: State, target: string, ops: seq<Op>)
    requires Remembered(s, ops)
    ensures Remembered(DropTarget(s, target), ops)
  {
    hide Accounted, NewestLast;
    DropTargetAccounted(s, target);
  }

  lemma FirstDroppedNewest(byCaller: Callers, at: nat)
    requires byCaller.Valid() && NewestLast(byCaller, at) && |byCaller.keys| >= 2
    ensures NewestLast(byCaller.Delete(byCaller.keys[0]), at)
  {
    var last := byCaller.keys[|byCaller.keys| - 1];
    LastCallerStays(byCaller, last, byCaller.items[last]);
  }

  lemma LoneDropped(byCaller: Callers)
    requires byCaller.Valid() && |byCaller.keys| == 1
    ensures byCaller.Delete(byCaller.keys[0]).keys == []
  {
    DeleteFirst(byCaller);
  }

  lemma DropFirstRemembered(s: State, target: string, ops: seq<Op>)
    requires Remembered(s, ops) && s.calls.Has(target)
    ensures s.calls.items[target].keys != [] && s.calls.items[target].Has(s.calls.items[target].keys[0])
    ensures Remembered(DropCall(s, target, s.calls.items[target].keys[0]), ops)
  {
    hide Accounted, DropCall, NewestLast, JsMap.Delete;
    CallersThere(s, target);
    var byCaller := s.calls.items[target];
    var from := byCaller.keys[0];
    DropCallAccounted(s, target, from);
    DropCallElsewhere(s, target, from);
    if |byCaller.keys| >= 2 {
      FirstDroppedNewest(byCaller, TimeOf(ops, target));
    } else {
      LoneDropped(byCaller);
    }
  }

  lemma DropCallElsewhere(s: State, t0: string, f0: string)
    requires HasEntry(s, t0, f0)
    ensures var calls, left := DropCall(s, t0, f0).calls, s.calls.items[t0].Delete(f0);
      && (calls.Has(t0) ==> left.keys != [] && calls.items[t0] == left)
      && (forall t :: t != t0 && calls.Has(t) ==> s.calls.Has(t) && calls.items[t] == s.calls.items[t])
  {
  }

  lemma {:induction false} SweepRemembered(s: State, now: nat, ttl: nat, ops: seq<Op>)
    requires Remembered(s, ops)
    ensures Remembered(Sweep(s, now, ttl), ops)
    decreases |s.calls.keys|
  {
    hide Remembered, DropTarget;
    if s.calls.keys != [] && s.calls.Has(s.calls.keys[0]) && Expired(s.calls.items[s.calls.keys[0]], now, ttl) {
      DropTargetRemembered(s, s.calls.keys[0], ops);
      DropTargetShrinks(s);
      SweepRemembered(DropTarget(s, s.calls.keys[0]), now, ttl, ops);
    }
  }

  lemma {:induction false} TrimTargetsRemembered(s: State, peersMax: nat, ops: seq<Op>)
    requires Remembered(s, ops)
    ensures Remembered(TrimTargets(s, peersMax), ops)
    decreases |s.calls.keys|
  {
    hide Remembered, DropTarget;
    if |s.calls.keys| > peersMax && s.calls.Has(s.calls.keys[0]) {
      DropTargetRemembered(s, s.calls.keys[0], ops);
      DropTargetShrinks(s);
      TrimTargetsRemembered(DropTarget(s, s.calls.keys[0]), peersMax, ops);
    }
  }

  lemma {:induction false} TrimCallersRemembered(s: State, target: string, ops: seq<Op>)
    requires Remembered(s, ops)
    ensures Remembered(TrimCallers(s, target), ops)
    decreases SizeAt(s.calls, target)
  {
    hide Remembered, DropCall;
    if SizeAt(s.calls, target) > PER_PEER && s.calls.items[target].Has(s.calls.items[target].keys[0]) {
      var from := s.calls.items[target].keys[0];
      DropFirstRemembered(s, target, ops);
      TargetValid(s, target, ops);
      DropCallShrinks(s, target, from);
      TrimCallersRemembered(DropCall(s, target, from), target, ops);
    }
  }

  lemma TargetValid(s: State, target: string, ops: seq<Op>)
    requires Remembered(s, ops) && s.calls.Has(target)
    ensures s.calls.items[target].Valid()
  {
    CallersThere(s, target);
  }

  lemma {:induction false} BudgetRemembered(s: State, c: Config, ops: seq<Op>)
    requires Remembered(s, ops)
    ensures Remembered(EnforceBudget(s, c), ops)
    decreases |s.calls.keys|, HeadSize(s.calls)
  {
    hide Remembered;
    EvictRemembered(s, ops);
    if OverBudget(s, c) && EvictOldest(s).0 {
      BudgetRemembered(EvictOldest(s).1, c, ops);
    }
  }

  lemma EvictRemembered(s: State, ops: seq<Op>)
    requires Remembered(s, ops)
    ensures Remembered(EvictOldest(s).1, ops)
  {
    hide Remembered, DropCall;
    if s.calls.keys != [] && s.calls.Has(s.calls.keys[0]) {
      DropFirstRemembered(s, s.calls.keys[0], ops);
    }
  }

  lemma NotedRemembered(s: State, ops: seq<Op>, op: Op)
    requires Remembered(s, ops) && op.RememberOp?
    ensures Remembered(Noted(s, op.target, op.from, op.now), ops + [op])
  {
    hide Accounted, NotedCaller, Noted, NewestLast, LastCaller;
    assert (ops + [op])[..|ops|] == ops;
    NotedAccounted(s, op.target, op.from, op.now);
    NotedNewest(s, op.target, op.from, op.now);
    NotedElsewhere(s, op.target, op.from, op.now);
  }

  lemma NotedNewest(s: State, target: string, from: string, now: nat)
    requires Accounted(s)
    ensures NewestLast(NotedCaller(CallersOf(s, target), from, now), now)
  {
    hide Accounted, NotedCaller;
    OuterDistinct(s);
    NotedLast(s, target, from, now);
  }

  lemma NotedElsewhere(s: State, target: string, from: string, now: nat)
    ensures var calls := Noted(s, target, from, now).calls;
      && calls.Has(target) && calls.items[target] == NotedCaller(CallersOf(s, target), from, now)
      && (forall t :: t != target && calls.Has(t) ==> s.calls.Has(t) && calls.items[t] == s.calls.items[t])
  {
  }

  lemma ReceiptRemembered(s: State, target: string, from: string, e: string, ops: seq<Op>)
    requires Remembered(s, ops) && s.calls.Has(target) && s.calls.items[target].Has(from)
    ensures Remembered(Receipted(s, target, from, e), ops)
  {
    hide Accounted;
    ReceiptPut(s, target, from, e);
  }

  lemma OtherRemembered(s: State, ops: seq<Op>, op: Op)
    requires Remembered(s, ops) && !op.RememberOp?
    ensures Remembered(s, ops + [op])
  {
    hide Accounted;
    assert (ops + [op])[..|ops|] == ops;
  }

  lemma StepRemembered(s: State, ops: seq<Op>, op: Op, c: Config)
    requires Remembered(s, ops) && !op.ForgetOp?
    ensures Remembered(Step(s, op, c), ops + [op])
  {
    hide Remembered;
    var all := ops + [op];
    match op
    case RememberOp(target, from, now) =>
      var swept := Sweep(s, now, c.ttl);
      SweepRemembered(s, now, c.ttl, ops);
      var noted := Noted(swept, target, from, now);
      NotedRemembered(swept, ops, op);
      TrimCallersRemembered(noted, target, all);
      TrimTargetsRemembered(TrimCallers(noted, target), c.peersMax, all);
      BudgetRemembered(TrimTargets(TrimCallers(noted, target), c.peersMax), c, all);
    case AttachOp(target, from, e) =>
      if s.calls.Has(target) && s.calls.items[target].Has(from) {
        ReceiptRemembered(s, target, from, e, ops);
        BudgetRemembered(Receipted(s, target, from, e), c, ops);
      }
      OtherRemembered(Step(s, op, c), ops, op);
    case DeliveredOp(target) =>
      DropTargetRemembered(s, target, ops);
      OtherRemembered(Step(s, op, c), ops, op);
  }

  lemma {:induction false} RunRemembered(ops: seq<Op>, c: Config)
    requires forall op :: op in ops ==> !op.ForgetOp?
    ensures Remembered(Run(ops, c), ops)
    decreases |ops|
  {
    if ops != [] {
      var n := |ops| - 1;
      assert ops[..n] + [ops[n]] == ops;
      RunRemembered(ops[..n], c);
      hide Remembered, Step;
      StepRemembered(Run(ops[..n], c), ops[..n], ops[n], c);
    }
  }

  lemma NewestAlive(byCaller: Callers, at: nat, now: nat, ttl: nat)
    requires byCaller.Valid() && ByTime(byCaller, at) && NewestLast(byCaller, at)
    ensures AllExpired(byCaller, now, ttl) <==> now - at > ttl
  {
  }

  /**
   * Forgetting is the only cause: in every run without a forgotten call every sweep is complete,
   * and leaves no wholly expired target.
   */
  lemma SweepsAreComplete(ops: seq<Op>, c: Config, now: nat)
    requires Clocked(ops) && forall op :: op in ops ==> !op.ForgetOp?
    ensures NoneExpired(Sweep(Run(ops, c), now, c.ttl).calls, now, c.ttl)
  {
    var s := Run(ops, c);
    OrderHolds(ops, c);
    RunRemembered(ops, c);
    ShapedTargets(s);
    hide Accounted, Run, Sweep, NoneExpired, Shaped;
    forall i, j | 0 <= i < j < |s.calls.keys| && Live(s.calls, now, c.ttl)[i]
      ensures Live(s.calls, now, c.ttl)[j]
    {
      LaterAlive(s, ops, i, j, now, c.ttl);
    }
    SweepCompleteExactly(s, now, c.ttl);
  }

  lemma ShapedTargets(s: State)
    requires Accounted(s)
    ensures Shaped(s.calls)
  {
  }

  lemma LaterAlive(s: State, ops: seq<Op>, i: nat, j: nat, now: nat, ttl: nat)
    requires Clocked(ops) && Ordered(s, LastTime(ops), ops) && Remembered(s, ops)
    requires i < j < |s.calls.keys| && Live(s.calls, now, ttl)[i]
    ensures Live(s.calls, now, ttl)[j]
  {
    hide Accounted, AllExpired, NewestLast, TimesRise;
    ShapedTargets(s);
    KeysThere(s.calls);
    hide Shaped;
    var t, u := s.calls.keys[i], s.calls.keys[j];
    TimesFollow(ops, t, u);
    TargetValid(s, t, ops);
    TargetValid(s, u, ops);
    TimesWithin(s.calls.items[t], TimeOf(ops, t), LastTime(ops));
    TimesWithin(s.calls.items[u], TimeOf(ops, u), LastTime(ops));
    NewestAlive(s.calls.items[t], TimeOf(ops, t), now, ttl);
    NewestAlive(s.calls.items[u], TimeOf(ops, u), now, ttl);
  }

  lemma TimesWithin(byCaller: Callers, at: nat, last: nat)
    requires byCaller.Valid() && ByTime(byCaller, last) && NewestLast(byCaller, at)
    ensures ByTime(byCaller, at)
  {
    forall f | byCaller.Has(f)
      ensures byCaller.items[f].at <= at
    {
      var i :| 0 <= i < |byCaller.keys| && byCaller.keys[i] == f;
    }
  }
}
