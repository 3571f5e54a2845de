/**
 * The order of the missed-call journal under a clock that never runs backwards: who is evicted,
 * what a sweep drops, and why sorting on delivery changes nothing.
 */
module JournalOrder {
  import opened Wrappers
  import opened OrderedMaps
  import opened Journal

  /** The time of the last `rememberMissedCall` of a run. */
  function LastTime(ops: seq<Op>): nat {
    if ops == [] then 0
    else
      var n := |ops| - 1;
      if ops[n].RememberOp? then ops[n].now else LastTime(ops[..n])
  }

  /** The position of the last `rememberMissedCall` for a target, from 1; 0 when there is none. */
  function LastRemembered(ops: seq<Op>, target: string): (r: nat)
    ensures r <= |ops|
  {
    if ops == [] then 0
    else
      var n := |ops| - 1;
      if ops[n].RememberOp? && ops[n].target == target then |ops| else LastRemembered(ops[..n], target)
  }

  ghost predicate Clocked(ops: seq<Op>) {
    ops == [] ||
    var n := |ops| - 1;
    Clocked(ops[..n]) && (ops[n].RememberOp? ==> LastTime(ops[..n]) <= ops[n].now)
  }

  /** A target's callers stand in the order of their last attempts, none after `last`. */
  ghost predicate ByTime(byCaller: Callers, last: nat) {
    && (forall f :: byCaller.Has(f) ==> byCaller.items[f].at <= last)
    && TimesRise(byCaller.keys, byCaller.items)
  }

  /** Targets stand in the order in which they were last remembered. */
  ghost predicate ByRemembrance(targets: seq<string>, ops: seq<Op>) {
    && (forall i :: 0 <= i < |targets| ==> LastRemembered(ops, targets[i]) > 0)
    && (forall i, j :: 0 <= i < j < |targets| ==> LastRemembered(ops, targets[i]) < LastRemembered(ops, targets[j]))
  }

  ghost predicate Ordered(s: State, last: nat, ops: seq<Op>) {
    && Accounted(s)
    && (forall t :: t in s.calls.items ==> ByTime(s.calls.items[t], last))
    && ByRemembrance(s.calls.keys, ops)
  }

  /* ---- deletions keep order ---- */

  /** Times of the keys, in the order of the keys. */
  ghost predicate TimesRise(keys: seq<string>, items: map<string, Entry>) {
    forall i, j :: 0 <= i < j < |keys| && keys[i] in items && keys[j] in items ==>
          items[keys[i]].at <= items[keys[j]].at
  }

  lemma WithoutTimesRise(keys: seq<string>, from: string, items: map<string, Entry>)
    requires Distinct(keys) && TimesRise(keys, items)
    ensures TimesRise(Without(keys, from), items)
  {
    var rest := Without(keys, from);
    forall i, j | 0 <= i < j < |rest| && rest[i] in items && rest[j] in items
      ensures items[rest[i]].at <= items[rest[j]].at
    {
      var x, y := WithoutOrder(keys, from, i, j);
    }
  }

  lemma DeleteByTime(byCaller: Callers, from: string, last: nat)
    requires byCaller.Valid() && ByTime(byCaller, last)
    ensures ByTime(byCaller.Delete(from), last)
  {
    WithoutTimesRise(byCaller.keys, from, byCaller.items);
  }

  lemma WithoutByRemembrance(targets: seq<string>, target: string, ops: seq<Op>)
    requires Distinct(targets) && ByRemembrance(targets, ops)
    ensures ByRemembrance(Without(targets, target), ops)
  {
    var rest := Without(targets, target);
    forall i, j | 0 <= i < j < |rest| ensures LastRemembered(ops, rest[i]) < LastRemembered(ops, rest[j]) {
      var x, y := WithoutOrder(targets, target, i, j);
    }
    assert forall i :: 0 <= i < |rest| ==> rest[i] in rest;
  }

  lemma DropTargetOrdered(s: State, target: string, last: nat, ops: seq<Op>)
    requires Ordered(s, last, ops)
    ensures Ordered(DropTarget(s, target), last, ops)
  {
    hide Accounted, ByTime, ByRemembrance;
    DropTargetAccounted(s, target);
    OuterDistinct(s);
    WithoutByRemembrance(s.calls.keys, target, ops);
  }

  lemma OuterDistinct(s: State)
    requires Accounted(s)
    ensures Distinct(s.calls.keys) && s.calls.Valid()
    ensures forall t :: t in s.calls.items ==> s.calls.items[t].Valid() && s.calls.items[t].keys != []
  {
  }

  lemma DropCallOrdered(s: State, target: string, from: string, last: nat, ops: seq<Op>)
    requires Ordered(s, last, ops)
    ensures Ordered(DropCall(s, target, from), last, ops)
  {
    hide Accounted, ByTime, ByRemembrance;
    DropCallAccounted(s, target, from);
    OuterDistinct(s);
    WithoutByRemembrance(s.calls.keys, target, ops);
    if s.calls.Has(target) {
      DeleteByTime(s.calls.items[target], from, last);
    }
  }

  lemma {:induction false} SweepOrdered(s: State, now: nat, ttl: nat, last: nat, ops: seq<Op>)
    requires Ordered(s, last, ops)
    ensures Ordered(Sweep(s, now, ttl), last, ops)
    decreases |s.calls.keys|
  {
    hide Ordered, DropTarget;
    if s.calls.keys != [] && s.calls.Has(s.calls.keys[0]) && Expired(s.calls.items[s.calls.keys[0]], now, ttl) {
      DropTargetOrdered(s, s.calls.keys[0], last, ops);
      DropTargetShrinks(s);
      SweepOrdered(DropTarget(s, s.calls.keys[0]), now, ttl, last, ops);
    }
  }

  lemma DropTargetShrinks(s: State)
    requires s.calls.keys != [] && s.calls.Has(s.calls.keys[0])
    ensures |DropTarget(s, s.calls.keys[0]).calls.keys| < |s.calls.keys|
  {
  }

  lemma {:induction false} TrimTargetsOrdered(s: State, peersMax: nat, last: nat, ops: seq<Op>)
    requires Ordered(s, last, ops)
    ensures Ordered(TrimTargets(s, peersMax), last, ops)
    decreases |s.calls.keys|
  {
    hide Ordered, DropTarget;
    if |s.calls.keys| > peersMax && s.calls.Has(s.calls.keys[0]) {
      DropTargetOrdered(s, s.calls.keys[0], last, ops);
      DropTargetShrinks(s);
      TrimTargetsOrdered(DropTarget(s, s.calls.keys[0]), peersMax, last, ops);
    }
  }

  lemma EvictOrdered(s: State, last: nat, ops: seq<Op>)
    requires Ordered(s, last, ops)
    ensures Ordered(EvictOldest(s).1, last, ops)
  {
    hide Accounted, ByTime, ByRemembrance;
    OuterDistinct(s);
    if s.calls.keys != [] && s.calls.Has(s.calls.keys[0]) {
      DropCallOrdered(s, s.calls.keys[0], s.calls.items[s.calls.keys[0]].keys[0], last, ops);
    }
  }

  lemma {:induction false} BudgetOrdered(s: State, c: Config, last: nat, ops: seq<Op>)
    requires Ordered(s, last, ops)
    ensures Ordered(EnforceBudget(s, c), last, ops)
    decreases |s.calls.keys|, HeadSize(s.calls)
  {
    hide Ordered;
    EvictOrdered(s, last, ops);
    if OverBudget(s, c) && EvictOldest(s).0 {
      BudgetOrdered(EvictOldest(s).1, c, last, ops);
    }
  }

  lemma {:induction false} TrimCallersOrdered(s: State, target: string, last: nat, ops: seq<Op>)
    requires Ordered(s, last, ops)
    ensures Ordered(TrimCallers(s, target), last, ops)
    decreases if s.calls.Has(target) then |s.calls.items[target].keys| else 0
  {
    hide Ordered;
    if s.calls.Has(target) && |s.calls.items[target].keys| > PER_PEER &&
        s.calls.items[target].Has(s.calls.items[target].keys[0]) {
      DropCallOrdered(s, target, s.calls.items[target].keys[0], last, ops);
      TrimCallersOrdered(DropCall(s, target, s.calls.items[target].keys[0]), target, last, ops);
    }
  }

  /* ---- a new attempt goes to the end of both orders ---- */

  lemma AppendTimesRise(keys: seq<string>, items: map<string, Entry>, from: string, entry: Entry)
    requires TimesRise(keys, items) && from !in keys
    requires forall f :: f in items ==> items[f].at <= entry.at
    ensures TimesRise(keys + [from], items[from := entry])
  {
    assert forall k :: k in keys ==> k != from;
    assert forall i :: 0 <= i < |keys| ==> keys[i] in keys;
  }

  lemma NotedByTime(byCaller: Callers, from: string, now: nat, last: nat)
    requires byCaller.Valid() && ByTime(byCaller, last) && last <= now
    ensures ByTime(NotedCaller(byCaller, from, now), now)
  {
    if byCaller.Has(from) {
      var entry := byCaller.items[from].(at := now, attempts := byCaller.items[from].attempts + 1);
      WithoutTimesRise(byCaller.keys, from, byCaller.items);
      AppendTimesRise(Without(byCaller.keys, from), byCaller.items, from, entry);
      TouchValid(byCaller, from, entry);
    } else {
      AppendTimesRise(byCaller.keys, byCaller.items, from, Entry(now, 1, None));
    }
  }

  lemma NotedByRemembrance(targets: seq<string>, ops: seq<Op>, op: Op)
    requires Distinct(targets) && ByRemembrance(targets, ops) && op.RememberOp?
    ensures ByRemembrance(Without(targets, op.target) + [op.target], ops + [op])
  {
    var after := ops + [op];
    assert after[..|ops|] == ops;
    WithoutByRemembrance(targets, op.target, ops);
    var rest := Without(targets, op.target);
    assert forall i :: 0 <= i < |rest| ==> rest[i] in rest;
  }

  lemma NotedOrdered(s: State, ops: seq<Op>, op: Op)
    requires Ordered(s, LastTime(ops), ops) && op.RememberOp? && LastTime(ops) <= op.now
    ensures Ordered(Noted(s, op.target, op.from, op.now), op.now, ops + [op])
  {
    hide Accounted, ByTime, ByRemembrance;
    OuterDistinct(s);
    NotedAccounted(s, op.target, op.from, op.now);
    var byCaller := CallersOf(s, op.target);
    EmptyByTime(LastTime(ops));
    NotedByTime(byCaller, op.from, op.now, LastTime(ops));
    NotedByRemembrance(s.calls.keys, ops, op);
    TouchValid(s.calls, op.target, NotedCaller(byCaller, op.from, op.now));
    forall t | t in s.calls.items ensures ByTime(s.calls.items[t], op.now) {
      LaterByTime(s.calls.items[t], LastTime(ops), op.now);
    }
  }

  lemma EmptyByTime(last: nat)
    ensures ByTime(Empty(), last)
  {
  }

  lemma LaterByTime(byCaller: Callers, last: nat, later: nat)
    requires ByTime(byCaller, last) && last <= later
    ensures ByTime(byCaller, later)
  {
  }

  /** Operations other than remembering leave positions and clock as they were. */
  lemma OtherOp(s: State, ops: seq<Op>, op: Op)
    requires !op.RememberOp?
    ensures LastTime(ops + [op]) == LastTime(ops)
    ensures forall t :: LastRemembered(ops + [op], t) == LastRemembered(ops, t)
    ensures Ordered(s, LastTime(ops), ops) ==> Ordered(s, LastTime(ops + [op]), ops + [op])
  {
    assert (ops + [op])[..|ops|] == ops;
  }

  lemma ReceiptByTime(byCaller: Callers, from: string, e: string, last: nat)
    requires byCaller.Has(from) && ByTime(byCaller, last)
    ensures ByTime(byCaller.Set(from, byCaller.items[from].(e := Some(e))), last)
  {
  }

  lemma AttachOrdered(s: State, target: string, from: string, e: string, c: Config, last: nat, ops: seq<Op>)
    requires Ordered(s, last, ops)
    ensures Ordered(Attach(s, target, from, e, c).1, last, ops)
  {
    hide Accounted, ByTime, ByRemembrance;
    if s.calls.Has(target) && s.calls.items[target].Has(from) {
      ReceiptPut(s, target, from, e);
      var byCaller := s.calls.items[target];
      ReceiptByTime(byCaller, from, e, last);
      BudgetOrdered(Receipted(s, target, from, e), c, last, ops);
    }
  }

  lemma RememberOrdered(s: State, ops: seq<Op>, op: Op, c: Config)
    requires Ordered(s, LastTime(ops), ops) && op.RememberOp? && LastTime(ops) <= op.now
    ensures Ordered(Step(s, op, c), op.now, ops + [op])
  {
    hide Ordered;
    var swept := Sweep(s, op.now, c.ttl);
    SweepOrdered(s, op.now, c.ttl, LastTime(ops), ops);
    NotedOrdered(swept, ops, op);
    var noted := Noted(swept, op.target, op.from, op.now);
    var after := ops + [op];
    TrimCallersOrdered(noted, op.target, op.now, after);
    TrimTargetsOrdered(TrimCallers(noted, op.target), c.peersMax, op.now, after);
    BudgetOrdered(TrimTargets(TrimCallers(noted, op.target), c.peersMax), c, op.now, after);
  }

  /** In every run, callers stand by time and targets by when they were last remembered. */
  lemma {:induction false} OrderHolds(ops: seq<Op>, c: Config)
    requires Clocked(ops)
    ensures Ordered(Run(ops, c), LastTime(ops), ops)
  {
    if ops != [] {
      var n := |ops| - 1;
      var before, op := ops[..n], ops[n];
      assert before + [op] == ops;
      OrderHolds(before, c);
      var s := Run(before, c);
      hide Ordered, Step;
      StepIs(s, op, c);
      match op
      case RememberOp(_, _, _) => RememberOrdered(s, before, op, c);
      case AttachOp(target, from, e) =>
        AttachOrdered(s, target, from, e, c, LastTime(before), before);
        OtherOp(Step(s, op, c), before, op);
      case ForgetOp(target, from) =>
        DropCallOrdered(s, target, from, LastTime(before), before);
        OtherOp(Step(s, op, c), before, op);
      case DeliveredOp(target) =>
        DropTargetOrdered(s, target, LastTime(before), before);
        OtherOp(Step(s, op, c), before, op);
    }
  }

  lemma StepIs(s: State, op: Op, c: Config)
    ensures op.AttachOp? ==> Step(s, op, c) == Attach(s, op.target, op.from, op.e, c).1
    ensures op.ForgetOp? ==> Step(s, op, c) == DropCall(s, op.target, op.from)
    ensures op.DeliveredOp? ==> Step(s, op, c) == DropTarget(s, op.target)
  {
  }

  /* ---- eviction ---- */

  ghost predicate HasEntry(s: State, target: string, from: string) {
    s.calls.Has(target) && s.calls.items[target].Has(from)
  }

  /** `b` is `a` without one entry. */
  ghost predicate LacksOnly(a: State, b: State, t0: string, f0: string) {
    && HasEntry(a, t0, f0) && !HasEntry(b, t0, f0)
    && (forall t, f :: HasEntry(a, t, f) && (t != t0 || f != f0)
          ==> HasEntry(b, t, f) && b.calls.items[t].items[f] == a.calls.items[t].items[f])
    && (forall t, f :: HasEntry(b, t, f) ==> HasEntry(a, t, f))
  }

  /** The entry is the oldest of the target that was remembered longest ago. */
  ghost predicate Oldest(s: State, ops: seq<Op>, t0: string, f0: string)
    requires HasEntry(s, t0, f0)
  {
    && (forall t, f :: HasEntry(s, t, f) && t != t0 ==> LastRemembered(ops, t0) < LastRemembered(ops, t))
    && (forall f :: HasEntry(s, t0, f) ==> s.calls.items[t0].items[f0].at <= s.calls.items[t0].items[f].at)
  }

  /**
   * One eviction, from any ordered journal that holds something, takes the oldest entry of the
   * target remembered longest ago, and only it: every other entry stays as it was.
   */
  lemma EvictsOldest(s: State, last: nat, ops: seq<Op>) returns (t0: string, f0: string)
    requires Ordered(s, last, ops) && s.calls.keys != []
    ensures LacksOnly(s, EvictOldest(s).1, t0, f0)
    ensures Oldest(s, ops, t0, f0)
    ensures EvictOldest(s).0 && EvictOldest(s).1 == DropCall(s, t0, f0)
    ensures t0 == s.calls.keys[0] && s.calls.items[t0].keys != [] && f0 == s.calls.items[t0].keys[0]
  {
    hide Accounted, DropCall, LacksOnly, ByTime, ByRemembrance;
    OuterDistinct(s);
    t0 := s.calls.keys[0];
    f0 := s.calls.items[t0].keys[0];
    assert s.calls.items[t0].Has(f0);
    DropsOne(s, t0, f0);
    FirstIsOldest(s.calls.items[t0], last);
    FirstRememberedLongestAgo(s.calls.keys, ops);
  }

  lemma DropsOne(s: State, t0: string, f0: string)
    requires s.calls.Valid() && HasEntry(s, t0, f0) && s.calls.items[t0].Valid()
    ensures LacksOnly(s, DropCall(s, t0, f0), t0, f0)
  {
    DeleteValid(s.calls.items[t0], f0);
  }

  lemma FirstIsOldest(byCaller: Callers, last: nat)
    requires byCaller.Valid() && byCaller.keys != [] && ByTime(byCaller, last)
    ensures forall f :: byCaller.Has(f) ==> byCaller.items[byCaller.keys[0]].at <= byCaller.items[f].at
  {
    forall f | byCaller.Has(f) ensures byCaller.items[byCaller.keys[0]].at <= byCaller.items[f].at {
      var i :| 0 <= i < |byCaller.keys| && byCaller.keys[i] == f;
    }
  }

  lemma FirstRememberedLongestAgo(targets: seq<string>, ops: seq<Op>)
    requires targets != [] && ByRemembrance(targets, ops)
    ensures forall t :: t in targets && t != targets[0] ==> LastRemembered(ops, targets[0]) < LastRemembered(ops, t)
  {
  }

  /* ---- a call just recorded is there ---- */

  /** The entry stands last under the last target. */
  ghost predicate Freshest(s: State, target: string, from: string, entry: Entry) {
    && s.calls.keys != [] && s.calls.keys[|s.calls.keys| - 1] == target && s.calls.Has(target)
    && LastCaller(s.calls.items[target], from, entry)
  }

  /** What the journal holds about the caller after one more attempt. */
  function After(s: State, target: string, from: string, now: nat): Entry {
    var byCaller := CallersOf(s, target);
    if byCaller.Has(from) then byCaller.items[from].(at := now, attempts := byCaller.items[from].attempts + 1)
    else Entry(now, 1, None)
  }

  ghost predicate LastCaller(byCaller: Callers, from: string, entry: Entry) {
    && byCaller.keys != [] && byCaller.keys[|byCaller.keys| - 1] == from
    && byCaller.Has(from) && byCaller.items[from] == entry
  }

  lemma NotedLast(s: State, target: string, from: string, now: nat)
    requires CallersOf(s, target).Valid()
    ensures LastCaller(NotedCaller(CallersOf(s, target), from, now), from, After(s, target, from, now))
  {
    var byCaller := CallersOf(s, target);
    if byCaller.Has(from) {
      TouchValid(byCaller, from, After(s, target, from, now));
    }
  }

  lemma NotedFreshest(s: State, target: string, from: string, now: nat)
    requires Accounted(s)
    ensures Freshest(Noted(s, target, from, now), target, from, After(s, target, from, now))
  {
    hide Accounted, LastCaller, After, NotedCaller;
    OuterDistinct(s);
    NotedLast(s, target, from, now);
    TouchValid(s.calls, target, NotedCaller(CallersOf(s, target), from, now));
  }

  lemma LastCallerStays(byCaller: Callers, from: string, entry: Entry)
    requires byCaller.Valid() && LastCaller(byCaller, from, entry) && |byCaller.keys| >= 2
    ensures LastCaller(byCaller.Delete(byCaller.keys[0]), from, entry)
  {
    DeleteFirst(byCaller);
    assert byCaller.keys[1..][|byCaller.keys| - 2] == from;
  }

  /** The outer map after DropCall: the target's callers replaced, or the target gone. */
  lemma OuterAfterDrop(s: State, t0: string, f0: string)
    requires HasEntry(s, t0, f0)
    ensures var calls, left := DropCall(s, t0, f0).calls, s.calls.items[t0].Delete(f0);
      && (left.keys != [] ==> calls.keys == s.calls.keys && calls.Has(t0) && calls.items[t0] == left)
      && (left.keys == [] ==> calls.keys == Without(s.calls.keys, t0))
      && (forall t :: t != t0 && s.calls.Has(t) ==> calls.Has(t) && calls.items[t] == s.calls.items[t])
  {
  }

  /** Dropping the first caller of the last target, which has another, leaves the last one last. */
  lemma DropOwnFirstFresh(s: State, target: string, from: string, entry: Entry)
    requires Accounted(s) && Freshest(s, target, from, entry) && |s.calls.items[target].keys| >= 2
    ensures Freshest(DropCall(s, target, s.calls.items[target].keys[0]), target, from, entry)
  {
    hide Accounted, DropCall, JsMap.Delete, LastCaller;
    var byCaller := s.calls.items[target];
    CallersThere(s, target);
    LastCallerStays(byCaller, from, entry);
    OuterAfterDrop(s, target, byCaller.keys[0]);
    LastCallerNonEmpty(byCaller.Delete(byCaller.keys[0]), from, entry);
  }

  lemma CallersThere(s: State, target: string)
    requires Accounted(s) && s.calls.Has(target)
    ensures s.calls.items[target].Valid() && s.calls.items[target].keys != []
    ensures HasEntry(s, target, s.calls.items[target].keys[0])
  {
    hide Entries, ReceiptBytes;
    assert s.calls.items[target].keys[0] in s.calls.items[target].keys;
  }

  lemma LastCallerNonEmpty(byCaller: Callers, from: string, entry: Entry)
    requires LastCaller(byCaller, from, entry)
    ensures byCaller.keys != []
  {
  }

  /** So does dropping a caller of another target. */
  lemma DropOtherFresh(s: State, t0: string, f0: string, target: string, from: string, entry: Entry)
    requires Accounted(s) && Freshest(s, target, from, entry) && t0 != target
    ensures Freshest(DropCall(s, t0, f0), target, from, entry)
  {
    hide Accounted, DropCall, LastCaller;
    TargetsDistinct(s);
    LastStays(s.calls.keys, t0);
    hide Without, Distinct;
    if HasEntry(s, t0, f0) {
      OuterAfterDrop(s, t0, f0);
    } else {
      DropsNothing(s, t0, f0);
    }
  }

  lemma DropsNothing(s: State, t0: string, f0: string)
    requires !HasEntry(s, t0, f0)
    ensures DropCall(s, t0, f0) == s
  {
  }

  lemma TargetsDistinct(s: State)
    requires Accounted(s)
    ensures Distinct(s.calls.keys)
  {
  }

  lemma LastStays(keys: seq<string>, k: string)
    requires Distinct(keys) && keys != [] && keys[|keys| - 1] != k
    ensures Without(keys, k) != [] && Without(keys, k)[|Without(keys, k)| - 1] == keys[|keys| - 1]
  {
    if k in keys {
      var i :| 0 <= i < |keys| && keys[i] == k;
      WithoutAt(keys, i);
    } else {
      WithoutAbsent(keys, k);
    }
  }

  lemma {:induction false} TrimCallersFresh(s: State, target: string, from: string, entry: Entry)
    requires Accounted(s) && Freshest(s, target, from, entry)
    ensures Freshest(TrimCallers(s, target), target, from, entry)
    decreases SizeAt(s.calls, target)
  {
    hide Accounted, DropCall;
    OuterDistinct(s);
    if |s.calls.items[target].keys| > PER_PEER {
      var first := s.calls.items[target].keys[0];
      DropOwnFirstFresh(s, target, from, entry);
      DropCallAccounted(s, target, first);
      DropCallShrinks(s, target, first);
      TrimCallersFresh(DropCall(s, target, first), target, from, entry);
    }
  }

  lemma DropCallShrinks(s: State, target: string, from: string)
    requires s.calls.Has(target) && s.calls.items[target].Has(from) && s.calls.items[target].Valid()
    ensures SizeAt(DropCall(s, target, from).calls, target) < SizeAt(s.calls, target)
  {
  }

  lemma DropFirstTargetFresh(s: State, target: string, from: string, entry: Entry)
    requires Accounted(s) && Freshest(s, target, from, entry) && |s.calls.keys| > 1
    ensures Freshest(DropTarget(s, s.calls.keys[0]), target, from, entry)
    ensures s.calls.Has(s.calls.keys[0])
  {
    hide Accounted, LastCaller;
    OuterDistinct(s);
    assert s.calls.keys[0] in s.calls.keys;
    LastStays(s.calls.keys, s.calls.keys[0]);
  }

  lemma {:induction false} TrimTargetsFresh(s: State, peersMax: nat, target: string, from: string, entry: Entry)
    requires Accounted(s) && Freshest(s, target, from, entry) && peersMax >= 1
    ensures Freshest(TrimTargets(s, peersMax), target, from, entry)
    decreases |s.calls.keys|
  {
    hide Accounted, Freshest, DropTarget;
    if |s.calls.keys| > peersMax {
      DropFirstTargetFresh(s, target, from, entry);
      DropTargetAccounted(s, s.calls.keys[0]);
      DropTargetShrinks(s);
      TrimTargetsFresh(DropTarget(s, s.calls.keys[0]), peersMax, target, from, entry);
    }
  }

  /** One eviction from a journal of at least two entries never takes the freshest. */
  lemma EvictFresh(s: State, target: string, from: string, entry: Entry)
    requires Accounted(s) && Freshest(s, target, from, entry) && s.entries >= 2
    ensures Freshest(EvictOldest(s).1, target, from, entry)
    ensures EvictOldest(s).1.entries == s.entries - 1 && EvictOldest(s).1.receiptBytes <= s.receiptBytes
  {
    OuterDistinct(s);
    var t0 := s.calls.keys[0];
    assert s.calls.Has(t0) && s.calls.items[t0].keys[0] in s.calls.items[t0].keys;
    if t0 == target {
      SoleTarget(s);
      hide Accounted, DropCall;
      DropOwnFirstFresh(s, target, from, entry);
    } else {
      hide Accounted, DropCall;
      DropOtherFresh(s, t0, s.calls.items[t0].keys[0], target, from, entry);
    }
    DropsCount(s, t0, s.calls.items[t0].keys[0]);
  }

  lemma DropsCount(s: State, target: string, from: string)
    requires s.calls.Has(target) && s.calls.items[target].Has(from)
    ensures DropCall(s, target, from).entries == s.entries - 1
    ensures DropCall(s, target, from).receiptBytes <= s.receiptBytes
  {
  }

  lemma SoleTarget(s: State)
    requires Accounted(s) && s.calls.keys != []
    ensures s.calls.keys[0] == s.calls.keys[|s.calls.keys| - 1] ==> s.entries == SizeAt(s.calls, s.calls.keys[0])
  {
    OuterDistinct(s);
    if |s.calls.keys| == 1 {
      assert s.calls.keys[0] in s.calls.keys && s.calls.keys[1..] == [];
      assert Total(s.calls.keys[1..], Sizes(s.calls)) == 0;
    }
  }

  lemma BudgetFresh(s: State, c: Config, target: string, from: string, entry: Entry)
    requires Accounted(s) && Freshest(s, target, from, entry)
    requires 1 <= c.entriesMax && s.entries <= c.entriesMax + 1 && s.receiptBytes <= c.receiptBytesMax
    ensures Freshest(EnforceBudget(s, c), target, from, entry)
  {
    hide Accounted, Freshest;
    if OverBudget(s, c) {
      EvictFresh(s, target, from, entry);
      EvictAccounted(s);
      FreshestPresent(s, target, from, entry);
    }
  }

  lemma FreshestPresent(s: State, target: string, from: string, entry: Entry)
    requires Freshest(s, target, from, entry)
    ensures s.calls.keys != []
  {
  }

  /** Trimming to the caps only lowers the counters. */
  lemma {:induction false} TrimCallersCounts(s: State, target: string)
    ensures TrimCallers(s, target).entries <= s.entries && TrimCallers(s, target).receiptBytes <= s.receiptBytes
    decreases SizeAt(s.calls, target)
  {
    if SizeAt(s.calls, target) > PER_PEER && s.calls.items[target].Has(s.calls.items[target].keys[0]) {
      TrimCallersCounts(DropCall(s, target, s.calls.items[target].keys[0]), target);
    }
  }

  lemma {:induction false} TrimTargetsCounts(s: State, peersMax: nat)
    ensures TrimTargets(s, peersMax).entries <= s.entries && TrimTargets(s, peersMax).receiptBytes <= s.receiptBytes
    decreases |s.calls.keys|
  {
    if |s.calls.keys| > peersMax && s.calls.Has(s.calls.keys[0]) {
      TrimTargetsCounts(DropTarget(s, s.calls.keys[0]), peersMax);
    }
  }

  lemma {:induction false} SweepCounts(s: State, now: nat, ttl: nat)
    ensures Sweep(s, now, ttl).entries <= s.entries && Sweep(s, now, ttl).receiptBytes <= s.receiptBytes
    decreases |s.calls.keys|
  {
    if s.calls.keys != [] && s.calls.Has(s.calls.keys[0]) && Expired(s.calls.items[s.calls.keys[0]], now, ttl) {
      SweepCounts(DropTarget(s, s.calls.keys[0]), now, ttl);
    }
  }

  /**
   * A call is never lost to the evictions its own recording causes: it is in the journal right
   * after, with the attempt counted and its receipt kept, unless a cap is zero.
   */
  lemma RememberRecords(s: State, target: string, from: string, now: nat, c: Config)
    requires Accounted(s) && Capped(s, c) && c.peersMax >= 1 && c.entriesMax >= 1
    ensures var s' := Remember(s, target, from, now, c);
      HasEntry(s', target, from) && s'.calls.items[target].items[from] == After(Sweep(s, now, c.ttl), target, from, now)
  {
    hide Accounted, Noted;
    var swept := Sweep(s, now, c.ttl);
    SweepAccounted(s, now, c.ttl);
    SweepFewer(s, now, c.ttl);
    SweepCounts(s, now, c.ttl);
    NotedAccounted(swept, target, from, now);
    NotedFreshest(swept, target, from, now);
    NotedCounts(swept, target, from, now);
    var noted, entry := Noted(swept, target, from, now), After(swept, target, from, now);
    TrimBoth(noted, c.peersMax, target, from, entry);
    BudgetFresh(TrimTargets(TrimCallers(noted, target), c.peersMax), c, target, from, entry);
  }

  lemma NotedCounts(s: State, target: string, from: string, now: nat)
    ensures Noted(s, target, from, now).entries <= s.entries + 1
    ensures Noted(s, target, from, now).receiptBytes == s.receiptBytes
  {
  }

  lemma TrimBoth(s: State, peersMax: nat, target: string, from: string, entry: Entry)
    requires Accounted(s) && Freshest(s, target, from, entry) && peersMax >= 1
    requires OthersFit(s, target)
    ensures var s' := TrimTargets(TrimCallers(s, target), peersMax);
      Accounted(s') && Freshest(s', target, from, entry) && s'.entries <= s.entries && s'.receiptBytes <= s.receiptBytes
  {
    hide Accounted, Freshest, OthersFit;
    TrimCallersKeeps(s, target);
    TrimCallersFresh(s, target, from, entry);
    TrimCallersCounts(s, target);
    var s1 := TrimCallers(s, target);
    TrimTargetsKeeps(s1, peersMax);
    TrimTargetsFresh(s1, peersMax, target, from, entry);
    TrimTargetsCounts(s1, peersMax);
  }

  /* ---- sweeping ---- */

  /** Every call to the target is past its lifetime. */
  ghost predicate AllExpired(byCaller: Callers, now: nat, ttl: nat) {
    forall f :: byCaller.Has(f) ==> now - byCaller.items[f].at > ttl
  }

  lemma {:induction false} NewestIsLatest(keys: seq<string>, items: map<string, Entry>)
    ensures forall f :: f in keys && f in items ==> items[f].at <= Newest(keys, items)
    ensures Newest(keys, items) == 0 || exists f :: f in keys && f in items && items[f].at == Newest(keys, items)
  {
    if keys != [] {
      NewestIsLatest(keys[1..], items);
      assert keys[0] in keys;
    }
  }

  lemma ExpiredMeans(byCaller: Callers, now: nat, ttl: nat)
    requires byCaller.Valid() && byCaller.keys != []
    ensures Expired(byCaller, now, ttl) <==> AllExpired(byCaller, now, ttl)
  {
    NewestIsLatest(byCaller.keys, byCaller.items);
    var first := byCaller.keys[0];
    assert byCaller.Has(first);
  }

  /** How many targets, from the head, are wholly expired. */
  ghost function ExpiredPrefix(calls: JsMap<string, Callers>, keys: seq<string>, now: nat, ttl: nat): (n: nat)
    ensures n <= |keys|
    ensures forall i :: 0 <= i < n && calls.Has(keys[i]) ==> AllExpired(calls.items[keys[i]], now, ttl)
    ensures n < |keys| ==> calls.Has(keys[n]) && !AllExpired(calls.items[keys[n]], now, ttl)
  {
    if keys == [] then 0
    else if calls.Has(keys[0]) && !AllExpired(calls.items[keys[0]], now, ttl) then 0
    else 1 + ExpiredPrefix(calls, keys[1..], now, ttl)
  }

  /** `a` holds some of `b`'s targets, each with all of its callers. */
  ghost predicate Within(a: JsMap<string, Callers>, b: JsMap<string, Callers>) {
    forall t :: a.Has(t) ==> b.Has(t) && a.items[t] == b.items[t]
  }

  /**
   * A sweep drops exactly the leading targets whose calls have all expired. So it never drops a
   * target that still has an unexpired entry, and leaves every other target as it was.
   */
  lemma {:induction false} SweepDropsPrefix(s: State, now: nat, ttl: nat)
    requires Shaped(s.calls)
    ensures Sweep(s, now, ttl).calls.keys == s.calls.keys[ExpiredPrefix(s.calls, s.calls.keys, now, ttl)..]
    ensures Within(Sweep(s, now, ttl).calls, s.calls)
    ensures Shaped(Sweep(s, now, ttl).calls)
    decreases |s.calls.keys|
  {
    hide Shaped, AllExpired, Expired, DropTarget, Sweep, ExpiredPrefix, Within;
    SweepRound(s, now, ttl);
    if s.calls.keys != [] && Expired(s.calls.items[s.calls.keys[0]], now, ttl) {
      FirstDropped(s);
      var s1 := DropTarget(s, s.calls.keys[0]);
      SweepDropsPrefix(s1, now, ttl);
      FirstDroppedPrefix(s, s1, now, ttl);
      RestOfRest(s.calls.keys, ExpiredPrefix(s1.calls, s1.calls.keys, now, ttl));
      WithinTransitive(Sweep(s1, now, ttl).calls, s1.calls, s.calls);
    }
  }

  lemma RestOfRest(keys: seq<string>, n: nat)
    requires n < |keys|
    ensures keys[1..][n..] == keys[1 + n..]
  {
  }

  /** The first round of a sweep, and what it means for the expired prefix. */
  lemma SweepRound(s: State, now: nat, ttl: nat)
    requires Shaped(s.calls)
    ensures s.calls.keys != [] ==> s.calls.Has(s.calls.keys[0])
    ensures s.calls.keys == [] || !Expired(s.calls.items[s.calls.keys[0]], now, ttl) ==>
      Sweep(s, now, ttl) == s && ExpiredPrefix(s.calls, s.calls.keys, now, ttl) == 0
    ensures s.calls.keys != [] && Expired(s.calls.items[s.calls.keys[0]], now, ttl) ==>
      && Sweep(s, now, ttl) == Sweep(DropTarget(s, s.calls.keys[0]), now, ttl)
      && ExpiredPrefix(s.calls, s.calls.keys, now, ttl) == 1 + ExpiredPrefix(s.calls, s.calls.keys[1..], now, ttl)
    ensures Within(s.calls, s.calls)
  {
    if s.calls.keys != [] {
      assert s.calls.Has(s.calls.keys[0]);
      ExpiredMeans(s.calls.items[s.calls.keys[0]], now, ttl);
      hide AllExpired, Expired, DropTarget;
    }
  }

  lemma WithinTransitive(a: JsMap<string, Callers>, b: JsMap<string, Callers>, c: JsMap<string, Callers>)
    requires Within(a, b) && Within(b, c)
    ensures Within(a, c)
  {
  }

  lemma FirstDroppedPrefix(s: State, s1: State, now: nat, ttl: nat)
    requires s.calls.keys != [] && Within(s1.calls, s.calls) && s1.calls.keys == s.calls.keys[1..]
    requires forall k :: k in s1.calls.keys ==> s1.calls.Has(k)
    ensures ExpiredPrefix(s.calls, s.calls.keys[1..], now, ttl) == ExpiredPrefix(s1.calls, s1.calls.keys, now, ttl)
  {
    PrefixElsewhere(s.calls, s1.calls, s1.calls.keys, now, ttl);
  }

  lemma FirstDropped(s: State)
    requires Shaped(s.calls) && s.calls.keys != []
    ensures var s1 := DropTarget(s, s.calls.keys[0]);
      && Shaped(s1.calls) && s1.calls.keys == s.calls.keys[1..]
      && Within(s1.calls, s.calls)
      && (forall k :: k in s1.calls.keys ==> s1.calls.Has(k))
  {
    assert s.calls.Has(s.calls.keys[0]);
    DeleteFirst(s.calls);
    ShapedDelete(s.calls, s.calls.keys[0]);
  }

  lemma {:induction false} PrefixElsewhere(a: JsMap<string, Callers>, b: JsMap<string, Callers>, keys: seq<string>,
      now: nat, ttl: nat)
    requires forall k :: k in keys ==> a.Has(k) && b.Has(k) && a.items[k] == b.items[k]
    ensures ExpiredPrefix(a, keys, now, ttl) == ExpiredPrefix(b, keys, now, ttl)
  {
    if keys != [] {
      PrefixElsewhere(a, b, keys[1..], now, ttl);
    }
  }

  ghost predicate NoneExpired(calls: JsMap<string, Callers>, now: nat, ttl: nat) {
    forall t :: calls.Has(t) ==> !AllExpired(calls.items[t], now, ttl)
  }

  /** Which targets, in order, still have an unexpired entry. */
  ghost function Live(calls: JsMap<string, Callers>, now: nat, ttl: nat): (live: seq<bool>)
    ensures |live| == |calls.keys|
    ensures forall i :: 0 <= i < |live| ==>
              live[i] == (calls.Has(calls.keys[i]) && !AllExpired(calls.items[calls.keys[i]], now, ttl))
  {
    seq(|calls.keys|, i requires 0 <= i < |calls.keys| =>
      calls.Has(calls.keys[i]) && !AllExpired(calls.items[calls.keys[i]], now, ttl))
  }

  /**
   * It is complete (no wholly expired target is left) exactly when none stood behind a target
   * with an unexpired entry.
   */
  lemma SweepCompleteExactly(s: State, now: nat, ttl: nat)
    requires Shaped(s.calls)
    ensures NoneExpired(Sweep(s, now, ttl).calls, now, ttl)
      <==> forall i, j :: 0 <= i < j < |s.calls.keys| && Live(s.calls, now, ttl)[i] ==> Live(s.calls, now, ttl)[j]
  {
    SweepDropsPrefix(s, now, ttl);
    KeysThere(s.calls);
    var n := ExpiredPrefix(s.calls, s.calls.keys, now, ttl);
    hide Shaped, AllExpired, Sweep, ExpiredPrefix, Live, NoneExpired, Within;
    LeftAlive(s.calls, Sweep(s, now, ttl).calls, n, now, ttl);
    PrefixComplete(Live(s.calls, now, ttl), n);
  }

  /** What is left after dropping the first `n` targets, in terms of who is alive. */
  lemma LeftAlive(calls: JsMap<string, Callers>, left: JsMap<string, Callers>, n: nat, now: nat, ttl: nat)
    requires Shaped(left) && n <= |calls.keys| && left.keys == calls.keys[n..] && Within(left, calls)
    requires forall i :: 0 <= i < |calls.keys| ==> calls.Has(calls.keys[i])
    ensures NoneExpired(left, now, ttl) <==> forall j :: n <= j < |calls.keys| ==> Live(calls, now, ttl)[j]
  {
    KeysThere(left);
    hide Shaped, AllExpired;
    var live := Live(calls, now, ttl);
    forall j | n <= j < |calls.keys|
      ensures left.Has(calls.keys[j]) && live[j] == !AllExpired(left.items[calls.keys[j]], now, ttl)
    {
      assert left.keys[j - n] == calls.keys[j];
    }
    forall t | left.Has(t) && AllExpired(left.items[t], now, ttl)
      ensures exists j :: n <= j < |calls.keys| && !live[j]
    {
      var i :| 0 <= i < |left.keys| && left.keys[i] == t;
      assert calls.keys[n + i] == t && !live[n + i];
    }
  }

  lemma PrefixComplete(live: seq<bool>, n: nat)
    requires n <= |live| && (forall i :: 0 <= i < n ==> !live[i]) && (n < |live| ==> live[n])
    ensures (forall j :: n <= j < |live| ==> live[j]) <==> forall i, j :: 0 <= i < j < |live| && live[i] ==> live[j]
  {
  }

  lemma KeysThere(calls: JsMap<string, Callers>)
    requires Shaped(calls)
    ensures forall i :: 0 <= i < |calls.keys| ==> calls.Has(calls.keys[i])
    ensures forall t :: calls.Has(t) ==> exists i :: 0 <= i < |calls.keys| && calls.keys[i] == t
  {
    assert forall i :: 0 <= i < |calls.keys| ==> calls.keys[i] in calls.keys;
    assert forall t :: calls.Has(t) ==> t in calls.keys;
  }

  /* ---- delivery ---- */

  datatype Missed = Missed(from: string, at: nat, attempts: nat, e: Option<string>)

  /** The unexpired entries of a target, in map order. */
  function Collected(keys: seq<string>, items: map<string, Entry>, now: nat, ttl: nat): seq<Missed> {
    if keys == [] then []
    else
      var rest := Collected(keys[1..], items, now, ttl);
      if keys[0] in items && now - items[keys[0]].at <= ttl
      then [Missed(keys[0], items[keys[0]].at, items[keys[0]].attempts, items[keys[0]].e)] + rest
      else rest
  }

  /** A stable sort by time. */
  function SortByAt(calls: seq<Missed>): seq<Missed> {
    if calls == [] then [] else Insert(calls[0], SortByAt(calls[1..]))
  }

  function Insert(m: Missed, sorted: seq<Missed>): seq<Missed> {
    if sorted == [] || m.at <= sorted[0].at then [m] + sorted else [sorted[0]] + Insert(m, sorted[1..])
  }

  lemma {:induction false} CollectedRises(keys: seq<string>, items: map<string, Entry>, now: nat, ttl: nat, floor: nat)
    requires TimesRise(keys, items)
    requires forall k :: k in keys && k in items ==> items[k].at >= floor
    ensures forall m :: m in Collected(keys, items, now, ttl) ==> m.at >= floor
    ensures SortByAt(Collected(keys, items, now, ttl)) == Collected(keys, items, now, ttl)
  {
    if keys != [] {
      var k, rest := keys[0], Collected(keys[1..], items, now, ttl);
      if k in items {
        forall x | x in keys[1..] && x in items ensures items[x].at >= items[k].at {
          var i :| 0 <= i < |keys[1..]| && keys[1..][i] == x;
          assert keys[i + 1] == x;
        }
        CollectedRises(keys[1..], items, now, ttl, items[k].at);
        assert rest != [] ==> rest[0] in rest;
      } else {
        CollectedRises(keys[1..], items, now, ttl, floor);
      }
    }
  }

  /** So the sort in readMissedCalls changes nothing. */
  lemma SortChangesNothing(ops: seq<Op>, c: Config, peer: string, now: nat)
    requires Clocked(ops)
    ensures var byCaller := CallersOf(Run(ops, c), peer);
      var calls := Collected(byCaller.keys, byCaller.items, now, c.ttl);
      SortByAt(calls) == calls
  {
    OrderHolds(ops, c);
    hide Accounted, Run;
    var byCaller := CallersOf(Run(ops, c), peer);
    EmptyByTime(0);
    CollectedRises(byCaller.keys, byCaller.items, now, c.ttl, 0);
  }
}
