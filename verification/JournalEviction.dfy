/**
 * What the budget of the missed-call journal evicts, inside the operations that may go over it:
 * rememberMissedCall after its own writes and trims, attachMissedReceipt after the receipt.
 */
module JournalEviction {
  import opened Wrappers
  import opened OrderedMaps
  import opened Journal
  import opened JournalOrder

  ghost function EntryAt(s: State, target: string, from: string): Entry
    requires HasEntry(s, target, from)
  {
    s.calls.items[target].items[from]
  }

  /**
   * One entry comes before another: by when their targets were last remembered, then by time, and
   * calls of one moment in the order in which they came. Every entry comes before itself.
   */
  ghost predicate Precedes(s: State, ops: seq<Op>, t0: string, f0: string, t: string, f: string)
    requires HasEntry(s, t0, f0) && HasEntry(s, t, f)
  {
    if t == t0 then
      EntryAt(s, t0, f0).at <= EntryAt(s, t, f).at && (f == f0 || StandsBefore(s.calls.items[t].keys, f0, f))
    else LastRemembered(ops, t0) < LastRemembered(ops, t)
  }

  /** Nothing is new, and what is kept is as it was. */
  ghost predicate KeepsEntries(a: State, b: State) {
    forall t, f :: HasEntry(b, t, f) ==> HasEntry(a, t, f) && EntryAt(b, t, f) == EntryAt(a, t, f)
  }

  /** Every entry that went comes before every entry that stayed. */
  ghost predicate OldestWent(a: State, b: State, ops: seq<Op>)
    requires KeepsEntries(a, b)
  {
    forall t0, f0, t, f :: HasEntry(a, t0, f0) && !HasEntry(b, t0, f0) && HasEntry(b, t, f)
      ==> HasEntry(a, t, f) && Precedes(a, ops, t0, f0, t, f)
  }

  /** This entry went after all others that went, and put back it would go over the budget. */
  ghost predicate WentLast(a: State, b: State, ops: seq<Op>, c: Config, t: string, f: string) {
    && HasEntry(a, t, f) && !HasEntry(b, t, f)
    && (forall t0, f0 :: HasEntry(a, t0, f0) && !HasEntry(b, t0, f0) ==> Precedes(a, ops, t0, f0, t, f))
    && (b.entries + 1 > c.entriesMax || b.receiptBytes + Length(EntryAt(a, t, f)) > c.receiptBytesMax)
  }

  /** The last eviction was needed. */
  ghost predicate LastNeeded(a: State, b: State, ops: seq<Op>, c: Config) {
    exists t, f :: WentLast(a, b, ops, c, t, f)
  }

  /** What both journals hold stands in the same order in both. */
  ghost predicate KeepsOrder(a: State, b: State) {
    forall t, f0, f :: HasEntry(b, t, f0) && HasEntry(b, t, f) && HasEntry(a, t, f0) && HasEntry(a, t, f) &&
                       StandsBefore(b.calls.items[t].keys, f0, f) ==>
      StandsBefore(a.calls.items[t].keys, f0, f)
  }

  lemma OneEviction(s: State, last: nat, ops: seq<Op>) returns (t0: string, f0: string)
    requires Ordered(s, last, ops) && s.calls.keys != []
    ensures HasEntry(s, t0, f0) && !HasEntry(EvictOldest(s).1, t0, f0)
    ensures forall t, f :: HasEntry(s, t, f) && (t != t0 || f != f0) ==> HasEntry(EvictOldest(s).1, t, f)
    ensures KeepsEntries(s, EvictOldest(s).1) && KeepsOrder(s, EvictOldest(s).1)
    ensures forall t, f :: HasEntry(s, t, f) ==> Precedes(s, ops, t0, f0, t, f)
    ensures EvictOldest(s).1.entries == s.entries - 1
    ensures EvictOldest(s).1.receiptBytes == s.receiptBytes - Length(EntryAt(s, t0, f0))
  {
    hide Ordered, EvictOldest, StandsBefore, KeepsOrder;
    t0, f0 := EvictsOldest(s, last, ops);
    FirstEvicted(s, last, ops, t0, f0);
    DropKeepsOrder(s, last, ops, t0, f0);
  }

  lemma FirstEvicted(s: State, last: nat, ops: seq<Op>, t0: string, f0: string)
    requires Ordered(s, last, ops) && s.calls.keys != []
    requires t0 == s.calls.keys[0] && s.calls.Has(t0)
    requires s.calls.items[t0].keys != [] && f0 == s.calls.items[t0].keys[0]
    ensures forall f :: HasEntry(s, t0, f) && f != f0 ==> StandsBefore(s.calls.items[t0].keys, f0, f)
  {
    hide Accounted, ByTime, ByRemembrance;
    OuterDistinct(s);
    var keys := s.calls.items[t0].keys;
    forall f | HasEntry(s, t0, f) && f != f0
      ensures StandsBefore(keys, f0, f)
    {
      var j :| 0 <= j < |keys| && keys[j] == f;
    }
  }

  lemma DropKeepsOrder(s: State, last: nat, ops: seq<Op>, t0: string, f0: string)
    requires Ordered(s, last, ops) && HasEntry(s, t0, f0)
    ensures KeepsOrder(s, DropCall(s, t0, f0))
  {
    hide Accounted, ByTime, ByRemembrance;
    OuterDistinct(s);
    var after := DropCall(s, t0, f0);
    OuterAfterDrop(s, t0, f0);
    forall t, f1, f | HasEntry(after, t, f1) && HasEntry(after, t, f) && StandsBefore(after.calls.items[t].keys, f1, f)
      ensures HasEntry(s, t, f) && HasEntry(s, t, f1) ==> StandsBefore(s.calls.items[t].keys, f1, f)
    {
      if t == t0 {
        WithoutStands(s.calls.items[t0].keys, f0, f1, f);
      }
    }
  }

  /**
   * Whatever the budget evicts from an ordered journal comes before whatever it keeps; what it
   * keeps is as it was; it evicts exactly when the journal is over budget, and never once more
   * than needed.
   */
  lemma {:induction false} BudgetEvictsOldest(s: State, c: Config, last: nat, ops: seq<Op>)
    requires Ordered(s, last, ops)
    ensures var after := EnforceBudget(s, c);
      && KeepsEntries(s, after) && OldestWent(s, after, ops)
      && (if OverBudget(s, c) then LastNeeded(s, after, ops, c) else after == s)
    decreases |s.calls.keys|, HeadSize(s.calls)
  {
    hide Ordered, EvictOldest, EnforceBudget, HasEntry, KeepsEntries, OldestWent, LastNeeded, HeadSize, KeepsOrder;
    if OverBudget(s, c) {
      OverBudgetHolds(s, c, last, ops);
      var s1 := EvictOldest(s).1;
      var t0, f0 := OneEviction(s, last, ops);
      EvictOrdered(s, last, ops);
      BudgetEvictsOldest(s1, c, last, ops);
      EvictThen(s, s1, EnforceBudget(s1, c), ops, t0, f0);
      if OverBudget(s1, c) {
        NeededEarlier(s, s1, EnforceBudget(s1, c), ops, c, t0, f0);
      } else {
        NeededNow(s, s1, ops, c, t0, f0);
      }
    } else {
      NothingWent(s, c, ops);
    }
  }

  lemma NothingWent(s: State, c: Config, ops: seq<Op>)
    requires !OverBudget(s, c)
    ensures EnforceBudget(s, c) == s && KeepsEntries(s, s) && OldestWent(s, s, ops)
  {
  }

  lemma NeededNow(s: State, s1: State, ops: seq<Op>, c: Config, t0: string, f0: string)
    requires OverBudget(s, c) && HasEntry(s, t0, f0) && !HasEntry(s1, t0, f0)
    requires forall t, f :: HasEntry(s, t, f) && (t != t0 || f != f0) ==> HasEntry(s1, t, f)
    requires s1.entries == s.entries - 1 && s1.receiptBytes == s.receiptBytes - Length(EntryAt(s, t0, f0))
    ensures LastNeeded(s, s1, ops, c)
  {
    hide HasEntry;
    assert WentLast(s, s1, ops, c, t0, f0);
  }

  lemma OverBudgetHolds(s: State, c: Config, last: nat, ops: seq<Op>)
    requires Ordered(s, last, ops) && OverBudget(s, c)
    ensures s.calls.keys != [] && EvictOldest(s).0
    ensures EnforceBudget(s, c) == EnforceBudget(EvictOldest(s).1, c)
    ensures var s1 := EvictOldest(s).1;
      |s1.calls.keys| < |s.calls.keys| || (|s1.calls.keys| == |s.calls.keys| && HeadSize(s1.calls) < HeadSize(s.calls))
  {
    hide Accounted;
    EvictAccounted(s);
  }

  lemma EvictThen(s: State, s1: State, after: State, ops: seq<Op>, t0: string, f0: string)
    requires HasEntry(s, t0, f0) && !HasEntry(s1, t0, f0) && KeepsEntries(s, s1) && KeepsEntries(s1, after)
    requires KeepsOrder(s, s1)
    requires forall t, f :: HasEntry(s, t, f) && (t != t0 || f != f0) ==> HasEntry(s1, t, f)
    requires forall t, f :: HasEntry(s, t, f) ==> Precedes(s, ops, t0, f0, t, f)
    requires OldestWent(s1, after, ops)
    ensures KeepsEntries(s, after) && OldestWent(s, after, ops)
  {
    hide HasEntry, StandsBefore;
    forall t, f, u, g | HasEntry(s, t, f) && !HasEntry(after, t, f) && HasEntry(after, u, g)
      ensures HasEntry(s, u, g) && Precedes(s, ops, t, f, u, g)
    {
      assert HasEntry(s1, u, g) && HasEntry(s, u, g);
      if t != t0 || f != f0 {
        assert HasEntry(s1, t, f) && Precedes(s1, ops, t, f, u, g);
      }
    }
  }

  lemma NeededEarlier(s: State, s1: State, after: State, ops: seq<Op>, c: Config, t0: string, f0: string)
    requires HasEntry(s, t0, f0) && KeepsEntries(s, s1) && KeepsOrder(s, s1) && KeepsEntries(s1, after)
    requires forall t, f :: HasEntry(s, t, f) && (t != t0 || f != f0) ==> HasEntry(s1, t, f)
    requires forall t, f :: HasEntry(s, t, f) ==> Precedes(s, ops, t0, f0, t, f)
    requires LastNeeded(s1, after, ops, c)
    ensures LastNeeded(s, after, ops, c)
  {
    hide HasEntry, StandsBefore;
    var t, f :| WentLast(s1, after, ops, c, t, f);
    assert HasEntry(s, t, f) && EntryAt(s, t, f) == EntryAt(s1, t, f);
    forall u, g | HasEntry(s, u, g) && !HasEntry(after, u, g)
      ensures Precedes(s, ops, u, g, t, f)
    {
      if u != t0 || g != f0 {
        assert HasEntry(s1, u, g) && Precedes(s1, ops, u, g, t, f);
      }
    }
    assert WentLast(s, after, ops, c, t, f);
  }

  /** The journal at the moment an operation checks the budget. */
  function AtBudgetCheck(s: State, op: Op, c: Config): State {
    match op
    case RememberOp(target, from, now) =>
      TrimTargets(TrimCallers(Noted(Sweep(s, now, c.ttl), target, from, now), target), c.peersMax)
    case AttachOp(target, from, e) =>
      if s.calls.Has(target) && s.calls.items[target].Has(from) then Receipted(s, target, from, e) else s
    case _ => s
  }

  lemma CheckOrdered(ops: seq<Op>, op: Op, c: Config)
    requires Clocked(ops + [op]) && (op.RememberOp? || op.AttachOp?)
    ensures Ordered(AtBudgetCheck(Run(ops, c), op, c), LastTime(ops + [op]), ops + [op])
  {
    var all := ops + [op];
    assert all[..|ops|] == ops;
    var s := Run(ops, c);
    OrderHolds(ops, c);
    hide Ordered, Run;
    match op
    case RememberOp(target, from, now) =>
      SweepOrdered(s, now, c.ttl, LastTime(ops), ops);
      var noted := Noted(Sweep(s, now, c.ttl), target, from, now);
      NotedOrdered(Sweep(s, now, c.ttl), ops, op);
      TrimCallersOrdered(noted, target, now, all);
      TrimTargetsOrdered(TrimCallers(noted, target), c.peersMax, now, all);
    case AttachOp(target, from, e) =>
      if s.calls.Has(target) && s.calls.items[target].Has(from) {
        ReceiptOrdered(s, target, from, e, LastTime(ops), ops);
      }
      OtherOp(AtBudgetCheck(s, op, c), ops, op);
  }

  lemma ReceiptOrdered(s: State, target: string, from: string, e: string, last: nat, ops: seq<Op>)
    requires Ordered(s, last, ops) && s.calls.Has(target) && s.calls.items[target].Has(from)
    ensures Ordered(Receipted(s, target, from, e), last, ops)
  {
    hide Accounted, ByTime, ByRemembrance;
    ReceiptPut(s, target, from, e);
    ReceiptByTime(s.calls.items[target], from, e, last);
  }

  /**
   * In every run, the budget enforced by a remembered call or by a receipt evicts only entries
   * that come before all it keeps, in the order of last remembrance and then of time, the call
   * just remembered included; and it evicts exactly when the journal is over budget, none too many.
   */
  lemma EvictionsInOrder(ops: seq<Op>, op: Op, c: Config)
    requires Clocked(ops + [op]) && (op.RememberOp? || op.AttachOp?)
    ensures var before, after := AtBudgetCheck(Run(ops, c), op, c), Run(ops + [op], c);
      && KeepsEntries(before, after) && OldestWent(before, after, ops + [op])
      && (if OverBudget(before, c) then LastNeeded(before, after, ops + [op], c) else after == before)
  {
    var all := ops + [op];
    var s := Run(ops, c);
    assert all[..|ops|] == ops;
    assert Run(all, c) == Step(s, op, c);
    CheckOrdered(ops, op, c);
    AccountsAndCaps(ops, c);
    CheckedNext(s, op, c);
    hide Run, Ordered, AtBudgetCheck, EnforceBudget, Step, KeepsEntries, OldestWent, LastNeeded;
    BudgetEvictsOldest(AtBudgetCheck(s, op, c), c, LastTime(all), all);
  }

  lemma CheckedNext(s: State, op: Op, c: Config)
    requires Capped(s, c) && (op.RememberOp? || op.AttachOp?)
    ensures Step(s, op, c) == EnforceBudget(AtBudgetCheck(s, op, c), c)
  {
  }
}
