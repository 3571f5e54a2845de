/**
 * What the operations of the missed-call journal do to its entries, one by one: what a read answers,
 * where a receipt lands, what a forgotten call takes with it, and which entries the caps cost.
 */
module JournalEffects {
  import opened Wrappers
  import opened OrderedMaps
  import opened Journal
  import opened JournalOrder

  /* ---- reading ---- */

  /**
   * The answer to a read: each caller once, exactly the target's calls within their lifetime as the
   * journal has them, oldest first.
   */
  ghost predicate Reads(s: State, peer: string, now: nat, ttl: nat, calls: seq<Missed>) {
    && (forall i, j :: 0 <= i < j < |calls| ==> calls[i].from != calls[j].from && calls[i].at <= calls[j].at)
    && (forall m :: m in calls <==>
          && HasEntry(s, peer, m.from)
          && now - s.calls.items[peer].items[m.from].at <= ttl
          && m == MissedOf(s.calls.items[peer].items[m.from], m.from))
  }

  function MissedOf(entry: Entry, from: string): Missed {
    Missed(from, entry.at, entry.attempts, entry.e)
  }

  ghost predicate OncePerCaller(calls: seq<Missed>) {
    forall i, j :: 0 <= i < j < |calls| ==> calls[i].from != calls[j].from
  }

  ghost predicate OldestFirst(calls: seq<Missed>) {
    forall i, j :: 0 <= i < j < |calls| ==> calls[i].at <= calls[j].at
  }

  lemma {:induction false} CollectedMeans(keys: seq<string>, items: map<string, Entry>, now: nat, ttl: nat)
    requires Distinct(keys)
    ensures var calls := Collected(keys, items, now, ttl);
      && OncePerCaller(calls)
      && (forall m :: m in calls <==>
            m.from in keys && m.from in items && now - items[m.from].at <= ttl && m == MissedOf(items[m.from], m.from))
  {
    if keys != [] {
      CollectedMeans(keys[1..], items, now, ttl);
      var rest := Collected(keys[1..], items, now, ttl);
      assert keys[0] !in keys[1..];
      forall i | 0 <= i < |rest| ensures rest[i].from != keys[0] {
        assert rest[i] in rest;
      }
    }
  }

  lemma {:induction false} InsertMeans(m: Missed, sorted: seq<Missed>)
    requires OldestFirst(sorted) && OncePerCaller(sorted)
    requires forall x :: x in sorted ==> x.from != m.from
    ensures OldestFirst(Insert(m, sorted)) && OncePerCaller(Insert(m, sorted))
    ensures forall x :: x in Insert(m, sorted) <==> x == m || x in sorted
  {
    if sorted == [] || m.at <= sorted[0].at {
      assert forall i :: 0 <= i < |sorted| ==> sorted[i] in sorted;
    } else {
      InsertMeans(m, sorted[1..]);
      var rest := Insert(m, sorted[1..]);
      assert forall x :: x in sorted <==> x == sorted[0] || x in sorted[1..];
      forall i | 0 <= i < |rest| ensures rest[i].from != sorted[0].from && sorted[0].at <= rest[i].at {
        assert rest[i] in rest;
      }
    }
  }

  lemma {:induction false} SortMeans(calls: seq<Missed>)
    requires OncePerCaller(calls)
    ensures OldestFirst(SortByAt(calls)) && OncePerCaller(SortByAt(calls))
    ensures forall x :: x in SortByAt(calls) <==> x in calls
  {
    if calls != [] {
      SortMeans(calls[1..]);
      forall x | x in SortByAt(calls[1..]) ensures x.from != calls[0].from {
        var i :| 0 <= i < |calls[1..]| && calls[1..][i] == x;
        assert calls[i + 1] == x;
      }
      hide Insert;
      InsertMeans(calls[0], SortByAt(calls[1..]));
      assert forall x :: x in calls <==> x == calls[0] || x in calls[1..];
    }
  }

  /** What readMissedCalls answers, from any journal whose accounts hold. */
  lemma ReadMeans(s: State, peer: string, now: nat, ttl: nat)
    requires Accounted(s)
    ensures var byCaller := CallersOf(s, peer);
      Reads(s, peer, now, ttl, SortByAt(Collected(byCaller.keys, byCaller.items, now, ttl)))
  {
    hide Entries, ReceiptBytes;
    var byCaller := CallersOf(s, peer);
    CollectedMeans(byCaller.keys, byCaller.items, now, ttl);
    SortMeans(Collected(byCaller.keys, byCaller.items, now, ttl));
    assert forall f :: f in byCaller.keys <==> HasEntry(s, peer, f);
  }

  /* ---- forgetting ---- */

  /** A forgotten call is gone, alone; forgetting one that is not there changes nothing. */
  lemma ForgetForgets(s: State, target: string, from: string)
    requires Accounted(s)
    ensures HasEntry(s, target, from) ==> LacksOnly(s, DropCall(s, target, from), target, from)
    ensures !HasEntry(s, target, from) ==> DropCall(s, target, from) == s
  {
    hide Entries, ReceiptBytes, LacksOnly;
    if HasEntry(s, target, from) {
      DropsOne(s, target, from);
    }
  }

  /* ---- the caps ---- */

  /** `b` holds `a`'s targets in the same order, and the same callers for every target but one. */
  ghost predicate SameElsewhere(a: JsMap<string, Callers>, b: JsMap<string, Callers>, target: string) {
    && b.keys == a.keys
    && (forall t :: t != target ==> (b.Has(t) <==> a.Has(t)) && (a.Has(t) ==> b.items[t] == a.items[t]))
  }

  /** `b` holds the last `n` callers of `a`, in the same order, with their entries. */
  ghost predicate LastOf(a: Callers, b: Callers, n: nat) {
    && n <= |a.keys| && b.keys == a.keys[|a.keys| - n..]
    && (forall f :: f in b.keys ==> a.Has(f) && b.Has(f) && b.items[f] == a.items[f])
  }

  lemma DropFirstOf(s: State, target: string)
    requires Accounted(s) && SizeAt(s.calls, target) >= 2
    ensures var first := s.calls.items[target].keys[0];
      var s1 := DropCall(s, target, first);
      && s.calls.items[target].Has(first)
      && SameElsewhere(s.calls, s1.calls, target)
      && s1.calls.Has(target) && LastOf(s.calls.items[target], s1.calls.items[target], |s.calls.items[target].keys| - 1)
  {
    hide Entries, ReceiptBytes;
    var byCaller := s.calls.items[target];
    assert byCaller.keys[0] in byCaller.keys;
    DeleteFirst(byCaller);
  }

  lemma LastOfLast(a: Callers, b: Callers, c: Callers, n: nat)
    requires |a.keys| >= 1 && LastOf(a, b, |a.keys| - 1) && n <= |b.keys| && LastOf(b, c, n)
    ensures LastOf(a, c, n)
  {
    assert forall f :: f in c.keys ==> f in b.keys;
  }

  /** The cap per target costs it its oldest callers: the last 20 stay, and no other target is touched. */
  lemma {:induction false} TrimCallersExactly(s: State, target: string)
    requires Accounted(s) && s.calls.Has(target)
    ensures var s' := TrimCallers(s, target);
      && SameElsewhere(s.calls, s'.calls, target) && s'.calls.Has(target)
      && LastOf(s.calls.items[target], s'.calls.items[target],
                if SizeAt(s.calls, target) < PER_PEER then SizeAt(s.calls, target) else PER_PEER)
    decreases SizeAt(s.calls, target)
  {
    hide Accounted;
    if SizeAt(s.calls, target) > PER_PEER {
      hide SameElsewhere, LastOf, DropCall;
      var first := s.calls.items[target].keys[0];
      DropFirstOf(s, target);
      DropCallAccounted(s, target, first);
      var s1 := DropCall(s, target, first);
      LastOfSize(s.calls.items[target], s1.calls.items[target], |s.calls.items[target].keys| - 1);
      TrimCallersExactly(s1, target);
      LastOfLast(s.calls.items[target], s1.calls.items[target], TrimCallers(s, target).calls.items[target], PER_PEER);
      ElsewhereTransitive(s.calls, s1.calls, TrimCallers(s, target).calls, target);
    } else {
      AllOf(s, target);
    }
  }

  lemma AllOf(s: State, target: string)
    requires Accounted(s) && s.calls.Has(target)
    ensures LastOf(s.calls.items[target], s.calls.items[target], SizeAt(s.calls, target))
  {
  }

  lemma LastOfSize(a: Callers, b: Callers, n: nat)
    requires LastOf(a, b, n)
    ensures |b.keys| == n
  {
  }

  lemma ElsewhereTransitive(a: JsMap<string, Callers>, b: JsMap<string, Callers>, c: JsMap<string, Callers>, t: string)
    requires SameElsewhere(a, b, t) && SameElsewhere(b, c, t)
    ensures SameElsewhere(a, c, t)
  {
  }

  /** `b` is the map `a` without its first `n` targets, the others as they were. */
  ghost predicate WithoutFirst(a: JsMap<string, Callers>, b: JsMap<string, Callers>, n: nat) {
    n <= |a.keys| && b.keys == a.keys[n..] && b.Valid() && Within(b, a)
  }

  lemma WithoutOneMore(a: JsMap<string, Callers>, b: JsMap<string, Callers>, c: JsMap<string, Callers>, n: nat)
    requires a.keys != [] && b.keys == a.keys[1..] && Within(b, a) && WithoutFirst(b, c, n)
    ensures WithoutFirst(a, c, n + 1)
  {
    hide Within, JsMap.Valid;
    WithinTransitive(c, b, a);
  }

  /** The cap on targets costs those remembered longest ago: the last ones stay, each as it was. */
  lemma {:induction false} TrimTargetsExactly(s: State, peersMax: nat)
    requires Accounted(s)
    ensures WithoutFirst(s.calls, TrimTargets(s, peersMax).calls,
                         if |s.calls.keys| <= peersMax then 0 else |s.calls.keys| - peersMax)
    decreases |s.calls.keys|
  {
    hide *;
    ShapeOf(s);
    TrimRound(s, peersMax);
    if |s.calls.keys| > peersMax {
      var s1 := DropTarget(s, s.calls.keys[0]);
      OneTargetLess(s);
      TrimTargetsExactly(s1, peersMax);
      WithoutOneMore(s.calls, s1.calls, TrimTargets(s1, peersMax).calls, |s.calls.keys| - peersMax - 1);
    }
  }

  lemma OneTargetLess(s: State)
    requires Accounted(s) && s.calls.keys != []
    ensures var s1 := DropTarget(s, s.calls.keys[0]);
      Accounted(s1) && s1.calls.keys == s.calls.keys[1..] && Within(s1.calls, s.calls)
  {
    ShapeOf(s);
    hide Accounted, Shaped, Within, DropTarget;
    FirstDropped(s);
    DropTargetAccounted(s, s.calls.keys[0]);
  }

  lemma TrimRound(s: State, peersMax: nat)
    requires s.calls.keys != [] ==> s.calls.Has(s.calls.keys[0])
    ensures TrimTargets(s, peersMax)
         == if |s.calls.keys| <= peersMax then s else TrimTargets(DropTarget(s, s.calls.keys[0]), peersMax)
  {
    hide DropTarget;
  }

  lemma ShapeOf(s: State)
    requires Accounted(s)
    ensures Shaped(s.calls) && WithoutFirst(s.calls, s.calls, 0)
    ensures s.calls.keys != [] ==> s.calls.Has(s.calls.keys[0])
  {
    assert s.calls.keys != [] ==> s.calls.keys[0] in s.calls.keys;
  }

  /* ---- remembering ---- */

  /**
   * Noting a call touches no other entry, and moves the target and the caller to the end of their maps.
   */
  lemma NotedExactly(s: State, target: string, from: string, now: nat)
    requires Accounted(s)
    ensures var s' := Noted(s, target, from, now);
      && s'.calls.keys == Without(s.calls.keys, target) + [target]
      && s'.calls.items[target].keys == Without(CallersOf(s, target).keys, from) + [from]
      && s'.calls.items[target].items[from] == After(s, target, from, now)
      && (forall t, f :: t != target || f != from ==>
            && (HasEntry(s', t, f) <==> HasEntry(s, t, f))
            && (HasEntry(s, t, f) ==> s'.calls.items[t].items[f] == s.calls.items[t].items[f]))
  {
    hide NotedCaller, After, JsMap.Touch, Without, Accounted;
    CallersValid(s, target);
    CallerNotedExactly(s, target, from, now);
    var byCaller := NotedCaller(CallersOf(s, target), from, now);
    TouchValid(s.calls, target, byCaller);
    assert Noted(s, target, from, now).calls == s.calls.Touch(target, byCaller);
    hide Noted, JsMap.Valid;
    forall t, f | t != target || f != from
      ensures HasEntry(Noted(s, target, from, now), t, f) <==> HasEntry(s, t, f)
      ensures HasEntry(s, t, f)
        ==> Noted(s, target, from, now).calls.items[t].items[f] == s.calls.items[t].items[f]
    {
    }
  }

  lemma CallersValid(s: State, target: string)
    requires Accounted(s)
    ensures s.calls.Valid() && CallersOf(s, target).Valid()
  {
  }

  lemma CallerNotedExactly(s: State, target: string, from: string, now: nat)
    requires CallersOf(s, target).Valid()
    ensures var byCaller := CallersOf(s, target);
      NotedCaller(byCaller, from, now)
        == JsMap(Without(byCaller.keys, from) + [from], byCaller.items[from := After(s, target, from, now)])
  {
    var byCaller := CallersOf(s, target);
    if byCaller.Has(from) {
      TouchValid(byCaller, from, After(s, target, from, now));
    } else {
      WithoutAbsent(byCaller.keys, from);
    }
  }

  /* ---- receipts ---- */

  /**
   * A receipt lands on the entry it is for, replacing an earlier one, and changes nothing else; what
   * the budget evicts then is what it evicts from that state. There is no receipt without an entry.
   */
  lemma ReceiptLands(s: State, target: string, from: string, e: string, c: Config)
    requires Accounted(s)
    ensures var (done, s') := Attach(s, target, from, e, c);
      && (done <==> HasEntry(s, target, from))
      && (!done ==> s' == s)
      && (done ==>
            var put := Receipted(s, target, from, e);
            && s' == EnforceBudget(put, c)
            && put.calls.keys == s.calls.keys
            && (forall t :: put.calls.Has(t) <==> s.calls.Has(t))
            && (forall t :: s.calls.Has(t) ==> put.calls.items[t].keys == s.calls.items[t].keys)
            && (forall t, f :: HasEntry(put, t, f) <==> HasEntry(s, t, f))
            && (forall t, f :: HasEntry(s, t, f) && (t != target || f != from)
                  ==> put.calls.items[t].items[f] == s.calls.items[t].items[f])
            && put.calls.items[target].items[from].e == Some(e)
            && put.calls.items[target].items[from].at == s.calls.items[target].items[from].at
            && put.calls.items[target].items[from].attempts == s.calls.items[target].items[from].attempts)
  {
    hide EnforceBudget, Entries, ReceiptBytes;
  }

  /** An acknowledged delivery takes the target's calls out, and no others. */
  lemma DeliveredDrops(s: State, target: string)
    requires Accounted(s)
    ensures var left := DropTarget(s, target).calls;
      && left.keys == Without(s.calls.keys, target) && !left.Has(target)
      && (forall t :: t != target ==>
            (left.Has(t) <==> s.calls.Has(t)) && (left.Has(t) ==> left.items[t] == s.calls.items[t]))
  {
    if !s.calls.Has(target) {
      WithoutAbsent(s.calls.keys, target);
    }
  }
}
