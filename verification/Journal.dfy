/** The missed-call journal: two levels of insertion-ordered maps and two running counters. */
module Journal {
  import opened Wrappers
  import opened OrderedMaps

  const PER_PEER := 20

  /** A caller's entry: time of the last attempt, attempts, and the signed receipt if one came. */
  datatype Entry = Entry(at: nat, attempts: nat, e: Option<string>)

  type Callers = JsMap<string, Entry>

  datatype Config = Config(ttl: nat, peersMax: nat, entriesMax: nat, receiptBytesMax: nat)

  datatype State = State(calls: JsMap<string, Callers>, entries: int, receiptBytes: int)

  const START := State(Empty(), 0, 0)

  function Length(entry: Entry): nat {
    if entry.e.Some? then |entry.e.value| else 0
  }

  /** The latest call to a target, from 0. */
  function Newest(keys: seq<string>, byCaller: map<string, Entry>): nat {
    if keys == [] then 0
    else
      var rest := Newest(keys[1..], byCaller);
      if keys[0] in byCaller && byCaller[keys[0]].at > rest then byCaller[keys[0]].at else rest
  }

  /* ---- true sums ---- */

  /** The sum of weights over keys. */
  function Total(keys: seq<string>, w: map<string, nat>): nat {
    if keys == [] then 0 else (if keys[0] in w then w[keys[0]] else 0) + Total(keys[1..], w)
  }

  function Lengths(byCaller: Callers): map<string, nat> {
    map f | f in byCaller.items :: Length(byCaller.items[f])
  }

  function Bytes(byCaller: Callers): nat {
    Total(byCaller.keys, Lengths(byCaller))
  }

  function Sizes(calls: JsMap<string, Callers>): map<string, nat> {
    map t | t in calls.items :: |calls.items[t].keys|
  }

  function AllBytes(calls: JsMap<string, Callers>): map<string, nat> {
    map t | t in calls.items :: Bytes(calls.items[t])
  }

  /** The true number of entries, and the true total of receipt lengths. */
  function Entries(calls: JsMap<string, Callers>): nat {
    Total(calls.keys, Sizes(calls))
  }

  function ReceiptBytes(calls: JsMap<string, Callers>): nat {
    Total(calls.keys, AllBytes(calls))
  }

  /* ---- the operations ---- */

  function DropCall(s: State, target: string, from: string): State {
    if !s.calls.Has(target) || !s.calls.items[target].Has(from) then s
    else
      var byCaller := s.calls.items[target];
      var left := byCaller.Delete(from);
      State(if left.keys == [] then s.calls.Delete(target) else s.calls.Set(target, left),
            s.entries - 1, s.receiptBytes - Length(byCaller.items[from]))
  }

  function DropTarget(s: State, target: string): State {
    if !s.calls.Has(target) then s
    else
      var byCaller := s.calls.items[target];
      State(s.calls.Delete(target), s.entries - |byCaller.keys|, s.receiptBytes - Bytes(byCaller))
  }

  predicate Expired(byCaller: Callers, now: nat, ttl: nat) {
    now - Newest(byCaller.keys, byCaller.items) > ttl
  }

  /** From the head, drop targets until the first that is not expired. */
  function Sweep(s: State, now: nat, ttl: nat): State
    decreases |s.calls.keys|
  {
    if s.calls.keys == [] || !s.calls.Has(s.calls.keys[0]) then s
    else if !Expired(s.calls.items[s.calls.keys[0]], now, ttl) then s
    else Sweep(DropTarget(s, s.calls.keys[0]), now, ttl)
  }

  /** Whether there was anything to evict, and the state without it. */
  function EvictOldest(s: State): (bool, State) {
    if s.calls.keys == [] || !s.calls.Has(s.calls.keys[0]) then (false, s)
    else
      var target := s.calls.keys[0];
      var callers := s.calls.items[target].keys;
      if callers == [] then (true, s.(calls := s.calls.Delete(target)))
      else if !s.calls.items[target].Has(callers[0]) then (false, s)
      else (true, DropCall(s, target, callers[0]))
  }

  function HeadSize(calls: JsMap<string, Callers>): nat {
    if calls.keys != [] && calls.Has(calls.keys[0]) then |calls.items[calls.keys[0]].keys| else 0
  }

  predicate OverBudget(s: State, c: Config) {
    s.entries > c.entriesMax || s.receiptBytes > c.receiptBytesMax
  }

  function EnforceBudget(s: State, c: Config): State
    decreases |s.calls.keys|, HeadSize(s.calls)
  {
    if !OverBudget(s, c) then s
    else
      var (found, s') := EvictOldest(s);
      if found then EnforceBudget(s', c) else s'
  }

  function TrimCallers(s: State, target: string): State
    decreases if s.calls.Has(target) then |s.calls.items[target].keys| else 0
  {
    if !s.calls.Has(target) || |s.calls.items[target].keys| <= PER_PEER then s
    else if !s.calls.items[target].Has(s.calls.items[target].keys[0]) then s
    else TrimCallers(DropCall(s, target, s.calls.items[target].keys[0]), target)
  }

  function TrimTargets(s: State, peersMax: nat): State
    decreases |s.calls.keys|
  {
    if |s.calls.keys| <= peersMax || !s.calls.Has(s.calls.keys[0]) then s
    else TrimTargets(DropTarget(s, s.calls.keys[0]), peersMax)
  }

  /** One more attempt of `from`: its entry becomes the newest of the target's callers. */
  function NotedCaller(byCaller: Callers, from: string, now: nat): Callers {
    if byCaller.Has(from) then
      var existing := byCaller.items[from];
      byCaller.Touch(from, existing.(at := now, attempts := existing.attempts + 1))
    else byCaller.Set(from, Entry(now, 1, None))
  }

  function CallersOf(s: State, target: string): Callers {
    if s.calls.Has(target) then s.calls.items[target] else Empty()
  }

  /** ... and the target becomes the newest of all. */
  function Noted(s: State, target: string, from: string, now: nat): State {
    var byCaller := CallersOf(s, target);
    State(s.calls.Touch(target, NotedCaller(byCaller, from, now)),
          s.entries + (if byCaller.Has(from) then 0 else 1), s.receiptBytes)
  }

  function Remember(s: State, target: string, from: string, now: nat, c: Config): State {
    var noted := Noted(Sweep(s, now, c.ttl), target, from, now);
    EnforceBudget(TrimTargets(TrimCallers(noted, target), c.peersMax), c)
  }

  /** The receipt in place of the entry's earlier one, if any. */
  function Receipted(s: State, target: string, from: string, e: string): State
    requires s.calls.Has(target) && s.calls.items[target].Has(from)
  {
    var byCaller := s.calls.items[target];
    var entry := byCaller.items[from];
    State(s.calls.Set(target, byCaller.Set(from, entry.(e := Some(e)))), s.entries,
        s.receiptBytes + |e| - Length(entry))
  }

  function Attach(s: State, target: string, from: string, e: string, c: Config): (bool, State) {
    if !s.calls.Has(target) || !s.calls.items[target].Has(from) then (false, s)
    else (true, EnforceBudget(Receipted(s, target, from, e), c))
  }

  /* ---- accounting: what every operation keeps ---- */

  ghost predicate Shaped(calls: JsMap<string, Callers>) {
    && calls.Valid()
    && (forall t :: t in calls.items ==> calls.items[t].Valid() && calls.items[t].keys != [])
  }

  /** The counters are the true sums, and no inner map is empty. */
  ghost predicate Accounted(s: State) {
    && Shaped(s.calls)
    && s.entries == Entries(s.calls)
    && s.receiptBytes == ReceiptBytes(s.calls)
  }

  ghost predicate Capped(s: State, c: Config) {
    && AllFit(s)
    && |s.calls.keys| <= c.peersMax
    && s.entries <= c.entriesMax
    && s.receiptBytes <= c.receiptBytesMax
  }

  lemma {:induction false} TotalSame(keys: seq<string>, w: map<string, nat>, v: map<string, nat>)
    requires forall k :: k in keys ==> (k in w <==> k in v) && (k in w ==> w[k] == v[k])
    ensures Total(keys, w) == Total(keys, v)
  {
    if keys != [] {
      TotalSame(keys[1..], w, v);
    }
  }

  lemma {:induction false} TotalAppend(keys: seq<string>, k: string, w: map<string, nat>)
    ensures Total(keys + [k], w) == Total(keys, w) + (if k in w then w[k] else 0)
  {
    if keys != [] {
      assert (keys + [k])[1..] == keys[1..] + [k];
      TotalAppend(keys[1..], k, w);
    }
  }

  /** Taking a key out takes its weight out. */
  lemma {:induction false} TotalWithout(keys: seq<string>, k: string, w: map<string, nat>)
    requires Distinct(keys) && k in keys
    ensures Total(Without(keys, k), w) == Total(keys, w) - (if k in w then w[k] else 0)
  {
    if keys[0] == k {
      WithoutAbsent(keys[1..], k);
    } else {
      TotalWithout(keys[1..], k, w);
    }
  }

  /** Sums over a Map after Delete and after Set, for any weight of its values. */
  lemma TotalDeleted(keys: seq<string>, k: string, w: map<string, nat>)
    requires Distinct(keys) && k in keys && k in w
    ensures Total(Without(keys, k), w - {k}) == Total(keys, w) - w[k]
  {
    TotalWithout(keys, k, w);
    TotalSame(Without(keys, k), w, w - {k});
  }

  lemma TotalSet(keys: seq<string>, k: string, w: map<string, nat>, x: nat)
    requires Distinct(keys) && (k in keys <==> k in w)
    ensures Total(if k in w then keys else keys + [k], w[k := x]) == Total(keys, w) - (if k in w then w[k] else 0) + x
  {
    if k in w {
      TotalWithout(keys, k, w);
      TotalWithout(keys, k, w[k := x]);
      TotalSame(Without(keys, k), w, w[k := x]);
    } else {
      TotalAppend(keys, k, w[k := x]);
      TotalSame(keys, w, w[k := x]);
    }
  }

  lemma ShapedSet(calls: JsMap<string, Callers>, target: string, byCaller: Callers)
    requires Shaped(calls) && byCaller.Valid() && byCaller.keys != []
    ensures Shaped(calls.Set(target, byCaller))
  {
    SetValid(calls, target, byCaller);
  }

  lemma ShapedDelete(calls: JsMap<string, Callers>, target: string)
    requires Shaped(calls)
    ensures Shaped(calls.Delete(target))
  {
    DeleteValid(calls, target);
  }

  function SizeAt(calls: JsMap<string, Callers>, target: string): nat {
    if calls.Has(target) then |calls.items[target].keys| else 0
  }

  function BytesAt(calls: JsMap<string, Callers>, target: string): nat {
    if calls.Has(target) then Bytes(calls.items[target]) else 0
  }

  lemma EntriesSet(calls: JsMap<string, Callers>, target: string, byCaller: Callers)
    requires calls.Valid()
    ensures Entries(calls.Set(target, byCaller)) == Entries(calls) - SizeAt(calls, target) + |byCaller.keys|
  {
    hide Bytes, Total;
    assert Sizes(calls.Set(target, byCaller)) == Sizes(calls)[target := |byCaller.keys|];
    TotalSet(calls.keys, target, Sizes(calls), |byCaller.keys|);
  }

  lemma ReceiptBytesSet(calls: JsMap<string, Callers>, target: string, byCaller: Callers)
    requires calls.Valid()
    ensures ReceiptBytes(calls.Set(target, byCaller)) == ReceiptBytes(calls) - BytesAt(calls, target) + Bytes(byCaller)
  {
    hide Bytes, Total;
    assert AllBytes(calls.Set(target, byCaller)) == AllBytes(calls)[target := Bytes(byCaller)];
    TotalSet(calls.keys, target, AllBytes(calls), Bytes(byCaller));
  }

  lemma EntriesDelete(calls: JsMap<string, Callers>, target: string)
    requires calls.Valid() && calls.Has(target)
    ensures Entries(calls.Delete(target)) == Entries(calls) - SizeAt(calls, target)
  {
    hide Bytes, Total;
    assert Sizes(calls.Delete(target)) == Sizes(calls) - {target};
    TotalDeleted(calls.keys, target, Sizes(calls));
  }

  lemma ReceiptBytesDelete(calls: JsMap<string, Callers>, target: string)
    requires calls.Valid() && calls.Has(target)
    ensures ReceiptBytes(calls.Delete(target)) == ReceiptBytes(calls) - BytesAt(calls, target)
  {
    hide Bytes, Total;
    assert AllBytes(calls.Delete(target)) == AllBytes(calls) - {target};
    TotalDeleted(calls.keys, target, AllBytes(calls));
  }

  /** Replacing or adding a target's callers moves both counters by the difference. */
  lemma PutAccounted(s: State, target: string, byCaller: Callers)
    requires Accounted(s) && byCaller.Valid() && byCaller.keys != []
    ensures Accounted(State(s.calls.Set(target, byCaller),
                            s.entries - SizeAt(s.calls, target) + |byCaller.keys|,
                            s.receiptBytes - BytesAt(s.calls, target) + Bytes(byCaller)))
  {
    hide Entries, ReceiptBytes;
    ShapedSet(s.calls, target, byCaller);
    EntriesSet(s.calls, target, byCaller);
    ReceiptBytesSet(s.calls, target, byCaller);
  }

  lemma DropTargetAccounted(s: State, target: string)
    requires Accounted(s)
    ensures Accounted(DropTarget(s, target))
  {
    hide Entries, ReceiptBytes;
    if s.calls.Has(target) {
      ShapedDelete(s.calls, target);
      EntriesDelete(s.calls, target);
      ReceiptBytesDelete(s.calls, target);
    }
  }

  lemma BytesDeleted(byCaller: Callers, from: string)
    requires byCaller.Valid() && byCaller.Has(from)
    ensures Bytes(byCaller.Delete(from)) == Bytes(byCaller) - Length(byCaller.items[from])
  {
    assert Lengths(byCaller.Delete(from)) == Lengths(byCaller) - {from};
    TotalDeleted(byCaller.keys, from, Lengths(byCaller));
  }

  lemma BytesSet(byCaller: Callers, from: string, entry: Entry)
    requires byCaller.Valid()
    ensures Bytes(byCaller.Set(from, entry))
         == Bytes(byCaller) - (if byCaller.Has(from) then Length(byCaller.items[from]) else 0) + Length(entry)
  {
    assert Lengths(byCaller.Set(from, entry)) == Lengths(byCaller)[from := Length(entry)];
    TotalSet(byCaller.keys, from, Lengths(byCaller), Length(entry));
  }

  lemma DropCallAccounted(s: State, target: string, from: string)
    requires Accounted(s)
    ensures Accounted(DropCall(s, target, from))
  {
    hide Entries, ReceiptBytes, Bytes;
    if s.calls.Has(target) && s.calls.items[target].Has(from) {
      var byCaller := s.calls.items[target];
      var left := byCaller.Delete(from);
      DeleteValid(byCaller, from);
      BytesDeleted(byCaller, from);
      if left.keys == [] {
        EmptyBytes(left);
        DropTargetAccounted(s, target);
      } else {
        PutAccounted(s, target, left);
      }
    }
  }

  lemma EmptyBytes(byCaller: Callers)
    requires byCaller.keys == []
    ensures Bytes(byCaller) == 0
  {
  }

  lemma {:induction false} SweepAccounted(s: State, now: nat, ttl: nat)
    requires Accounted(s)
    ensures Accounted(Sweep(s, now, ttl))
    decreases |s.calls.keys|
  {
    if s.calls.keys != [] && s.calls.Has(s.calls.keys[0]) && Expired(s.calls.items[s.calls.keys[0]], now, ttl) {
      DropTargetAccounted(s, s.calls.keys[0]);
      SweepAccounted(DropTarget(s, s.calls.keys[0]), now, ttl);
    }
  }

  /** Every eviction takes a whole entry; only an empty journal has nothing to evict. */
  lemma EvictAccounted(s: State)
    requires Accounted(s)
    ensures Accounted(EvictOldest(s).1)
    ensures EvictOldest(s).0 <==> s.calls.keys != []
    ensures !EvictOldest(s).0 ==> s.entries == 0 && s.receiptBytes == 0 && EvictOldest(s).1 == s
  {
    if s.calls.keys != [] {
      var target := s.calls.keys[0];
      assert s.calls.Has(target);
      var byCaller := s.calls.items[target];
      assert byCaller.Valid() && byCaller.keys != [] && byCaller.keys[0] in byCaller.keys;
      DropCallAccounted(s, target, byCaller.keys[0]);
    }
  }

  /** Nothing left means nothing counted, so the loop's early exit is within budget too. */
  lemma {:induction false} BudgetHolds(s: State, c: Config)
    requires Accounted(s)
    ensures Accounted(EnforceBudget(s, c)) && !OverBudget(EnforceBudget(s, c), c)
    decreases |s.calls.keys|, HeadSize(s.calls)
  {
    hide Accounted, Entries, ReceiptBytes;
    EvictAccounted(s);
    if OverBudget(s, c) && EvictOldest(s).0 {
      BudgetHolds(EvictOldest(s).1, c);
    }
  }

  /** Every target but one is within the per-target cap. */
  ghost predicate OthersFit(s: State, target: string) {
    forall t :: t in s.calls.items && t != target ==> |s.calls.items[t].keys| <= PER_PEER
  }

  ghost predicate AllFit(s: State) {
    forall t :: t in s.calls.items ==> |s.calls.items[t].keys| <= PER_PEER
  }

  lemma NotedAccounted(s: State, target: string, from: string, now: nat)
    requires Accounted(s)
    ensures Accounted(Noted(s, target, from, now))
    ensures AllFit(s) ==> OthersFit(Noted(s, target, from, now), target)
  {
    hide Entries, ReceiptBytes, Bytes;
    var byCaller := CallersOf(s, target);
    CallerNoted(byCaller, from, now);
    EmptyBytes(Empty());
    MovedAccounted(s, target, NotedCaller(byCaller, from, now));
  }

  /** One entry more, or the same entries; no byte changes. */
  lemma CallerNoted(byCaller: Callers, from: string, now: nat)
    requires byCaller.Valid()
    ensures var noted := NotedCaller(byCaller, from, now);
      && noted.Valid()
      && |noted.keys| == |byCaller.keys| + (if byCaller.Has(from) then 0 else 1)
      && Bytes(noted) == Bytes(byCaller)
  {
    hide Bytes, JsMap.Touch;
    if byCaller.Has(from) {
      var existing := byCaller.items[from];
      CallerTouched(byCaller, from, existing.(at := now, attempts := existing.attempts + 1));
    } else {
      SetValid(byCaller, from, Entry(now, 1, None));
      BytesSet(byCaller, from, Entry(now, 1, None));
    }
  }

  lemma CallerTouched(byCaller: Callers, from: string, entry: Entry)
    requires byCaller.Valid() && byCaller.Has(from)
    ensures var noted := byCaller.Touch(from, entry);
      && noted.Valid() && |noted.keys| == |byCaller.keys|
      && Bytes(noted) == Bytes(byCaller) - Length(byCaller.items[from]) + Length(entry)
  {
    hide Bytes;
    DeleteValid(byCaller, from);
    BytesDeleted(byCaller, from);
    var left := byCaller.Delete(from);
    assert !left.Has(from);
    SetValid(left, from, entry);
    BytesSet(left, from, entry);
  }

  /** Putting a target's callers at the end of the outer map. */
  lemma MovedAccounted(s: State, target: string, byCaller: Callers)
    requires Accounted(s) && byCaller.Valid() && byCaller.keys != []
    ensures Accounted(State(s.calls.Touch(target, byCaller),
                            s.entries - SizeAt(s.calls, target) + |byCaller.keys|,
                            s.receiptBytes - BytesAt(s.calls, target) + Bytes(byCaller)))
  {
    hide Entries, ReceiptBytes, Bytes;
    var without := DropTarget(s, target);
    DropTargetAccounted(s, target);
    DeleteValid(s.calls, target);
    PutAccounted(without, target, byCaller);
  }

  lemma DropFirstCaller(s: State, target: string)
    requires Accounted(s) && OthersFit(s, target) && SizeAt(s.calls, target) > PER_PEER
    ensures s.calls.items[target].Has(s.calls.items[target].keys[0])
    ensures var s' := DropCall(s, target, s.calls.items[target].keys[0]);
      Accounted(s') && OthersFit(s', target) && SizeAt(s'.calls, target) < SizeAt(s.calls, target)
  {
    hide Entries, ReceiptBytes;
    var byCaller := s.calls.items[target];
    assert byCaller.keys[0] in byCaller.keys;
    DropCallAccounted(s, target, byCaller.keys[0]);
  }

  lemma {:induction false} TrimCallersKeeps(s: State, target: string)
    requires Accounted(s) && OthersFit(s, target)
    ensures Accounted(TrimCallers(s, target)) && AllFit(TrimCallers(s, target))
    decreases SizeAt(s.calls, target)
  {
    hide Accounted;
    if SizeAt(s.calls, target) > PER_PEER {
      hide OthersFit, AllFit, DropCall;
      DropFirstCaller(s, target);
      TrimCallersKeeps(DropCall(s, target, s.calls.items[target].keys[0]), target);
    }
  }

  /** `b` holds some of `a`'s targets, each with some of its callers. */
  ghost predicate Fewer(a: State, b: State) {
    && |b.calls.keys| <= |a.calls.keys|
    && forall t :: t in b.calls.items ==> t in a.calls.items && |b.calls.items[t].keys| <= |a.calls.items[t].keys|
  }

  lemma {:induction false} TrimTargetsKeeps(s: State, peersMax: nat)
    requires Accounted(s)
    ensures Accounted(TrimTargets(s, peersMax)) && Fewer(s, TrimTargets(s, peersMax))
    ensures |TrimTargets(s, peersMax).calls.keys| <= peersMax
    decreases |s.calls.keys|
  {
    if |s.calls.keys| > peersMax {
      assert s.calls.keys[0] in s.calls.keys;
      DropTargetAccounted(s, s.calls.keys[0]);
      TrimTargetsKeeps(DropTarget(s, s.calls.keys[0]), peersMax);
    }
  }

  lemma EvictFewer(s: State)
    ensures Fewer(s, EvictOldest(s).1)
  {
  }

  lemma {:induction false} BudgetFewer(s: State, c: Config)
    ensures Fewer(s, EnforceBudget(s, c))
    decreases |s.calls.keys|, HeadSize(s.calls)
  {
    EvictFewer(s);
    if OverBudget(s, c) && EvictOldest(s).0 {
      BudgetFewer(EvictOldest(s).1, c);
    }
  }

  lemma {:induction false} SweepFewer(s: State, now: nat, ttl: nat)
    ensures Fewer(s, Sweep(s, now, ttl))
    decreases |s.calls.keys|
  {
    if s.calls.keys != [] && s.calls.Has(s.calls.keys[0]) && Expired(s.calls.items[s.calls.keys[0]], now, ttl) {
      SweepFewer(DropTarget(s, s.calls.keys[0]), now, ttl);
    }
  }

  lemma RememberKeeps(s: State, target: string, from: string, now: nat, c: Config)
    requires Accounted(s) && Capped(s, c)
    ensures Accounted(Remember(s, target, from, now, c)) && Capped(Remember(s, target, from, now, c), c)
  {
    hide Accounted;
    SweepAccounted(s, now, c.ttl);
    SweepFewer(s, now, c.ttl);
    var swept := Sweep(s, now, c.ttl);
    NotedAccounted(swept, target, from, now);
    var noted := Noted(swept, target, from, now);
    TrimCallersKeeps(noted, target);
    TrimTargetsKeeps(TrimCallers(noted, target), c.peersMax);
    var trimmed := TrimTargets(TrimCallers(noted, target), c.peersMax);
    BudgetHolds(trimmed, c);
    BudgetFewer(trimmed, c);
  }

  /** Attach before its budget check. */
  lemma ReceiptPut(s: State, target: string, from: string, e: string)
    requires Accounted(s) && s.calls.Has(target) && s.calls.items[target].Has(from)
    ensures Accounted(Receipted(s, target, from, e)) && Fewer(s, Receipted(s, target, from, e))
  {
    hide Entries, ReceiptBytes, Bytes;
    var byCaller := s.calls.items[target];
    var entry := byCaller.items[from].(e := Some(e));
    BytesSet(byCaller, from, entry);
    SetValid(byCaller, from, entry);
    PutAccounted(s, target, byCaller.Set(from, entry));
  }

  lemma AttachKeeps(s: State, target: string, from: string, e: string, c: Config)
    requires Accounted(s) && Capped(s, c)
    ensures Accounted(Attach(s, target, from, e, c).1) && Capped(Attach(s, target, from, e, c).1, c)
  {
    hide Accounted, Receipted;
    if s.calls.Has(target) && s.calls.items[target].Has(from) {
      ReceiptPut(s, target, from, e);
      BudgetHolds(Receipted(s, target, from, e), c);
      BudgetFewer(Receipted(s, target, from, e), c);
      ReceiptTargets(s, target, from, e);
    }
  }

  lemma ReceiptTargets(s: State, target: string, from: string, e: string)
    requires s.calls.Has(target) && s.calls.items[target].Has(from)
    ensures Receipted(s, target, from, e).entries == s.entries
  {
  }

  /* ---- runs ---- */

  datatype Op =
    | RememberOp(target: string, from: string, now: nat)
    | AttachOp(target: string, from: string, e: string)
    | ForgetOp(target: string, from: string)
    | DeliveredOp(target: string)  // dropMissedTarget, when a delivery is acknowledged

  function Step(s: State, op: Op, c: Config): State {
    match op
    case RememberOp(target, from, now) => Remember(s, target, from, now, c)
    case AttachOp(target, from, e) => Attach(s, target, from, e, c).1
    case ForgetOp(target, from) => DropCall(s, target, from)
    case DeliveredOp(target) => DropTarget(s, target)
  }

  /** The state after a run; the last operation last, so that runs grow at the end. */
  function Run(ops: seq<Op>, c: Config): State {
    if ops == [] then START else Step(Run(ops[..|ops| - 1], c), ops[|ops| - 1], c)
  }

  lemma DropKeeps(s: State, op: Op, c: Config)
    requires Accounted(s) && Capped(s, c) && (op.ForgetOp? || op.DeliveredOp?)
    ensures Accounted(Step(s, op, c)) && Capped(Step(s, op, c), c)
  {
    hide Entries, ReceiptBytes, Bytes;
    if op.ForgetOp? {
      DropCallAccounted(s, op.target, op.from);
    } else {
      DropTargetAccounted(s, op.target);
    }
    var s' := Step(s, op, c);
    DropsCount(s, op, c);
    assert Fewer(s, s');
  }

  /** Dropping never raises a counter. */
  lemma DropsCount(s: State, op: Op, c: Config)
    requires Accounted(s) && (op.ForgetOp? || op.DeliveredOp?)
    ensures Step(s, op, c).entries <= s.entries && Step(s, op, c).receiptBytes <= s.receiptBytes
  {
  }

  /**
   * After every operation of every run the two counters are the true number of entries and the
   * true total of receipt lengths, no inner map is empty, and all four caps hold.
   */
  lemma {:induction false} AccountsAndCaps(ops: seq<Op>, c: Config)
    ensures Accounted(Run(ops, c)) && Capped(Run(ops, c), c)
  {
    if ops != [] {
      hide Accounted, Capped;
      var n := |ops| - 1;
      AccountsAndCaps(ops[..n], c);
      var s := Run(ops[..n], c);
      match ops[n]
      case RememberOp(target, from, now) => RememberKeeps(s, target, from, now, c);
      case AttachOp(target, from, e) => AttachKeeps(s, target, from, e, c);
      case ForgetOp(_, _) => DropKeeps(s, ops[n], c);
      case DeliveredOp(_) => DropKeeps(s, ops[n], c);
    }
  }
}
