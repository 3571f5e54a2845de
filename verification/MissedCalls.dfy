/** The missed-call journal as the signaling server keeps it: one nested Map and two counters. */
module MissedCalls {
  import opened Wrappers
  import opened OrderedMaps
  import opened Journal
  import JournalEffects
  import JournalOrder

  class MissedCallJournal {
    const config: Config
    var missedCalls: JsMap<string, Callers>
    var missedCallEntries: int
    var missedCallReceiptBytes: int

    function Now(): State
      reads this
    {
      State(missedCalls, missedCallEntries, missedCallReceiptBytes)
    }

    ghost predicate Valid()
      reads this
    {
      Accounted(Now()) && Capped(Now(), config)
    }

    constructor (config: Config)
      ensures Now() == START && this.config == config && Valid()
    {
      this.config := config;
      missedCalls, missedCallEntries, missedCallReceiptBytes := Empty(), 0, 0;
      new;
      AccountsAndCaps([], config);
    }

    method DropMissedCall(target: string, from: string)
      modifies this
      ensures Now() == DropCall(old(Now()), target, from)
    {
      if missedCalls.Has(target) && missedCalls.items[target].Has(from) {
        var byCaller := missedCalls.items[target];
        var entry := byCaller.items[from];
        byCaller := byCaller.Delete(from);
        missedCallEntries := missedCallEntries - 1;
        if entry.e.Some? {
          missedCallReceiptBytes := missedCallReceiptBytes - |entry.e.value|;
        }
        missedCalls := if byCaller.keys == [] then missedCalls.Delete(target) else missedCalls.Set(target, byCaller);
      }
    }

    /** Walks over the target's entries, taking each out of the counters. */
    method DropMissedTarget(target: string)
      requires missedCalls.Has(target) ==> missedCalls.items[target].Valid()
      modifies this
      ensures Now() == DropTarget(old(Now()), target)
    {
      if missedCalls.Has(target) {
        var byCaller := missedCalls.items[target];
        var i := 0;
        while i < |byCaller.keys|
          invariant 0 <= i <= |byCaller.keys|
          invariant missedCalls == old(missedCalls)
          invariant missedCallEntries == old(missedCallEntries) - i
          invariant missedCallReceiptBytes - Total(byCaller.keys[i..], Lengths(byCaller))
                 == old(missedCallReceiptBytes) - Bytes(byCaller)
        {
          assert byCaller.keys[i] in byCaller.keys && byCaller.keys[i..][1..] == byCaller.keys[i + 1..];
          var entry := byCaller.items[byCaller.keys[i]];
          missedCallEntries := missedCallEntries - 1;
          if entry.e.Some? {
            missedCallReceiptBytes := missedCallReceiptBytes - |entry.e.value|;
          }
          i := i + 1;
        }
        missedCalls := missedCalls.Delete(target);
      }
    }

    method NewestOf(byCaller: Callers) returns (newest: nat)
      ensures newest == Newest(byCaller.keys, byCaller.items)
    {
      newest := 0;
      var i := |byCaller.keys|;
      while i > 0
        invariant 0 <= i <= |byCaller.keys|
        invariant newest == Newest(byCaller.keys[i..], byCaller.items)
      {
        i := i - 1;
        assert byCaller.keys[i..][1..] == byCaller.keys[i + 1..];
        var k := byCaller.keys[i];
        if byCaller.Has(k) && byCaller.items[k].at > newest {
          newest := byCaller.items[k].at;
        }
      }
    }

    method SweepMissedCalls(now: nat)
      requires Accounted(Now())
      modifies this
      ensures Now() == Sweep(old(Now()), now, config.ttl) && Accounted(Now())
    {
      while missedCalls.keys != []
        invariant Accounted(Now())
        invariant Sweep(Now(), now, config.ttl) == Sweep(old(Now()), now, config.ttl)
        decreases |missedCalls.keys|
      {
        var target := missedCalls.keys[0];
        assert missedCalls.Has(target);
        var newest := NewestOf(missedCalls.items[target]);
        if now - newest <= config.ttl {
          break;
        }
        DropTargetAccounted(Now(), target);
        DropMissedTarget(target);
      }
    }

    method EvictOldestMissedCall() returns (found: bool)
      modifies this
      ensures (found, Now()) == EvictOldest(old(Now()))
    {
      if missedCalls.keys == [] || !missedCalls.Has(missedCalls.keys[0]) {
        return false;
      }
      var target := missedCalls.keys[0];
      var byCaller := missedCalls.items[target];
      if byCaller.keys == [] {
        missedCalls := missedCalls.Delete(target);
        return true;
      }
      if !byCaller.Has(byCaller.keys[0]) {
        return false;
      }
      DropMissedCall(target, byCaller.keys[0]);
      return true;
    }

    /** The loop ends: every round evicts an entry, or finds none left. */
    method EnforceMissedCallBudget()
      requires Accounted(Now())
      modifies this
      ensures Now() == EnforceBudget(old(Now()), config)
      ensures Accounted(Now()) && missedCallEntries <= config.entriesMax &&
          missedCallReceiptBytes <= config.receiptBytesMax
    {
      BudgetHolds(Now(), config);
      hide Accounted, EvictOldest, EnforceBudget;
      while missedCallEntries > config.entriesMax || missedCallReceiptBytes > config.receiptBytesMax
        invariant EnforceBudget(Now(), config) == EnforceBudget(old(Now()), config)
        decreases |missedCalls.keys|, HeadSize(missedCalls)
      {
        BudgetRound(Now(), config);
        var found := EvictOldestMissedCall();
        if !found {
          break;
        }
      }
      BudgetMet(Now(), config);
    }

    static lemma BudgetRound(s: State, c: Config)
      requires OverBudget(s, c)
      ensures var (found, s') := EvictOldest(s);
        if found then
          && EnforceBudget(s, c) == EnforceBudget(s', c)
          && (|s'.calls.keys| < |s.calls.keys| ||
              (|s'.calls.keys| == |s.calls.keys| && HeadSize(s'.calls) < HeadSize(s.calls)))
        else EnforceBudget(s, c) == s'
    {
    }

    static lemma BudgetMet(s: State, c: Config)
      requires !OverBudget(s, c)
      ensures EnforceBudget(s, c) == s
    {
    }

    method RememberMissedCall(target: string, from: string, now: nat)
      requires Valid()
      modifies this
      ensures Valid() && Now() == Remember(old(Now()), target, from, now, config)
    {
      RememberKeeps(Now(), target, from, now, config);
      hide Accounted, Capped, Sweep, TrimTargets, TrimCallers, EnforceBudget;
      SweepMissedCalls(now);
      NotedAccounted(Now(), target, from, now);
      hide Noted;
      NoteCall(target, from, now);
      TrimToCaps(target);
      EnforceMissedCallBudget();
    }

    /** rememberMissedCall's own writes, between the sweep and the evictions. */
    method NoteCall(target: string, from: string, now: nat)
      modifies this
      ensures Now() == Noted(old(Now()), target, from, now)
    {
      hide JsMap.Touch, JsMap.Set, NotedCaller;
      var byCaller := CallersOf(Now(), target);
      TouchThenSet(missedCalls, target, byCaller, NotedCaller(byCaller, from, now));
      missedCalls := missedCalls.Touch(target, byCaller);
      if !byCaller.Has(from) {
        missedCallEntries := missedCallEntries + 1;
      }
      byCaller := NoteEntry(byCaller, from, now);
      missedCalls := missedCalls.Set(target, byCaller);
    }

    /** One more attempt: the caller's entry is updated and moved to the end, or added there. */
    method NoteEntry(byCaller: Callers, from: string, now: nat) returns (noted: Callers)
      ensures noted == NotedCaller(byCaller, from, now)
    {
      if byCaller.Has(from) {
        var existing := byCaller.items[from];
        existing := existing.(at := now, attempts := existing.attempts + 1);
        noted := byCaller.Touch(from, existing);
      } else {
        noted := byCaller.Set(from, Entry(now, 1, None));
      }
    }

    static lemma TouchThenSet(calls: JsMap<string, Callers>, target: string, first: Callers, second: Callers)
      ensures calls.Touch(target, first).Set(target, second) == calls.Touch(target, second)
    {
    }

    /** The two eviction loops of rememberMissedCall: the target's callers, then the targets. */
    method TrimToCaps(target: string)
      requires Accounted(Now())
      modifies this
      ensures Now() == TrimTargets(TrimCallers(old(Now()), target), config.peersMax) && Accounted(Now())
    {
      TrimCallersOf(target);
      TrimAllTargets();
    }

    method TrimCallersOf(target: string)
      requires Accounted(Now())
      modifies this
      ensures Now() == TrimCallers(old(Now()), target) && Accounted(Now())
    {
      hide Accounted;
      while missedCalls.Has(target) && |missedCalls.items[target].keys| > PER_PEER
        invariant Accounted(Now())
        invariant TrimCallers(Now(), target) == TrimCallers(old(Now()), target)
        decreases SizeAt(missedCalls, target)
      {
        var first := missedCalls.items[target].keys[0];
        FirstCallerThere(Now(), target);
        DropCallAccounted(Now(), target, first);
        DropMissedCall(target, first);
      }
    }

    static lemma FirstCallerThere(s: State, target: string)
      requires Accounted(s) && s.calls.Has(target)
      ensures s.calls.items[target].keys != [] && s.calls.items[target].Has(s.calls.items[target].keys[0])
    {
      assert s.calls.items[target].Valid() && s.calls.items[target].keys[0] in s.calls.items[target].keys;
    }

    method TrimAllTargets()
      requires Accounted(Now())
      modifies this
      ensures Now() == TrimTargets(old(Now()), config.peersMax) && Accounted(Now())
    {
      hide Accounted;
      while |missedCalls.keys| > config.peersMax
        invariant Accounted(Now())
        invariant TrimTargets(Now(), config.peersMax) == TrimTargets(old(Now()), config.peersMax)
        decreases |missedCalls.keys|
      {
        var target := missedCalls.keys[0];
        FirstTargetThere(Now());
        DropTargetAccounted(Now(), target);
        DropMissedTarget(target);
      }
    }

    static lemma FirstTargetThere(s: State)
      requires Accounted(s) && s.calls.keys != []
      ensures s.calls.Has(s.calls.keys[0]) && s.calls.items[s.calls.keys[0]].Valid()
    {
      assert s.calls.keys[0] in s.calls.keys;
    }

    method AttachMissedReceipt(target: string, from: string, e: string) returns (attached: bool)
      requires Valid()
      modifies this
      ensures Valid() && (attached, Now()) == Attach(old(Now()), target, from, e, config)
    {
      hide Accounted, Capped, EnforceBudget;
      if !missedCalls.Has(target) || !missedCalls.items[target].Has(from) {
        return false;
      }
      AttachKeeps(Now(), target, from, e, config);
      ReceiptPut(Now(), target, from, e);
      hide Receipted;
      PutReceipt(target, from, e);
      assert Attach(old(Now()), target, from, e, config) == (true, EnforceBudget(Now(), config));
      EnforceMissedCallBudget();
      return true;
    }

    method PutReceipt(target: string, from: string, e: string)
      requires missedCalls.Has(target) && missedCalls.items[target].Has(from)
      modifies this
      ensures Now() == Receipted(old(Now()), target, from, e)
    {
      hide JsMap.Set;
      var entry := missedCalls.items[target].items[from];
      missedCallReceiptBytes := missedCallReceiptBytes + |e| - (if entry.e.Some? then |entry.e.value| else 0);
      missedCalls := missedCalls.Set(target, missedCalls.items[target].Set(from, entry.(e := Some(e))));
    }

    method ForgetMissedCall(target: string, from: string)
      requires Valid()
      modifies this
      ensures Valid() && Now() == DropCall(old(Now()), target, from)
    {
      DropKeeps(Now(), ForgetOp(target, from), config);
      DropMissedCall(target, from);
    }

    lemma ReadNow(peer: string, now: nat)
      requires Valid()
      ensures var byCaller := CallersOf(Now(), peer);
        var calls := JournalOrder.Collected(byCaller.keys, byCaller.items, now, config.ttl);
        JournalEffects.Reads(Now(), peer, now, config.ttl, JournalOrder.SortByAt(calls))
    {
      JournalEffects.ReadMeans(Now(), peer, now, config.ttl);
    }

    /**
     * Reads without deleting: exactly the target's calls within their lifetime, oldest first. By
     * SortChangesNothing the sort keeps the order of the map.
     */
    method ReadMissedCalls(peer: string, now: nat) returns (calls: seq<JournalOrder.Missed>)
      requires Valid()
      ensures JournalEffects.Reads(Now(), peer, now, config.ttl, calls)
      ensures var byCaller := CallersOf(Now(), peer);
        calls == JournalOrder.SortByAt(JournalOrder.Collected(byCaller.keys, byCaller.items, now, config.ttl))
    {
      hide Accounted, Capped, JournalEffects.Reads;
      ReadNow(peer, now);
      if !missedCalls.Has(peer) {
        return [];
      }
      var byCaller := missedCalls.items[peer];
      calls := [];
      var i := |byCaller.keys|;
      while i > 0
        invariant 0 <= i <= |byCaller.keys|
        invariant calls == JournalOrder.Collected(byCaller.keys[i..], byCaller.items, now, config.ttl)
      {
        i := i - 1;
        assert byCaller.keys[i..][1..] == byCaller.keys[i + 1..];
        var from := byCaller.keys[i];
        if byCaller.Has(from) && now - byCaller.items[from].at <= config.ttl {
          var entry := byCaller.items[from];
          calls := [JournalOrder.Missed(from, entry.at, entry.attempts, entry.e)] + calls;
        }
      }
      calls := JournalOrder.SortByAt(calls);
    }
  }
}
