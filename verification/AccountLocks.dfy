/** withAccountWriteLock within one process: the promise chain that lines up the operations of an account.
  * The lock file against other processes is not part of this model.
  */
module AccountLocks {
  import opened Wrappers

  datatype Status = Waiting | Running | Settled

  /** One call: the operation it chained itself behind, if there was one, and how far it got. */
  datatype Operation = Operation(account: string, previous: Option<nat>, status: Status)

  /** All calls so far in order, and the map that keeps the last promise of each account. */
  datatype State = State(calls: seq<Operation>, last: map<string, nat>)

  datatype Event =
    | Call(account: string)
    | Start(n: nat)
    | Settle(n: nat)
    | Cleanup(n: nat)

  predicate CanStart(s: State, n: nat) {
    n < |s.calls| && s.calls[n].status == Waiting &&
    (s.calls[n].previous.Some? ==>
       s.calls[n].previous.value < |s.calls| && s.calls[s.calls[n].previous.value].status == Settled)
  }

  predicate Possible(s: State, e: Event) {
    match e
    case Call(_) => true
    case Start(n) => CanStart(s, n)
    case Settle(n) => n < |s.calls| && s.calls[n].status == Running
    case Cleanup(n) => n < |s.calls| && s.calls[n].status == Settled
  }

  // A settled operation, whether it succeeded or failed, lets the next one go.
  function Step(s: State, e: Event): State
    requires Possible(s, e)
  {
    match e
    case Call(a) =>
      var previous := if a in s.last then Some(s.last[a]) else None;
      State(s.calls + [Operation(a, previous, Waiting)], s.last[a := |s.calls|])
    case Start(n) => s.(calls := s.calls[n := s.calls[n].(status := Running)])
    case Settle(n) => s.(calls := s.calls[n := s.calls[n].(status := Settled)])
    case Cleanup(n) =>
      var a := s.calls[n].account;
      if a in s.last && s.last[a] == n then s.(last := s.last - {a}) else s
  }

  predicate Runs(s: State, events: seq<Event>)
    decreases |events|
  {
    events == [] || (Possible(s, events[0]) && Runs(Step(s, events[0]), events[1..]))
  }

  function Run(s: State, events: seq<Event>): State
    requires Runs(s, events)
    decreases |events|
  {
    if events == [] then s else Run(Step(s, events[0]), events[1..])
  }

  const IDLE := State([], map[])

  predicate SettledBefore(s: State, n: nat, account: string) {
    forall i :: 0 <= i < n && i < |s.calls| && s.calls[i].account == account ==> s.calls[i].status == Settled
  }

  // Call n is chained behind the call of its account right before it, or nothing of the
  // account was under way.
  predicate Chained(s: State, n: nat)
    requires n < |s.calls|
  {
    match s.calls[n].previous
    case None => SettledBefore(s, n, s.calls[n].account)
    case Some(p) =>
      p < n && s.calls[p].account == s.calls[n].account &&
      forall i :: p < i < n ==> s.calls[i].account != s.calls[n].account
  }

  predicate InOrder(s: State, n: nat)
    requires n < |s.calls|
  {
    s.calls[n].status != Waiting ==> SettledBefore(s, n, s.calls[n].account)
  }

  predicate LastOf(s: State, a: string, n: nat) {
    n < |s.calls| && s.calls[n].account == a && forall i :: n < i < |s.calls| ==> s.calls[i].account != a
  }

  ghost predicate Inv(s: State) {
    && (forall n :: 0 <= n < |s.calls| ==> Chained(s, n))
    && (forall n :: 0 <= n < |s.calls| ==> InOrder(s, n))
    && (forall a :: a in s.last ==> LastOf(s, a, s.last[a]))
    && (forall a :: a !in s.last ==> SettledBefore(s, |s.calls|, a))
  }

  // Everything before a call that can start has settled.
  lemma StartAfterAll(s: State, n: nat)
    requires Inv(s) && CanStart(s, n)
    ensures SettledBefore(s, n, s.calls[n].account)
  {
    assert Chained(s, n);
    if s.calls[n].previous.Some? {
      var p := s.calls[n].previous.value;
      assert InOrder(s, p);
    }
  }

  // Starting or settling an operation that had not settled disturbs nobody else.
  lemma ChangeKeeps(s: State, n: nat, status: Status)
    requires Inv(s) && n < |s.calls| && s.calls[n].status != Settled
    requires SettledBefore(s, n, s.calls[n].account)
    ensures Inv(s.(calls := s.calls[n := s.calls[n].(status := status)]))
  {
    var after := s.(calls := s.calls[n := s.calls[n].(status := status)]);
    forall m: nat, a | SettledBefore(s, m, a)
      ensures SettledBefore(after, m, a)
    {
    }
    forall m | 0 <= m < |s.calls|
      ensures Chained(after, m) && InOrder(after, m)
    {
      assert Chained(s, m) && InOrder(s, m);
    }
    forall a | a in s.last
      ensures LastOf(after, a, s.last[a])
    {
      assert LastOf(s, a, s.last[a]);
    }
  }

  lemma CallKeeps(s: State, a: string)
    requires Inv(s)
    ensures Inv(Step(s, Call(a)))
  {
    var after := Step(s, Call(a));
    forall m: nat, b | m <= |s.calls| && SettledBefore(s, m, b)
      ensures SettledBefore(after, m, b)
    {
    }
    forall m | 0 <= m < |s.calls|
      ensures Chained(after, m) && InOrder(after, m)
    {
      assert Chained(s, m) && InOrder(s, m);
    }
    if a in s.last {
      assert LastOf(s, a, s.last[a]);
    }
    forall b | b in after.last
      ensures LastOf(after, b, after.last[b])
    {
      if b != a {
        assert LastOf(s, b, s.last[b]);
      }
    }
  }

  lemma CleanupKeeps(s: State, n: nat)
    requires Inv(s) && Possible(s, Cleanup(n))
    ensures Inv(Step(s, Cleanup(n)))
  {
    var a := s.calls[n].account;
    if a in s.last && s.last[a] == n {
      var after := s.(last := s.last - {a});
      assert LastOf(s, a, n) && InOrder(s, n);
      assert SettledBefore(after, |s.calls|, a);
      forall b | b !in after.last
        ensures SettledBefore(after, |s.calls|, b)
      {
        if b != a {
          assert SettledBefore(s, |s.calls|, b);
        }
      }
      forall b | b in after.last
        ensures LastOf(after, b, after.last[b])
      {
        assert LastOf(s, b, s.last[b]);
      }
      forall m | 0 <= m < |s.calls|
        ensures Chained(after, m) && InOrder(after, m)
      {
        assert Chained(s, m) && InOrder(s, m);
      }
    }
  }

  lemma StepKeeps(s: State, e: Event)
    requires Inv(s) && Possible(s, e)
    ensures Inv(Step(s, e))
  {
    hide Inv;
    match e
    case Call(a) => CallKeeps(s, a);
    case Start(n) =>
      StartAfterAll(s, n);
      ChangeKeeps(s, n, Running);
    case Settle(n) =>
      RunningAfterAll(s, n);
      ChangeKeeps(s, n, Settled);
    case Cleanup(n) => CleanupKeeps(s, n);
  }

  lemma RunningAfterAll(s: State, n: nat)
    requires Inv(s) && n < |s.calls| && s.calls[n].status == Running
    ensures SettledBefore(s, n, s.calls[n].account)
  {
    assert InOrder(s, n);
  }

  lemma {:induction false} RunKeeps(s: State, events: seq<Event>)
    requires Inv(s) && Runs(s, events)
    ensures Inv(Run(s, events))
    decreases |events|
  {
    if events != [] {
      StepKeeps(s, events[0]);
      RunKeeps(Step(s, events[0]), events[1..]);
    }
  }

  /** However calls, starts, endings and clean-ups interleave: no two operations of one account run at the same
    * time, they run in the order they were called, and as long as one has not settled, one of them is running
    * or free to start.
    */
  lemma OneAtATime(events: seq<Event>)
    requires Runs(IDLE, events)
    ensures var s := Run(IDLE, events);
            forall i, j :: 0 <= i < j < |s.calls| && s.calls[i].account == s.calls[j].account &&
                           s.calls[j].status != Waiting ==>
              s.calls[i].status == Settled
    ensures var s := Run(IDLE, events);
            forall n :: 0 <= n < |s.calls| && s.calls[n].status != Settled ==>
              exists i :: 0 <= i <= n && s.calls[i].account == s.calls[n].account &&
                          (s.calls[i].status == Running || CanStart(s, i))
  {
    RunKeeps(IDLE, events);
    var s := Run(IDLE, events);
    forall i, j | 0 <= i < j < |s.calls| && s.calls[i].account == s.calls[j].account && s.calls[j].status != Waiting
      ensures s.calls[i].status == Settled
    {
      assert InOrder(s, j);
    }
    forall n | 0 <= n < |s.calls| && s.calls[n].status != Settled
      ensures exists i :: 0 <= i <= n && s.calls[i].account == s.calls[n].account &&
                          (s.calls[i].status == Running || CanStart(s, i))
    {
      var first := NextToRun(s, n);
    }
  }

  lemma {:induction false} NextToRun(s: State, n: nat) returns (first: nat)
    requires Inv(s) && n < |s.calls| && s.calls[n].status != Settled
    ensures first <= n && s.calls[first].account == s.calls[n].account
    ensures s.calls[first].status == Running || CanStart(s, first)
    decreases n
  {
    assert Chained(s, n);
    if s.calls[n].status == Running || CanStart(s, n) {
      first := n;
    } else {
      first := NextToRun(s, s.calls[n].previous.value);
    }
  }
}
