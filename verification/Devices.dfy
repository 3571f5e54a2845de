/**
 * The device registry of one account: enrolment, return of an idle device, revocation.
 *
 * SQL tables sync_devices and sync_device_enrollments, restricted to one account_id.
 * Descriptive columns (label, platform, model, versions, geography) are not modelled.
 */
module Devices {
  import opened Wrappers
  import opened Sets

  datatype Device = Device(key: Option<string>, lastSeen: int, revokedAt: Option<Instant>)

  datatype Enrollment = Enrollment(device: string, at: int)

  /** Device rows by id, and the enrolment journal in the order it was written. */
  datatype Registry = Registry(devices: map<string, Device>, enrollments: seq<Enrollment>)

  datatype Policy = Policy(maxActive: nat, idleTtl: nat, maxEnrollments: nat, window: nat)

  datatype Verdict =
    | Admitted
    | DeviceRevoked
    | KeyMismatch
    | KeyAlreadyEnrolled
    | EnrollmentRequired
    | LimitExceeded
    | RateLimited

  const EMPTY := Registry(map[], [])

  predicate IsActive(d: Device, now: int, idleTtl: nat) {
    d.revokedAt.None? && d.lastSeen >= now - idleTtl
  }

  function Active(r: Registry, now: int, idleTtl: nat): set<string> {
    set id | id in r.devices && IsActive(r.devices[id], now, idleTtl)
  }

  /** Devices other than `id` that hold the key. */
  function Holders(r: Registry, key: string, id: string): set<string> {
    set other | other in r.devices && other != id && r.devices[other].key == Some(key)
  }

  /** How many enrolments happened at `since` or later. */
  function RecentCount(enrollments: seq<Enrollment>, since: int): nat {
    if enrollments == [] then 0
    else (if enrollments[0].at >= since then 1 else 0) + RecentCount(enrollments[1..], since)
  }

  /** The refusal, if any: the checks before the first write, in the order they are made. */
  function Refusal(r: Registry, id: string, key: Option<string>, allowCreate: bool, now: Instant, p: Policy): Verdict {
    if id in r.devices && r.devices[id].revokedAt.Some? then DeviceRevoked
    else if id in r.devices && r.devices[id].key.Some? && key.Some? && r.devices[id].key != key then KeyMismatch
    else if key.Some? && Holders(r, key.value, id) != {} then
      if exists other <- Holders(r, key.value, id) :: r.devices[other].revokedAt.Some?
      then DeviceRevoked else KeyAlreadyEnrolled
    else if id !in r.devices && !allowCreate then EnrollmentRequired
    else if id in r.devices && r.devices[id].lastSeen < now - p.idleTtl
            && |Active(r, now, p.idleTtl) - {id}| >= p.maxActive then LimitExceeded
    else if id !in r.devices && |Active(r, now, p.idleTtl)| >= p.maxActive then LimitExceeded
    else if id !in r.devices && RecentCount(r.enrollments, now - p.window) >= p.maxEnrollments then RateLimited
    else Admitted
  }

  /** COALESCE(stored key, presented key), and last_seen_at = now. */
  function Seen(r: Registry, id: string, key: Option<string>, now: Instant): Device {
    var stored := if id in r.devices then r.devices[id].key else None;
    Device(if stored.Some? then stored else key, now, None)
  }

  /** ensureDevice as one transaction. */
  function Ensure(r: Registry, id: string, key: Option<string>, allowCreate: bool, now: Instant,
                        p: Policy): (Verdict, Registry) {
    var verdict := Refusal(r, id, key, allowCreate, now, p);
    if verdict != Admitted then (verdict, r)
    else
      var journal := if id in r.devices then r.enrollments else r.enrollments + [Enrollment(id, now)];
      (Admitted, Registry(r.devices[id := Seen(r, id, key, now)], journal))
  }

  /** revokeDevice: true when a row that was not revoked is now. */
  function Revoke(r: Registry, id: string, now: Instant): (bool, Registry) {
    if id in r.devices && r.devices[id].revokedAt.None?
    then (true, r.(devices := r.devices[id := r.devices[id].(revokedAt := Some(now))]))
    else (false, r)
  }

  /* ---- runs ---- */

  datatype Op =
    | EnsureOp(id: string, key: Option<string>, allowCreate: bool, at: Instant)
    | RevokeOp(id: string, at: Instant)

  function Step(r: Registry, op: Op, p: Policy): Registry {
    match op
    case EnsureOp(id, key, allowCreate, at) => Ensure(r, id, key, allowCreate, at, p).1
    case RevokeOp(id, at) => Revoke(r, id, at).1
  }

  function Run(r: Registry, ops: seq<Op>, p: Policy): Registry
    decreases |ops|
  {
    if ops == [] then r else Run(Step(r, ops[0], p), ops[1..], p)
  }

  /** A clock that never runs backwards, from `start` on. */
  predicate Clocked(ops: seq<Op>, start: int) {
    && (forall i :: 0 <= i < |ops| ==> start <= ops[i].at)
    && (forall i, j :: 0 <= i < j < |ops| ==> ops[i].at <= ops[j].at)
  }

  /* ---- what every run keeps ---- */

  ghost predicate KeysDistinct(r: Registry) {
    forall a, b :: a in r.devices && b in r.devices && a != b && r.devices[a].key.Some?
      ==> r.devices[a].key != r.devices[b].key
  }

  /** At no instant from `now` on, with no further request, are more than the limit active. */
  ghost predicate WithinLimit(r: Registry, now: int, p: Policy) {
    forall t :: now <= t ==> |Active(r, t, p.idleTtl)| <= p.maxActive
  }

  /** Enrolments are in time order; any maxEnrollments + 1 consecutive ones span more than the window. */
  ghost predicate Spaced(enrollments: seq<Enrollment>, p: Policy) {
    && (forall i, j :: 0 <= i < j < |enrollments| ==> enrollments[i].at <= enrollments[j].at)
    && (forall i, j :: 0 <= i && j < |enrollments| && i + p.maxEnrollments <= j
          ==> enrollments[j].at - enrollments[i].at > p.window)
  }

  ghost predicate Good(r: Registry, now: int, p: Policy) {
    && KeysDistinct(r)
    && WithinLimit(r, now, p)
    && Spaced(r.enrollments, p)
    && (forall i :: 0 <= i < |r.enrollments| ==> r.enrollments[i].at <= now)
  }

  lemma ActiveShrinks(r: Registry, t: int, u: int, idleTtl: nat)
    requires t <= u
    ensures Active(r, u, idleTtl) <= Active(r, t, idleTtl)
    ensures |Active(r, u, idleTtl)| <= |Active(r, t, idleTtl)|
  {
    SubsetSize(Active(r, u, idleTtl), Active(r, t, idleTtl));
  }

  /** With times in order, the recent ones are a tail of the journal. */
  lemma {:induction false} RecentTail(enrollments: seq<Enrollment>, since: int, i: nat)
    requires forall i, j :: 0 <= i < j < |enrollments| ==> enrollments[i].at <= enrollments[j].at
    requires i < |enrollments| && enrollments[i].at >= since
    ensures RecentCount(enrollments, since) >= |enrollments| - i
  {
    if i > 0 {
      RecentTail(enrollments[1..], since, i - 1);
    } else if |enrollments| > 1 {
      RecentTail(enrollments[1..], since, 0);
    }
  }

  lemma JoinWithin(before: set<string>, id: string, limit: nat)
    requires if id in before then |before| <= limit else |before| < limit
    ensures |before - {id} + {id}| <= limit
  {
    if id in before {
      assert before - {id} + {id} == before;
    } else {
      assert before - {id} == before;
    }
  }

  /** Right after the request the limit holds. */
  lemma EnsureWithinLimit(r: Registry, id: string, key: Option<string>, allowCreate: bool, now: Instant, p: Policy)
    requires |Active(r, now, p.idleTtl)| <= p.maxActive
    ensures |Active(Ensure(r, id, key, allowCreate, now, p).1, now, p.idleTtl)| <= p.maxActive
  {
    hide Active;
    if Refusal(r, id, key, allowCreate, now, p) == Admitted {
      ActiveAfter(r, id, key, allowCreate, now, p);
      AdmittedRoom(r, id, key, allowCreate, now, p);
      hide Refusal, Ensure;
      JoinWithin(Active(r, now, p.idleTtl), id, p.maxActive);
    }
  }

  lemma ActiveAfter(r: Registry, id: string, key: Option<string>, allowCreate: bool, now: Instant, p: Policy)
    requires Refusal(r, id, key, allowCreate, now, p) == Admitted
    ensures Active(Ensure(r, id, key, allowCreate, now, p).1, now, p.idleTtl) == Active(r, now, p.idleTtl) - {id} + {id}
  {
    hide Refusal;
  }

  lemma AdmittedRoom(r: Registry, id: string, key: Option<string>, allowCreate: bool, now: Instant, p: Policy)
    requires Refusal(r, id, key, allowCreate, now, p) == Admitted
    ensures id in Active(r, now, p.idleTtl) || |Active(r, now, p.idleTtl)| < p.maxActive
  {
    var before := Active(r, now, p.idleTtl);
    if id !in before {
      assert before - {id} == before;
    }
  }

  lemma EnsureKeepsLimit(r: Registry, id: string, key: Option<string>, allowCreate: bool, last: int, now: Instant,
                        p: Policy)
    requires WithinLimit(r, last, p) && last <= now
    ensures WithinLimit(Ensure(r, id, key, allowCreate, now, p).1, now, p)
  {
    hide Ensure, Active;
    EnsureWithinLimit(r, id, key, allowCreate, now, p);
    var r' := Ensure(r, id, key, allowCreate, now, p).1;
    forall t | now <= t ensures |Active(r', t, p.idleTtl)| <= p.maxActive {
      ActiveShrinks(r', now, t, p.idleTtl);
    }
  }

  lemma EnsureKeepsSpacing(r: Registry, id: string, key: Option<string>, allowCreate: bool, now: Instant, p: Policy)
    requires Spaced(r.enrollments, p)
    requires forall i :: 0 <= i < |r.enrollments| ==> r.enrollments[i].at <= now
    ensures Spaced(Ensure(r, id, key, allowCreate, now, p).1.enrollments, p)
  {
    if Refusal(r, id, key, allowCreate, now, p) == Admitted && id !in r.devices {
      LateEnough(r, id, now, p);
    }
  }

  lemma LateEnough(r: Registry, id: string, now: Instant, p: Policy)
    requires Spaced(r.enrollments, p)
    requires forall i :: 0 <= i < |r.enrollments| ==> r.enrollments[i].at <= now
    requires RecentCount(r.enrollments, now - p.window) < p.maxEnrollments
    ensures Spaced(r.enrollments + [Enrollment(id, now)], p)
  {
    var n, later := |r.enrollments|, r.enrollments + [Enrollment(id, now)];
    forall i | 0 <= i && i + p.maxEnrollments <= n ensures later[n].at - later[i].at > p.window {
      if i < n {
        if r.enrollments[i].at >= now - p.window {
          RecentTail(r.enrollments, now - p.window, i);
        }
      }
    }
  }

  lemma EnsureKeepsKeys(r: Registry, id: string, key: Option<string>, allowCreate: bool, now: Instant, p: Policy)
    requires KeysDistinct(r)
    ensures KeysDistinct(Ensure(r, id, key, allowCreate, now, p).1)
  {
    if Refusal(r, id, key, allowCreate, now, p) == Admitted && key.Some? {
      forall other | other in r.devices && other != id ensures r.devices[other].key != key {
        assert other !in Holders(r, key.value, id);
      }
    }
  }

  lemma StepKeepsGood(r: Registry, op: Op, last: int, p: Policy)
    requires Good(r, last, p) && last <= op.at
    ensures Good(Step(r, op, p), op.at, p)
  {
    hide Refusal, Active, Spaced, WithinLimit, KeysDistinct, Revoke;
    match op
    case EnsureOp(id, key, allowCreate, at) =>
      EnsureKeepsLimit(r, id, key, allowCreate, last, at, p);
      EnsureKeepsSpacing(r, id, key, allowCreate, at, p);
      EnsureKeepsKeys(r, id, key, allowCreate, at, p);
    case RevokeOp(id, at) =>
      RevokeKeeps(r, id, last, at, p);
  }

  lemma RevokeKeeps(r: Registry, id: string, last: int, at: Instant, p: Policy)
    requires KeysDistinct(r) && WithinLimit(r, last, p) && last <= at
    ensures KeysDistinct(Revoke(r, id, at).1) && WithinLimit(Revoke(r, id, at).1, at, p)
    ensures Revoke(r, id, at).1.enrollments == r.enrollments
  {
    var r' := Revoke(r, id, at).1;
    forall t | at <= t
      ensures |Active(r', t, p.idleTtl)| <= p.maxActive
    {
      SubsetSize(Active(r', t, p.idleTtl), Active(r, t, p.idleTtl));
    }
  }

  lemma {:induction false} RunKeepsGood(r: Registry, ops: seq<Op>, start: int, p: Policy)
    requires Good(r, start, p) && Clocked(ops, start)
    ensures Good(Run(r, ops, p), if ops == [] then start else ops[|ops| - 1].at, p)
    decreases |ops|
  {
    hide Good;
    if ops != [] {
      StepKeepsGood(r, ops[0], start, p);
      RunKeepsGood(Step(r, ops[0], p), ops[1..], ops[0].at, p);
    }
  }

  lemma {:induction false} RecentHead(enrollments: seq<Enrollment>, since: int)
    requires forall i, j :: 0 <= i < j < |enrollments| ==> enrollments[i].at <= enrollments[j].at
    ensures RecentCount(enrollments, since) <= |enrollments|
    ensures RecentCount(enrollments, since) > 0
      ==> enrollments[|enrollments| - RecentCount(enrollments, since)].at >= since
  {
    if enrollments != [] {
      RecentHead(enrollments[1..], since);
    }
  }

  /** The registry that admitting the device would leave. */
  function Candidate(r: Registry, id: string, key: Option<string>, now: Instant): Registry {
    Registry(r.devices[id := Seen(r, id, key, now)],
             if id in r.devices then r.enrollments else r.enrollments + [Enrollment(id, now)])
  }

  /**
   * No needless refusal: a device is turned away exactly when it is revoked, presents another
   * key than its own, is unknown without leave to enrol, or when admitting it would break
   * what PolicyHolds promises.
   */
  lemma AdmittedExactly(r: Registry, id: string, key: Option<string>, allowCreate: bool, last: int, now: Instant,
                        p: Policy)
    requires Good(r, last, p) && last <= now
    ensures Refusal(r, id, key, allowCreate, now, p) == Admitted <==>
      && (id in r.devices ==> r.devices[id].revokedAt.None?)
      && (id in r.devices && key.Some? ==> Seen(r, id, key, now).key == key)
      && (id in r.devices || allowCreate)
      && KeysDistinct(Candidate(r, id, key, now))
      && |Active(Candidate(r, id, key, now), now, p.idleTtl)| <= p.maxActive
      && Spaced(Candidate(r, id, key, now).enrollments, p)
  {
    hide Active, Spaced, KeysDistinct, WithinLimit;
    var verdict := Refusal(r, id, key, allowCreate, now, p);
    if verdict == Admitted {
      AdmittedGood(r, id, key, allowCreate, last, now, p);
    } else if verdict == LimitExceeded {
      UnknownInactive(r, id, now, p);
      OverLimit(r, id, key, now, p);
    } else if verdict == RateLimited {
      TooSoon(r, id, now, p);
    } else if key.Some? && Holders(r, key.value, id) != {} {
      KeyTaken(r, id, key, now);
    }
  }

  lemma UnknownInactive(r: Registry, id: string, now: Instant, p: Policy)
    ensures id !in r.devices ==> Active(r, now, p.idleTtl) - {id} == Active(r, now, p.idleTtl)
  {
  }

  lemma AdmittedGood(r: Registry, id: string, key: Option<string>, allowCreate: bool, last: int, now: Instant,
                        p: Policy)
    requires Good(r, last, p) && last <= now
    requires Refusal(r, id, key, allowCreate, now, p) == Admitted
    ensures KeysDistinct(Candidate(r, id, key, now)) && Spaced(Candidate(r, id, key, now).enrollments, p)
    ensures |Active(Candidate(r, id, key, now), now, p.idleTtl)| <= p.maxActive
  {
    hide Refusal, Active, Spaced, KeysDistinct;
    StepKeepsGood(r, EnsureOp(id, key, allowCreate, now), last, p);
    assert Candidate(r, id, key, now) == Ensure(r, id, key, allowCreate, now, p).1;
  }

  lemma KeyTaken(r: Registry, id: string, key: Option<string>, now: Instant)
    requires key.Some? && Holders(r, key.value, id) != {}
    ensures Seen(r, id, key, now).key == key ==> !KeysDistinct(Candidate(r, id, key, now))
  {
    var c := Candidate(r, id, key, now);
    var other :| other in Holders(r, key.value, id);
    assert c.devices[other].key == key;
    assert c.devices[id] == Seen(r, id, key, now);
  }

  lemma OverLimit(r: Registry, id: string, key: Option<string>, now: Instant, p: Policy)
    requires |Active(r, now, p.idleTtl) - {id}| >= p.maxActive
    ensures |Active(Candidate(r, id, key, now), now, p.idleTtl)| > p.maxActive
  {
    assert Active(Candidate(r, id, key, now), now, p.idleTtl) == Active(r, now, p.idleTtl) - {id} + {id};
  }

  lemma TooSoon(r: Registry, id: string, now: Instant, p: Policy)
    requires Spaced(r.enrollments, p)
    requires forall i :: 0 <= i < |r.enrollments| ==> r.enrollments[i].at <= now
    requires RecentCount(r.enrollments, now - p.window) >= p.maxEnrollments
    ensures !Spaced(r.enrollments + [Enrollment(id, now)], p)
  {
    var n, count := |r.enrollments|, RecentCount(r.enrollments, now - p.window);
    RecentHead(r.enrollments, now - p.window);
    var later := r.enrollments + [Enrollment(id, now)];
    if p.maxEnrollments > 0 {
      assert later[n - count].at <= later[n - p.maxEnrollments].at;
    }
    assert later[n].at - later[n - p.maxEnrollments].at <= p.window;
  }

  /** Enrolments in the closed window [from, from + window]. */
  function InWindow(enrollments: seq<Enrollment>, from: int, window: nat): set<int> {
    set i | 0 <= i < |enrollments| && from <= enrollments[i].at <= from + window
  }

  lemma IntervalSize(s: set<int>, lo: int, hi: int)
    requires lo <= hi
    requires forall i :: i in s ==> lo <= i < hi
    ensures |s| <= hi - lo
    decreases hi - lo
  {
    if lo == hi {
      assert s == {};
    } else {
      IntervalSize(s - {lo}, lo + 1, hi);
      assert |s| <= |s - {lo}| + 1 by {
        if lo !in s { assert s - {lo} == s; }
      }
    }
  }

  /**
   * The registry's promises over every run from an empty registry: the active-device limit
   * at every later instant, the enrolment limit in every window wherever it starts (with
   * revocations in between), and one row per key.
   */
  lemma {:induction false} PolicyHolds(ops: seq<Op>, p: Policy, t: int, from: int)
    requires Clocked(ops, 1)
    requires ops != [] ==> ops[|ops| - 1].at <= t
    ensures |Active(Run(EMPTY, ops, p), t, p.idleTtl)| <= p.maxActive
    ensures |InWindow(Run(EMPTY, ops, p).enrollments, from, p.window)| <= p.maxEnrollments
    ensures KeysDistinct(Run(EMPTY, ops, p))
  {
    assert forall t :: Active(EMPTY, t, p.idleTtl) == {};
    var start := if t < 1 then t else 1;
    RunKeepsGood(EMPTY, ops, start, p);
    var e := Run(EMPTY, ops, p).enrollments;
    var hits := InWindow(e, from, p.window);
    if hits != {} {
      RecentHead(e, from);
      var first := |e| - RecentCount(e, from);
      forall i | i in hits ensures first <= i < first + p.maxEnrollments {
        RecentTail(e, from, i);
      }
      IntervalSize(hits, first, first + p.maxEnrollments);
    }
  }

  /** A revoked row stays, revoked and under the same key, through every later run. */
  lemma {:induction false} RevokedRowStays(r: Registry, ops: seq<Op>, p: Policy, id: string)
    requires id in r.devices && r.devices[id].revokedAt.Some?
    ensures id in Run(r, ops, p).devices && Run(r, ops, p).devices[id] == r.devices[id]
    decreases |ops|
  {
    if ops != [] {
      RevokedRowStays(Step(r, ops[0], p), ops[1..], p, id);
    }
  }

  /** After any run, neither the revoked id (with any key) nor its key (under any id) is admitted. */
  lemma NeverReadmitted(r: Registry, ops: seq<Op>, p: Policy, revoked: string,
                        id: string, key: Option<string>, allowCreate: bool, now: Instant)
    requires revoked in r.devices && r.devices[revoked].revokedAt.Some?
    requires id == revoked || (key.Some? && key == r.devices[revoked].key)
    ensures Ensure(Run(r, ops, p), id, key, allowCreate, now, p).1 == Run(r, ops, p)
    ensures Ensure(Run(r, ops, p), id, key, allowCreate, now, p).0 != Admitted
  {
    RevokedRowStays(r, ops, p, revoked);
    if id != revoked {
      assert revoked in Holders(Run(r, ops, p), key.value, id);
    }
  }

  /** What a request by a device leaves behind when it is admitted; a refused one leaves no trace. */
  lemma EnsureRecords(r: Registry, id: string, key: Option<string>, allowCreate: bool, now: Instant, p: Policy)
    ensures var (verdict, r') := Ensure(r, id, key, allowCreate, now, p);
      && verdict == Refusal(r, id, key, allowCreate, now, p)
      && (verdict != Admitted ==> r' == r)
      && (verdict == Admitted ==>
            && r'.devices.Keys == r.devices.Keys + {id}
            && (forall other :: other in r.devices && other != id ==> r'.devices[other] == r.devices[other])
            && r'.devices[id].lastSeen == now && r'.devices[id].revokedAt.None?
            && (id in r.devices && r.devices[id].key.Some? ==> r'.devices[id].key == r.devices[id].key)
            && (id !in r.devices || r.devices[id].key.None? ==> r'.devices[id].key == key)
            && r'.enrollments == r.enrollments + (if id in r.devices then [] else [Enrollment(id, now)]))
  {
    hide Refusal;
  }

  /** Another device of the account holds the key. */
  ghost predicate Elsewhere(r: Registry, id: string, key: Option<string>, revoked: bool) {
    exists other :: other in r.devices && other != id && key.Some? && r.devices[other].key == key
                    && r.devices[other].revokedAt.Some? == revoked
  }

  /** A known device presents another key than its own. */
  predicate Differs(r: Registry, id: string, key: Option<string>) {
    id in r.devices && r.devices[id].key.Some? && key.Some? && r.devices[id].key != key
  }

  /** The reason for each verdict, as the state shows it; limits as admitting the device would leave them. */
  ghost predicate Because(verdict: Verdict, r: Registry, id: string, key: Option<string>, allowCreate: bool,
                          now: Instant, p: Policy) {
    var known := id in r.devices;
    var revoked := known && r.devices[id].revokedAt.Some?;
    var proper := !revoked && !Differs(r, id, key) && !Elsewhere(r, id, key, true) && !Elsewhere(r, id, key, false);
    var over := |Active(Candidate(r, id, key, now), now, p.idleTtl)| > p.maxActive;
    var soon := !Spaced(Candidate(r, id, key, now).enrollments, p);
    match verdict
    case DeviceRevoked => revoked || (!Differs(r, id, key) && Elsewhere(r, id, key, true))
    case KeyMismatch => !revoked && Differs(r, id, key)
    case KeyAlreadyEnrolled =>
      !revoked && !Differs(r, id, key) && !Elsewhere(r, id, key, true) && Elsewhere(r, id, key, false)
    case EnrollmentRequired => proper && !known && !allowCreate
    case LimitExceeded => proper && (known || allowCreate) && over
    case RateLimited => proper && (known || allowCreate) && !over && soon
    case Admitted => proper && (known || allowCreate) && !over && !soon
  }

  /** Each verdict is given if and only if its reason holds. */
  lemma RefusalReason(r: Registry, id: string, key: Option<string>, allowCreate: bool, last: int, now: Instant,
                      p: Policy)
    requires Good(r, last, p) && last <= now
    ensures forall verdict ::
      Refusal(r, id, key, allowCreate, now, p) == verdict <==> Because(verdict, r, id, key, allowCreate, now, p)
  {
    hide *;
    GivenFor(r, id, key, allowCreate, last, now, p);
    forall verdict | verdict != Refusal(r, id, key, allowCreate, now, p)
      ensures !Because(verdict, r, id, key, allowCreate, now, p)
    {
      OneReason(verdict, Refusal(r, id, key, allowCreate, now, p), r, id, key, allowCreate, now, p);
    }
  }

  lemma GivenFor(r: Registry, id: string, key: Option<string>, allowCreate: bool, last: int, now: Instant, p: Policy)
    requires Good(r, last, p) && last <= now
    ensures Because(Refusal(r, id, key, allowCreate, now, p), r, id, key, allowCreate, now, p)
  {
    hide Active, Holders, Elsewhere, Spaced, KeysDistinct, WithinLimit, RecentCount, Candidate;
    KeyElsewhere(r, id, key);
    if id !in r.devices || r.devices[id].revokedAt.None? {
      LimitJudged(r, id, key, last, now, p);
    }
    SoonJudged(r, id, key, now, p);
  }

  lemma OneReason(v: Verdict, u: Verdict, r: Registry, id: string, key: Option<string>, allowCreate: bool, now: Instant,
                  p: Policy)
    requires v != u && Because(u, r, id, key, allowCreate, now, p)
    ensures !Because(v, r, id, key, allowCreate, now, p)
  {
    hide Active, Elsewhere, Spaced, Differs, Candidate;
  }

  lemma SoonJudged(r: Registry, id: string, key: Option<string>, now: Instant, p: Policy)
    requires Spaced(r.enrollments, p)
    requires forall i :: 0 <= i < |r.enrollments| ==> r.enrollments[i].at <= now
    ensures Spaced(Candidate(r, id, key, now).enrollments, p) <==>
      !(id !in r.devices && RecentCount(r.enrollments, now - p.window) >= p.maxEnrollments)
  {
    hide Spaced;
    if RecentCount(r.enrollments, now - p.window) >= p.maxEnrollments {
      TooSoon(r, id, now, p);
    } else {
      LateEnough(r, id, now, p);
    }
  }

  lemma KeyElsewhere(r: Registry, id: string, key: Option<string>)
    ensures key.Some? ==>
      && (Holders(r, key.value, id) != {} <==> Elsewhere(r, id, key, true) || Elsewhere(r, id, key, false))
      && ((exists other <- Holders(r, key.value, id) :: r.devices[other].revokedAt.Some?)
           <==> Elsewhere(r, id, key, true))
    ensures key.None? ==> !Elsewhere(r, id, key, true) && !Elsewhere(r, id, key, false)
  {
    if key.Some? {
      assert forall other :: other in Holders(r, key.value, id) <==>
        other in r.devices && other != id && r.devices[other].key == key;
      if other :| other in Holders(r, key.value, id) {
        assert Elsewhere(r, id, key, r.devices[other].revokedAt.Some?);
      }
    }
  }

  /** The two limit checks against the active devices that admission would leave. */
  lemma LimitJudged(r: Registry, id: string, key: Option<string>, last: int, now: Instant, p: Policy)
    requires Good(r, last, p) && last <= now
    requires id in r.devices ==> r.devices[id].revokedAt.None?
    ensures |Active(Candidate(r, id, key, now), now, p.idleTtl)| > p.maxActive <==>
      || (id in r.devices && r.devices[id].lastSeen < now - p.idleTtl
          && |Active(r, now, p.idleTtl) - {id}| >= p.maxActive)
      || (id !in r.devices && |Active(r, now, p.idleTtl)| >= p.maxActive)
  {
    ActiveOnceSeen(r, id, key, now, p);
    UnknownInactive(r, id, now, p);
    if id in r.devices && r.devices[id].lastSeen >= now - p.idleTtl {
      assert id in Active(r, now, p.idleTtl);
    }
  }

  lemma ActiveOnceSeen(r: Registry, id: string, key: Option<string>, now: Instant, p: Policy)
    ensures |Active(Candidate(r, id, key, now), now, p.idleTtl)| == |Active(r, now, p.idleTtl) - {id}| + 1
  {
    assert Active(Candidate(r, id, key, now), now, p.idleTtl) == Active(r, now, p.idleTtl) - {id} + {id};
  }

  /**
   * Revoking a known device revokes its row and nothing else: its key and last visit stay, the other
   * rows and the enrolment journal too. A second revocation keeps the first one's time.
   */
  lemma RevokeRevokes(r: Registry, id: string, at: Instant)
    ensures var (changed, r') := Revoke(r, id, at);
      && (changed <==> id in r.devices && r.devices[id].revokedAt.None?)
      && r'.devices.Keys == r.devices.Keys && r'.enrollments == r.enrollments
      && (forall other :: other in r.devices && other != id ==> r'.devices[other] == r.devices[other])
      && (id in r.devices ==>
            && r'.devices[id].key == r.devices[id].key && r'.devices[id].lastSeen == r.devices[id].lastSeen
            && r'.devices[id].revokedAt
               == if r.devices[id].revokedAt.Some? then r.devices[id].revokedAt else Some(at))
  {
  }

  lemma {:induction false} RunInTwo(r: Registry, before: seq<Op>, after: seq<Op>, p: Policy)
    ensures Run(r, before + after, p) == Run(Run(r, before, p), after, p)
    decreases |before|
  {
    hide Step;
    if before == [] {
      assert before + after == after;
    } else {
      assert (before + after)[1..] == before[1..] + after;
      RunInTwo(Step(r, before[0], p), before[1..], after, p);
    }
  }

  /**
   * Revocation is final. Once a run has revoked a device it knew, then after any further run every
   * request under its id is refused as revoked, whatever key it presents, and every request with its
   * key is refused whatever id it presents; neither leaves a trace.
   */
  lemma RevokedForGood(before: seq<Op>, device: string, at: Instant, after: seq<Op>, p: Policy,
                       id: string, key: Option<string>, allowCreate: bool, now: Instant)
    requires device in Run(EMPTY, before, p).devices
    requires id == device || (key.Some? && key == Run(EMPTY, before, p).devices[device].key)
    ensures var u := Run(EMPTY, before + [RevokeOp(device, at)] + after, p);
      var verdict := Refusal(u, id, key, allowCreate, now, p);
      && Ensure(u, id, key, allowCreate, now, p) == (verdict, u)
      && (if id == device || !Differs(u, id, key) then verdict == DeviceRevoked
          else verdict in {DeviceRevoked, KeyMismatch})
  {
    var r := Run(EMPTY, before, p);
    var r' := Step(r, RevokeOp(device, at), p);
    RunInTwo(EMPTY, before + [RevokeOp(device, at)], after, p);
    RunInTwo(EMPTY, before, [RevokeOp(device, at)], p);
    assert Run(r, [RevokeOp(device, at)], p) == r';
    RevokeRevokes(r, device, at);
    RevokedRowStays(r', after, p, device);
    NeverReadmitted(r', after, p, device, id, key, allowCreate, now);
    var u := Run(r', after, p);
    if id != device {
      assert device in Holders(u, key.value, id);
    }
  }
}
