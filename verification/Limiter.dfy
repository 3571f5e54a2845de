/** createSendLimiter: a fixed-window counter per sender, with sweeping and eviction. */
module Limiter {
  import opened OrderedMaps

  const SWEEP_ABOVE := 10000

  datatype Config = Config(window: nat, limit: nat, bucketsMax: nat)

  datatype Bucket = Bucket(startedAt: int, count: nat)

  type Buckets = JsMap<string, Bucket>

  predicate Expired(b: Bucket, at: int, window: nat) {
    at - b.startedAt >= window
  }

  /** Delete the expired buckets. */
  function Sweep(b: Buckets, at: int, window: nat): Buckets {
    SweepKeys(b, b.keys, at, window)
  }

  function SweepKeys(b: Buckets, keys: seq<string>, at: int, window: nat): Buckets
    decreases |keys|
  {
    if keys == [] then b
    else
      var k := keys[0];
      SweepKeys(if b.Has(k) && Expired(b.items[k], at, window) then b.Delete(k) else b, keys[1..], at, window)
  }

  /** Delete from the head until at most `bucketsMax` are left. */
  function Trim(b: Buckets, bucketsMax: nat): Buckets
    decreases |b.keys|
  {
    if |b.keys| <= bucketsMax then b
    else if |b.Delete(b.keys[0]).keys| < |b.keys| then Trim(b.Delete(b.keys[0]), bucketsMax)
    else b
  }

  predicate Restarts(b: Buckets, key: string, at: int, c: Config) {
    !b.Has(key) || Expired(b.items[key], at, c.window)
  }

  /** A new window for `key`, after sweeping and before eviction. */
  function Opened(b: Buckets, key: string, at: int, c: Config): Buckets {
    var b1 := b.Set(key, Bucket(at, 1));
    if |b1.keys| > SWEEP_ABOVE then Sweep(b1, at, c.window) else b1
  }

  function Allow(b: Buckets, key: string, at: int, c: Config): (bool, Buckets) {
    if Restarts(b, key, at, c) then (true, Trim(Opened(b, key, at, c), c.bucketsMax))
    else if b.items[key].count >= c.limit then (false, b)
    else (true, b.Set(key, Bucket(b.items[key].startedAt, b.items[key].count + 1)))
  }

  class SendLimiter {
    const config: Config
    var buckets: Buckets

    ghost predicate Valid()
      reads this
    {
      buckets.Valid() && |buckets.keys| <= config.bucketsMax
    }

    constructor (config: Config)
      ensures Valid() && this.config == config && buckets == Empty()
    {
      this.config := config;
      buckets := Empty();
    }

    method AllowSend(key: string, at: int) returns (ok: bool)
      requires Valid()
      modifies this`buckets
      ensures Valid()
      ensures (ok, buckets) == Allow(old(buckets), key, at, config)
    {
      if !buckets.Has(key) || at - buckets.items[key].startedAt >= config.window {
        SetValid(buckets, key, Bucket(at, 1));
        buckets := buckets.Set(key, Bucket(at, 1));
        if |buckets.keys| > SWEEP_ABOVE {
          ghost var all := buckets;
          var pending := buckets.keys;
          while pending != []
            invariant buckets.Valid()
            invariant SweepKeys(buckets, pending, at, config.window) == Sweep(all, at, config.window)
            decreases |pending|
          {
            var k := pending[0];
            if buckets.Has(k) && at - buckets.items[k].startedAt >= config.window {
              DeleteValid(buckets, k);
              buckets := buckets.Delete(k);
            }
            pending := pending[1..];
          }
        }
        while |buckets.keys| > config.bucketsMax
          invariant buckets.Valid()
          invariant Trim(buckets, config.bucketsMax) == Trim(Opened(old(buckets), key, at, config), config.bucketsMax)
          decreases |buckets.keys|
        {
          DeleteFirst(buckets);
          buckets := buckets.Delete(buckets.keys[0]);
        }
        return true;
      }
      if buckets.items[key].count >= config.limit {
        return false;
      }
      buckets := buckets.Set(key, Bucket(buckets.items[key].startedAt, buckets.items[key].count + 1));
      return true;
    }
  }

  /* ---- one key, no limit on the number of buckets: the fixed-window counter itself ---- */

  datatype Window = Idle | Counting(bucket: Bucket)

  function Tick(w: Window, at: int, c: Config): (bool, Window) {
    if w.Idle? || Expired(w.bucket, at, c.window) then (true, Counting(Bucket(at, 1)))
    else if w.bucket.count >= c.limit then (false, w)
    else (true, Counting(Bucket(w.bucket.startedAt, w.bucket.count + 1)))
  }

  /* ---- runs ---- */

  datatype Call = Call(key: string, at: int)

  function Answers(b: Buckets, calls: seq<Call>, c: Config): (r: seq<bool>)
    ensures |r| == |calls|
    decreases |calls|
  {
    if calls == [] then []
    else
      var (ok, b') := Allow(b, calls[0].key, calls[0].at, c);
      [ok] + Answers(b', calls[1..], c)
  }

  /** The buckets the calls leave. */
  function Final(b: Buckets, calls: seq<Call>, c: Config): Buckets
    decreases |calls|
  {
    if calls == [] then b else Final(Allow(b, calls[0].key, calls[0].at, c).1, calls[1..], c)
  }

  /** The answers the counter of `key` alone would give, at the calls made with that key. */
  function OwnAnswers(w: Window, calls: seq<Call>, key: string, c: Config): (r: seq<bool>)
    ensures |r| == |calls|
    decreases |calls|
  {
    if calls == [] then []
    else if calls[0].key != key then [false] + OwnAnswers(w, calls[1..], key, c)
    else
      var (ok, w') := Tick(w, calls[0].at, c);
      [ok] + OwnAnswers(w', calls[1..], key, c)
  }

  ghost predicate Clocked(calls: seq<Call>, start: int) {
    && (forall i :: 0 <= i < |calls| ==> start <= calls[i].at)
    && (forall i, j :: 0 <= i < j < |calls| ==> calls[i].at <= calls[j].at)
  }

  /** The eviction loop never deletes the bucket of `key` while its window runs. */
  ghost predicate NeverEvicted(b: Buckets, calls: seq<Call>, key: string, c: Config)
    decreases |calls|
  {
    calls == [] ||
    var call := calls[0];
    && (Restarts(b, call.key, call.at, c) ==>
          var before := Opened(b, call.key, call.at, c);
          before.Has(key) ==> Trim(before, c.bucketsMax).Has(key) || Expired(before.items[key], call.at, c.window))
    && NeverEvicted(Allow(b, call.key, call.at, c).1, calls[1..], key, c)
  }

  /** The map's bucket of `key` stands for the counter `w`, or both would restart at `at`. */
  ghost predicate StandsFor(b: Buckets, w: Window, key: string, at: int, c: Config) {
    && b.Valid()
    && (b.Has(key) && w.Counting? ==>
          b.items[key] == w.bucket || (Expired(b.items[key], at, c.window) && Expired(w.bucket, at, c.window)))
    && (b.Has(key) && w.Idle? ==> Expired(b.items[key], at, c.window))
    && (!b.Has(key) && w.Counting? ==> Expired(w.bucket, at, c.window))
  }

  lemma {:induction false} SweepKeepsLive(b: Buckets, keys: seq<string>, at: int, window: nat)
    requires b.Valid()
    ensures var s := SweepKeys(b, keys, at, window);
      && s.Valid()
      && (forall k :: s.Has(k) ==> b.Has(k) && s.items[k] == b.items[k])
      && (forall k :: b.Has(k) && !s.Has(k) ==> Expired(b.items[k], at, window))
    decreases |keys|
  {
    if keys != [] {
      var k := keys[0];
      DeleteValid(b, k);
      SweepKeepsLive(if b.Has(k) && Expired(b.items[k], at, window) then b.Delete(k) else b, keys[1..], at, window);
    }
  }

  /** Eviction takes the first buckets of the map, as many as are too many, and leaves the others alone. */
  lemma {:induction false} TrimKeepsRest(b: Buckets, bucketsMax: nat)
    requires b.Valid()
    ensures var t := Trim(b, bucketsMax);
      && t.Valid() && |t.keys| <= bucketsMax
      && t.keys == b.keys[if |b.keys| > bucketsMax then |b.keys| - bucketsMax else 0..]
      && (forall k :: t.Has(k) ==> b.Has(k) && t.items[k] == b.items[k])
    decreases |b.keys|
  {
    if |b.keys| > bucketsMax {
      DeleteFirst(b);
      TrimKeepsRest(b.Delete(b.keys[0]), bucketsMax);
    }
  }

  /** What opening a window leaves of every bucket, before eviction. */
  lemma OpenedKeeps(b: Buckets, key: string, at: int, c: Config)
    requires b.Valid()
    ensures var o := Opened(b, key, at, c);
      && o.Valid()
      && (forall k :: o.Has(k) ==>
            o.items[k] == if k == key then Bucket(at, 1) else if b.Has(k) then b.items[k] else Bucket(at, 1))
      && (forall k :: o.Has(k) ==> k == key || b.Has(k))
      && (forall k :: (b.Has(k) || k == key) && !o.Has(k) ==>
            Expired(if k == key then Bucket(at, 1) else b.items[k], at, c.window))
  {
    SetValid(b, key, Bucket(at, 1));
    SweepKeepsLive(b.Set(key, Bucket(at, 1)), b.Set(key, Bucket(at, 1)).keys, at, c.window);
  }

  lemma CallStandsFor(b: Buckets, w: Window, call: Call, key: string, c: Config)
    requires StandsFor(b, w, key, call.at, c)
    requires NeverEvicted(b, [call], key, c)
    ensures var (ok, b') := Allow(b, call.key, call.at, c);
      var (own, w') := if call.key == key then Tick(w, call.at, c) else (false, w);
      && StandsFor(b', w', key, call.at, c)
      && (call.key == key ==> ok == own)
  {
    if Restarts(b, call.key, call.at, c) {
      OpenedKeeps(b, call.key, call.at, c);
      TrimKeepsRest(Opened(b, call.key, call.at, c), c.bucketsMax);
    }
  }

  lemma StandsLater(b: Buckets, w: Window, key: string, at: int, later: int, c: Config)
    requires StandsFor(b, w, key, at, c) && at <= later
    ensures StandsFor(b, w, key, later, c)
  {
  }

  lemma NotEvictedNow(b: Buckets, calls: seq<Call>, key: string, c: Config)
    requires calls != [] && NeverEvicted(b, calls, key, c)
    ensures NeverEvicted(b, [calls[0]], key, c)
    ensures NeverEvicted(Allow(b, calls[0].key, calls[0].at, c).1, calls[1..], key, c)
  {
    hide Allow;
    assert NeverEvicted(Allow(b, calls[0].key, calls[0].at, c).1, [], key, c);
  }

  lemma {:induction false} RunStandsFor(b: Buckets, w: Window, calls: seq<Call>, key: string, c: Config, start: int)
    requires Clocked(calls, start) && StandsFor(b, w, key, start, c) && NeverEvicted(b, calls, key, c)
    ensures forall i :: 0 <= i < |calls| && calls[i].key == key ==>
              Answers(b, calls, c)[i] == OwnAnswers(w, calls, key, c)[i]
    decreases |calls|
  {
    hide StandsFor, Allow, Tick, NeverEvicted;
    if calls != [] {
      var call := calls[0];
      StandsLater(b, w, key, start, call.at, c);
      NotEvictedNow(b, calls, key, c);
      CallStandsFor(b, w, call, key, c);
      var w' := if call.key == key then Tick(w, call.at, c).1 else w;
      RunStandsFor(Allow(b, call.key, call.at, c).1, w', calls[1..], key, c, call.at);
    }
  }

  /**
   * A sender whose bucket is not evicted gets, at each of its calls, the answer of its own
   * fixed-window counter: sweeping, and what other senders do, never changes it.
   */
  lemma AnswersAreOwn(calls: seq<Call>, key: string, c: Config, i: nat)
    requires calls != [] ==> Clocked(calls, calls[0].at)
    requires NeverEvicted(Empty(), calls, key, c)
    requires i < |calls| && calls[i].key == key
    ensures Answers(Empty(), calls, c)[i] == OwnAnswers(Idle, calls, key, c)[i]
  {
    RunStandsFor(Empty(), Idle, calls, key, c, calls[0].at);
  }

  /* ---- which calls are let through ---- */

  /** A window lets through `limit` calls, or one: the call that opens it is never refused. */
  function PerWindow(c: Config): nat {
    if c.limit == 0 then 1 else c.limit
  }

  /** A call of the key that no window opened before it covers: it opens one itself. */
  ghost predicate Opens(calls: seq<Call>, key: string, c: Config, j: nat)
    requires j < |calls|
    decreases j
  {
    calls[j].key == key && forall o :: 0 <= o < j && Opens(calls, key, c, o) ==> calls[j].at - calls[o].at >= c.window
  }

  /** How many of the calls from `o` up to `i` are the key's. */
  function Calls(calls: seq<Call>, key: string, o: nat, i: nat): nat
    requires o <= i <= |calls|
  {
    if o == i then 0 else Calls(calls, key, o, i - 1) + (if calls[i - 1].key == key then 1 else 0)
  }

  /** The key's window that covers call `i` was opened at `o`, and has let fewer than `limit` calls through. */
  ghost predicate HasRoom(calls: seq<Call>, key: string, c: Config, o: nat, i: nat)
    requires o < i < |calls|
  {
    Opens(calls, key, c, o) && calls[i].at - calls[o].at < c.window && Calls(calls, key, o, i) < c.limit
  }

  /** What a counter has counted of `n` calls of its window. */
  function Counted(n: nat, c: Config): nat {
    if n < PerWindow(c) then n else PerWindow(c)
  }

  /** The key's counter right before call `i`: the last window opened, and the calls it has counted. */
  ghost predicate Counts(w: Window, calls: seq<Call>, key: string, c: Config, i: nat)
    requires i <= |calls|
  {
    match w
    case Idle => forall o :: 0 <= o < i ==> !Opens(calls, key, c, o)
    case Counting(b) =>
      exists o :: 0 <= o < i && LastOpened(calls, key, c, o, i)
                  && b == Bucket(calls[o].at, Counted(Calls(calls, key, o, i), c))
  }

  ghost predicate LastOpened(calls: seq<Call>, key: string, c: Config, o: nat, i: nat)
    requires o < i <= |calls|
  {
    Opens(calls, key, c, o) && forall p :: o < p < i ==> !Opens(calls, key, c, p)
  }

  lemma {:induction false} CallsFromOwn(calls: seq<Call>, key: string, o: nat, i: nat)
    requires o < i <= |calls| && calls[o].key == key
    ensures Calls(calls, key, o, i) >= 1
  {
    if o < i - 1 {
      CallsFromOwn(calls, key, o, i - 1);
    }
  }

  /** A call outside every window opens one. */
  lemma OpeningCounts(calls: seq<Call>, key: string, c: Config, i: nat)
    requires i < |calls| && Opens(calls, key, c, i)
    ensures Counts(Counting(Bucket(calls[i].at, 1)), calls, key, c, i + 1)
    ensures forall o :: 0 <= o < i ==> !HasRoom(calls, key, c, o, i)
  {
    assert Calls(calls, key, i, i) == 0;
    assert Calls(calls, key, i, i + 1) == 1;
    assert LastOpened(calls, key, c, i, i + 1);
  }

  /** A call inside the window opened at `o`. */
  lemma CoveredCounts(b: Bucket, calls: seq<Call>, key: string, c: Config, o: nat, i: nat)
    requires o < i < |calls| && Clocked(calls, calls[0].at) && LastOpened(calls, key, c, o, i)
    requires b == Bucket(calls[o].at, Counted(Calls(calls, key, o, i), c))
    requires calls[i].key == key && calls[i].at - calls[o].at < c.window
    ensures Counts(Tick(Counting(b), calls[i].at, c).1, calls, key, c, i + 1)
    ensures !Opens(calls, key, c, i)
    ensures Tick(Counting(b), calls[i].at, c).0 <==> exists p :: 0 <= p < i && HasRoom(calls, key, c, p, i)
  {
    CallsFromOwn(calls, key, o, i);
    assert !Opens(calls, key, c, i);
    assert LastOpened(calls, key, c, o, i + 1);
    assert Calls(calls, key, o, i + 1) == Calls(calls, key, o, i) + 1;
    assert Tick(Counting(b), calls[i].at, c).0 <==> HasRoom(calls, key, c, o, i);
    OnlyLastCovers(calls, key, c, o, i);
  }

  lemma TickCounts(w: Window, calls: seq<Call>, key: string, c: Config, i: nat)
    requires i < |calls| && Clocked(calls, calls[0].at) && Counts(w, calls, key, c, i)
    ensures calls[i].key != key ==> Counts(w, calls, key, c, i + 1)
    ensures calls[i].key == key ==>
      && Counts(Tick(w, calls[i].at, c).1, calls, key, c, i + 1)
      && (Tick(w, calls[i].at, c).0 <==>
            Opens(calls, key, c, i) || exists o :: 0 <= o < i && HasRoom(calls, key, c, o, i))
  {
    hide HasRoom;
    if w.Idle? {
      if calls[i].key == key {
        assert Opens(calls, key, c, i);
        OpeningCounts(calls, key, c, i);
      }
    } else {
      var o :| 0 <= o < i && LastOpened(calls, key, c, o, i)
               && w.bucket == Bucket(calls[o].at, Counted(Calls(calls, key, o, i), c));
      if calls[i].key != key {
        assert !Opens(calls, key, c, i);
        assert LastOpened(calls, key, c, o, i + 1) && Calls(calls, key, o, i + 1) == Calls(calls, key, o, i);
      } else if calls[i].at - calls[o].at < c.window {
        CoveredCounts(w.bucket, calls, key, c, o, i);
      } else {
        forall p | 0 <= p < i && Opens(calls, key, c, p) ensures calls[i].at - calls[p].at >= c.window {
          assert p <= o;
        }
        assert Opens(calls, key, c, i);
        OpeningCounts(calls, key, c, i);
      }
    }
  }

  /** A window has ended when the next one opens. */
  lemma EarlierEnded(calls: seq<Call>, key: string, c: Config, p: nat, o: nat, i: nat)
    requires p < o < i < |calls| && Clocked(calls, calls[0].at)
    requires Opens(calls, key, c, p) && Opens(calls, key, c, o)
    ensures calls[i].at - calls[p].at >= c.window
  {
  }

  /** Windows do not overlap, so only the last one opened can cover a call. */
  lemma OnlyLastCovers(calls: seq<Call>, key: string, c: Config, o: nat, i: nat)
    requires o < i < |calls| && Clocked(calls, calls[0].at) && LastOpened(calls, key, c, o, i)
    ensures forall p :: 0 <= p < i && HasRoom(calls, key, c, p, i) ==> p == o
  {
    hide Opens;
    forall p | 0 <= p < o && Opens(calls, key, c, p) ensures calls[i].at - calls[p].at >= c.window {
      EarlierEnded(calls, key, c, p, o, i);
    }
  }

  lemma {:induction false} OwnExactly(w: Window, calls: seq<Call>, key: string, c: Config, n: nat, i: nat)
    requires n <= i < |calls| && calls[i].key == key && Clocked(calls, calls[0].at) && Counts(w, calls, key, c, n)
    ensures OwnAnswers(w, calls[n..], key, c)[i - n] <==>
      Opens(calls, key, c, i) || exists o :: 0 <= o < i && HasRoom(calls, key, c, o, i)
    decreases i - n
  {
    hide Counts, Opens, HasRoom, Tick;
    TickCounts(w, calls, key, c, n);
    if n < i {
      assert calls[n..][1..] == calls[n + 1..];
      OwnExactly(if calls[n].key == key then Tick(w, calls[n].at, c).1 else w, calls, key, c, n + 1, i);
    }
  }

  /**
   * Which calls of an unevicted sender are let through, over every run: the one that opens a window,
   * and those its window has room for. A window takes `limit` calls and lasts `window`, from its
   * first call; the next one opens at the first call after its end.
   */
  lemma LetThroughExactly(calls: seq<Call>, key: string, c: Config, i: nat)
    requires calls != [] ==> Clocked(calls, calls[0].at)
    requires NeverEvicted(Empty(), calls, key, c)
    requires i < |calls| && calls[i].key == key
    ensures Answers(Empty(), calls, c)[i] <==>
      Opens(calls, key, c, i) || exists o :: 0 <= o < i && HasRoom(calls, key, c, o, i)
  {
    hide NeverEvicted, Opens, HasRoom;
    AnswersAreOwn(calls, key, c, i);
    assert calls[0..] == calls;
    OwnExactly(Idle, calls, key, c, 0, i);
  }

  /* ---- how many calls any interval lets through ---- */

  /** Calls of `key` answered yes at times in [x, x + window). */
  function Count(calls: seq<Call>, answers: seq<bool>, key: string, x: int, window: nat): nat
    requires |calls| == |answers|
  {
    if calls == [] then 0
    else
      (if calls[0].key == key && answers[0] && x <= calls[0].at < x + window then 1 else 0)
      + Count(calls[1..], answers[1..], key, x, window)
  }

  /** How many the interval can still let through, given where the current window starts. */
  function Room(w: Window, x: int, c: Config): int {
    if w.Idle? || w.bucket.startedAt < x - c.window then 2 * PerWindow(c)
    else if w.bucket.startedAt < x then 2 * PerWindow(c) - w.bucket.count
    else PerWindow(c) - w.bucket.count
  }

  lemma {:induction false} NoneAfter(calls: seq<Call>, answers: seq<bool>, key: string, x: int, window: nat)
    requires |calls| == |answers| && forall i :: 0 <= i < |calls| ==> calls[i].at >= x + window
    ensures Count(calls, answers, key, x, window) == 0
  {
    if calls != [] {
      NoneAfter(calls[1..], answers[1..], key, x, window);
    }
  }

  lemma {:induction false} CountWithinRoom(w: Window, calls: seq<Call>, key: string, c: Config, x: int, start: int)
    requires Clocked(calls, start)
    requires w.Counting? ==> w.bucket.startedAt <= start && 1 <= w.bucket.count <= PerWindow(c)
    ensures Count(calls, OwnAnswers(w, calls, key, c), key, x, c.window) <= Room(w, x, c)
    decreases |calls|
  {
    if calls != [] {
      var call := calls[0];
      var w' := if call.key == key then Tick(w, call.at, c).1 else w;
      var answers := OwnAnswers(w, calls, key, c);
      assert answers[1..] == OwnAnswers(w', calls[1..], key, c);
      if call.at >= x + c.window {
        NoneAfter(calls, answers, key, x, c.window);
      } else {
        CountWithinRoom(w', calls[1..], key, c, x, call.at);
      }
    }
  }

  lemma {:induction false} SameCount(calls: seq<Call>, a: seq<bool>, b: seq<bool>, key: string, x: int, window: nat)
    requires |calls| == |a| == |b|
    requires forall i :: 0 <= i < |calls| && calls[i].key == key ==> a[i] == b[i]
    ensures Count(calls, a, key, x, window) == Count(calls, b, key, x, window)
  {
    if calls != [] {
      SameCount(calls[1..], a[1..], b[1..], key, x, window);
    }
  }

  /**
   * Wherever it starts, an interval one window long lets through at most twice the limit of a
   * sender whose bucket is not evicted (at most 2 in all when the limit is 0).
   */
  lemma TwiceTheLimit(calls: seq<Call>, key: string, c: Config, x: int)
    requires calls != [] ==> Clocked(calls, calls[0].at)
    requires NeverEvicted(Empty(), calls, key, c)
    ensures Count(calls, Answers(Empty(), calls, c), key, x, c.window) <= 2 * PerWindow(c)
  {
    if calls != [] {
      RunStandsFor(Empty(), Idle, calls, key, c, calls[0].at);
      SameCount(calls, Answers(Empty(), calls, c), OwnAnswers(Idle, calls, key, c), key, x, c.window);
      CountWithinRoom(Idle, calls, key, c, x, calls[0].at);
    }
  }

  /* ---- eviction order ---- */

  ghost predicate ByAge(b: Buckets) {
    forall i, j :: 0 <= i < j < |b.keys| && b.Has(b.keys[i]) && b.Has(b.keys[j])
      ==> b.items[b.keys[i]].startedAt <= b.items[b.keys[j]].startedAt
  }

  /** The bucket is in the map after the opening of a window: it may be swept when there are many. */
  predicate Survives(b: Buckets, key: string, at: int, c: Config, k: string) {
    var n := b.Set(key, Bucket(at, 1));
    n.Has(k) && (|n.keys| > SWEEP_ABOVE ==> !Expired(n.items[k], at, c.window))
  }

  lemma AgeByPlace(b: Buckets)
    requires b.Valid()
    ensures ByAge(b) <==>
            forall p, q :: StandsBefore(b.keys, p, q) ==>
              b.Has(p) && b.Has(q) && b.items[p].startedAt <= b.items[q].startedAt
  {
    if ByAge(b) {
      forall p, q | StandsBefore(b.keys, p, q)
        ensures b.Has(p) && b.Has(q) && b.items[p].startedAt <= b.items[q].startedAt
      {
        var i, j :| 0 <= i < j < |b.keys| && b.keys[i] == p && b.keys[j] == q;
      }
    }
    forall i, j | 0 <= i < j < |b.keys|
      ensures StandsBefore(b.keys, b.keys[i], b.keys[j])
    {
    }
  }

  /** A sweep takes out the expired buckets among the keys it walks over, and reorders nothing. */
  lemma {:induction false} SweepOrder(b: Buckets, keys: seq<string>, at: int, window: nat, p: string, q: string)
    requires b.Valid()
    ensures var s := SweepKeys(b, keys, at, window);
      && (s.Has(p) <==> b.Has(p) && !(p in keys && Expired(b.items[p], at, window)))
      && (StandsBefore(s.keys, p, q) <==> StandsBefore(b.keys, p, q) && s.Has(p) && s.Has(q))
    decreases |keys|
  {
    hide StandsBefore, Without;
    if keys == [] {
      StandersThere(b, p, q);
    } else {
      var k := keys[0];
      var b1 := if b.Has(k) && Expired(b.items[k], at, window) then b.Delete(k) else b;
      DeleteValid(b, k);
      WithoutStands(b.keys, k, p, q);
      SweepOrder(b1, keys[1..], at, window, p, q);
      SweepKeepsLive(b1, keys[1..], at, window);
    }
  }

  lemma StandersThere(b: Buckets, p: string, q: string)
    requires b.Valid()
    ensures StandsBefore(b.keys, p, q) ==> b.Has(p) && b.Has(q) && p != q
  {
  }

  lemma OpenedPlaces(b: Buckets, key: string, at: int, c: Config, p: string, q: string)
    requires b.Valid()
    ensures var n, o := b.Set(key, Bucket(at, 1)), Opened(b, key, at, c);
      && (o.Has(p) <==> Survives(b, key, at, c, p))
      && (o.Has(p) ==> o.items[p] == n.items[p])
      && (StandsBefore(o.keys, p, q) <==>
            StandsBefore(n.keys, p, q) && Survives(b, key, at, c, p) && Survives(b, key, at, c, q))
  {
    hide StandsBefore, Sweep;
    var n := b.Set(key, Bucket(at, 1));
    SetValid(b, key, Bucket(at, 1));
    StandersThere(n, p, q);
    if |n.keys| > SWEEP_ABOVE {
      SweptPlaces(n, at, c.window, p, q);
      SweptPlaces(n, at, c.window, q, p);
    }
  }

  lemma SweptPlaces(n: Buckets, at: int, window: nat, p: string, q: string)
    requires n.Valid()
    ensures var s := Sweep(n, at, window);
      && (s.Has(p) <==> n.Has(p) && !Expired(n.items[p], at, window))
      && (s.Has(p) ==> s.items[p] == n.items[p])
      && (StandsBefore(s.keys, p, q) <==> StandsBefore(n.keys, p, q) && s.Has(p) && s.Has(q))
  {
    hide StandsBefore;
    SweepOrder(n, n.keys, at, window, p, q);
    SweepKeepsLive(n, n.keys, at, window);
  }

  /** Opening a window leaves every place as it is, or puts the key last. */
  lemma SetPlaces(b: Buckets, key: string, at: int, p: string, q: string)
    requires b.Valid()
    ensures var n := b.Set(key, Bucket(at, 1));
      && (b.Has(key) ==> n.keys == b.keys)
      && (!b.Has(key) ==> (StandsBefore(n.keys, p, q) <==> StandsBefore(b.keys, p, q) || (b.Has(p) && q == key)))
      && (!b.Has(key) ==> !StandsBefore(b.keys, key, q))
  {
    var n := b.Set(key, Bucket(at, 1));
    if !b.Has(key) {
      assert n.keys == b.keys + [key];
      if StandsBefore(b.keys, p, q) {
        var i, j :| 0 <= i < j < |b.keys| && b.keys[i] == p && b.keys[j] == q;
        assert n.keys[i] == p && n.keys[j] == q;
      }
      if b.Has(p) && q == key {
        var i :| 0 <= i < |b.keys| && b.keys[i] == p;
        assert n.keys[i] == p && n.keys[|b.keys|] == q;
      }
    }
  }

  /**
   * The eviction loop takes the map's order for the order of age. When a window is opened, the map
   * that loop works on is ordered by age exactly when, unless the key's own window was swept away,
   * every window that stands behind the key and outlived the sweep was opened at this same moment.
   * So it is when the key is new or last; and hardly ever when a window is restarted in place.
   */
  lemma AgeOrderExactly(b: Buckets, key: string, at: int, c: Config)
    requires b.Valid() && ByAge(b)
    requires forall k :: b.Has(k) ==> b.items[k].startedAt <= at
    ensures ByAge(Opened(b, key, at, c)) <==>
            forall k :: StandsBefore(b.keys, key, k) && Survives(b, key, at, c, key) && Survives(b, key, at, c, k) ==>
              b.Has(k) && b.items[k].startedAt == at
  {
    hide Opened, Survives, ByAge, StandsBefore;
    var o := Opened(b, key, at, c);
    OpenedKeeps(b, key, at, c);
    AgeByPlace(o);
    if ByAge(o) {
      forall k | StandsBefore(b.keys, key, k) && Survives(b, key, at, c, key) && Survives(b, key, at, c, k)
        ensures b.Has(k) && b.items[k].startedAt == at
      {
        OnePair(b, key, at, c, key, k);
      }
    }
    if forall k :: StandsBefore(b.keys, key, k) && Survives(b, key, at, c, key) && Survives(b, key, at, c, k) ==>
         b.Has(k) && b.items[k].startedAt == at
    {
      forall p, q | StandsBefore(o.keys, p, q)
        ensures o.Has(p) && o.Has(q) && o.items[p].startedAt <= o.items[q].startedAt
      {
        OnePair(b, key, at, c, p, q);
      }
    }
  }

  // What opening a window makes of two buckets.
  ghost predicate PairInOrder(b: Buckets, key: string, at: int, c: Config, p: string, q: string)
    requires forall k :: b.Has(k) ==> b.items[k].startedAt <= at
  {
    var o := Opened(b, key, at, c);
    var behind := p == key && StandsBefore(b.keys, p, q) && Survives(b, key, at, c, p) && Survives(b, key, at, c, q);
    && (behind ==> StandsBefore(o.keys, p, q) && b.Has(q) && o.Has(p) && o.Has(q) &&
                   o.items[p].startedAt == at && o.items[q] == b.items[q])
    && (StandsBefore(o.keys, p, q) && !behind ==>
          o.Has(p) && o.Has(q) && o.items[p].startedAt <= o.items[q].startedAt)
  }

  lemma OnePair(b: Buckets, key: string, at: int, c: Config, p: string, q: string)
    requires b.Valid() && ByAge(b)
    requires forall k :: b.Has(k) ==> b.items[k].startedAt <= at
    ensures PairInOrder(b, key, at, c, p, q)
  {
    hide Opened, Survives, ByAge, StandsBefore;
    AgeByPlace(b);
    OpenedPlaces(b, key, at, c, p, q);
    OpenedPlaces(b, key, at, c, q, p);
    SetPlaces(b, key, at, p, q);
    StandersThere(b, p, q);
    SetValid(b, key, Bucket(at, 1));
    StandersThere(b.Set(key, Bucket(at, 1)), p, q);
  }

  const SAMPLE := [Call("a", 0), Call("b", 15), Call("a", 20), Call("c", 21)]

  /** Windows of 10 and room for two: "a", restarted at 20, is evicted before "b" of 15. */
  lemma RestartedEvictedFirst()
    ensures var c := Config(10, 5, 2);
      var b := Final(Empty(), SAMPLE[..3], c);
      var after := Final(Empty(), SAMPLE, c);
      && b.items == map["a" := Bucket(20, 1), "b" := Bucket(15, 1)]
      && after.Has("b") && !after.Has("a")
  {
    hide Sweep, Final;
    var c := Config(10, 5, 2);
    var one := JsMap(["a"], map["a" := Bucket(0, 1)]);
    var two := JsMap(["a", "b"], map["a" := Bucket(0, 1), "b" := Bucket(15, 1)]);
    var three := JsMap(["a", "b"], map["a" := Bucket(20, 1), "b" := Bucket(15, 1)]);
    assert Empty<string, Bucket>().Set("a", Bucket(0, 1)).keys == ["a"];
    assert Allow(Empty(), "a", 0, c).1 == one;
    assert one.Set("b", Bucket(15, 1)).keys == ["a", "b"];
    assert Allow(one, "b", 15, c).1 == two;
    assert Allow(two, "a", 20, c).1 == three;
    var full := three.Set("c", Bucket(21, 1));
    WithoutAbsent(["b", "c"], "a");
    assert full.keys == ["a", "b", "c"] && full.keys[1..] == ["b", "c"];
    assert full.Delete("a").keys == ["b", "c"];
    assert Allow(three, "c", 21, c).1 == full.Delete("a");
    FinalOfFour(SAMPLE[0], SAMPLE[1], SAMPLE[2], SAMPLE[3], c);
    assert SAMPLE[..3] == [SAMPLE[0], SAMPLE[1], SAMPLE[2]];
  }

  lemma FinalOfFour(a: Call, b: Call, d: Call, e: Call, c: Config)
    ensures Final(Empty(), [a, b, d], c) ==
            Allow(Allow(Allow(Empty(), a.key, a.at, c).1, b.key, b.at, c).1, d.key, d.at, c).1
    ensures Final(Empty(), [a, b, d, e], c) == Allow(Final(Empty(), [a, b, d], c), e.key, e.at, c).1
  {
    hide Allow;
    var s1 := Allow(Empty(), a.key, a.at, c).1;
    var s2 := Allow(s1, b.key, b.at, c).1;
    var s3 := Allow(s2, d.key, d.at, c).1;
    assert [a, b, d][1..] == [b, d] && [b, d][1..] == [d] && [d][1..] == [];
    assert [a, b, d, e][1..] == [b, d, e] && [b, d, e][1..] == [d, e] && [d, e][1..] == [e] && [e][1..] == [];
    assert Final(s3, [e], c) == Allow(s3, e.key, e.at, c).1;
    assert Final(s2, [d], c) == s3 && Final(s2, [d, e], c) == Final(s3, [e], c);
    assert Final(s1, [b, d], c) == s3 && Final(s1, [b, d, e], c) == Final(s2, [d, e], c);
  }
}
