/** The two push-token registries: one on a JavaScript Map, one on an SQL table. */
module Tokens {
  import opened Wrappers
  import opened OrderedMaps

  datatype Entry = Entry(token: string, platform: string, updatedAt: int, ts: int)

  type Store = map<string, Entry>

  datatype Config = Config(ttl: nat, maxTokens: nat)

  /* ---- what a registry answers ---- */

  function Unexpired(s: Store, cutoff: int): Store {
    map p | p in s && s[p].updatedAt >= cutoff :: s[p]
  }

  function Set(s: Store, peer: string, token: string, platform: string, ts: int, now: int, c: Config): (bool, Store) {
    var entry := Entry(token, platform, now, ts);
    if peer in s then
      if ts <= s[peer].ts then (false, s) else (true, s[peer := entry])
    else
      var kept := if |s| >= c.maxTokens then Unexpired(s, now - c.ttl) else s;
      if |kept| >= c.maxTokens then (false, kept) else (true, kept[peer := entry])
  }

  function Get(s: Store, peer: string, now: int, c: Config): (Option<Entry>, Store) {
    if peer !in s then (None, s)
    else if s[peer].updatedAt < now - c.ttl then (None, s - {peer})
    else (Some(s[peer]), s)
  }

  /* ---- in memory ---- */

  class MemoryTokenRegistry {
    const config: Config
    var entries: JsMap<string, Entry>

    ghost predicate Valid()
      reads this
    {
      entries.Valid()
    }

    function Contents(): Store
      reads this
    {
      entries.items
    }

    constructor (config: Config)
      ensures Valid() && this.config == config && Contents() == map[]
    {
      this.config := config;
      entries := Empty();
    }

    /** Delete every expired entry, walking over the map. */
    method Sweep(now: int)
      requires Valid()
      modifies this`entries
      ensures Valid() && Contents() == Unexpired(old(Contents()), now - config.ttl)
    {
      var cutoff := now - config.ttl;
      var keys, i := entries.keys, 0;
      while i < |keys|
        invariant 0 <= i <= |keys| && entries.Valid()
        invariant forall p :: p in entries.items ==>
                    p in old(entries.items) && entries.items[p] == old(entries.items)[p]
        invariant forall p :: p in old(entries.items) && p !in entries.items ==>
                    old(entries.items)[p].updatedAt < cutoff
        invariant forall j :: 0 <= j < i && keys[j] in entries.items ==> entries.items[keys[j]].updatedAt >= cutoff
      {
        if entries.Has(keys[i]) && entries.items[keys[i]].updatedAt < cutoff {
          DeleteValid(entries, keys[i]);
          entries := entries.Delete(keys[i]);
        }
        i := i + 1;
      }
      assert forall p :: p in entries.items ==> p in keys;
    }

    method SetToken(peer: string, token: string, platform: string, ts: int, now: int) returns (ok: bool)
      requires Valid()
      modifies this`entries
      ensures Valid() && (ok, Contents()) == Set(old(Contents()), peer, token, platform, ts, now, config)
    {
      if entries.Has(peer) && ts <= entries.items[peer].ts {
        return false;
      }
      SizeIs(entries);
      if !entries.Has(peer) && |entries.keys| >= config.maxTokens {
        Sweep(now);
        SizeIs(entries);
        if |entries.keys| >= config.maxTokens {
          return false;
        }
      }
      SetValid(entries, peer, Entry(token, platform, now, ts));
      entries := entries.Set(peer, Entry(token, platform, now, ts));
      return true;
    }

    method GetToken(peer: string, now: int) returns (entry: Option<Entry>)
      requires Valid()
      modifies this`entries
      ensures Valid() && (entry, Contents()) == Get(old(Contents()), peer, now, config)
    {
      if !entries.Has(peer) {
        return None;
      }
      var found := entries.items[peer];
      if found.updatedAt < now - config.ttl {
        DeleteValid(entries, peer);
        entries := entries.Delete(peer);
        return None;
      }
      return Some(found);
    }

    method DeleteToken(peer: string) returns (was: bool)
      requires Valid()
      modifies this`entries
      ensures Valid() && was == (peer in old(Contents())) && Contents() == old(Contents()) - {peer}
    {
      was := entries.Has(peer);
      DeleteValid(entries, peer);
      entries := entries.Delete(peer);
    }
  }

  /** A map has as many keys as entries. */
  lemma SizeIs<V>(m: JsMap<string, V>)
    requires m.Valid()
    ensures |m.keys| == |m.items|
  {
    KeysSize(m.keys, m.items.Keys);
  }

  lemma {:induction false} KeysSize(keys: seq<string>, s: set<string>)
    requires Distinct(keys) && forall k :: k in keys <==> k in s
    ensures |keys| == |s|
  {
    if keys == [] {
      assert s == {};
    } else {
      KeysSize(keys[1..], s - {keys[0]});
    }
  }

  /* ---- on disk ---- */

  datatype Row = Row(peer: string, entry: Entry)

  /** Rows whose updated_at is not before the cutoff: what DELETE ... WHERE updated_at < ? leaves. */
  function KeptRows(rows: seq<Row>, cutoff: int): seq<Row> {
    if rows == [] then []
    else (if rows[0].entry.updatedAt < cutoff then [] else [rows[0]]) + KeptRows(rows[1..], cutoff)
  }

  function RemoveRow(rows: seq<Row>, peer: string): seq<Row> {
    if rows == [] then []
    else (if rows[0].peer == peer then [] else [rows[0]]) + RemoveRow(rows[1..], peer)
  }

  function SelectOne(rows: seq<Row>, peer: string): Option<Entry> {
    if rows == [] then None
    else if rows[0].peer == peer then Some(rows[0].entry)
    else SelectOne(rows[1..], peer)
  }

  /** The primary key. */
  ghost predicate UniquePeers(rows: seq<Row>) {
    forall i, j :: 0 <= i < j < |rows| ==> rows[i].peer != rows[j].peer
  }

  /** The table as a map. */
  function Table(rows: seq<Row>): Store {
    if rows == [] then map[] else Table(rows[1..])[rows[0].peer := rows[0].entry]
  }

  lemma {:induction false} TableFacts(rows: seq<Row>)
    requires UniquePeers(rows)
    ensures |Table(rows)| == |rows|
    ensures forall p :: p in Table(rows) ==> exists i :: 0 <= i < |rows| && rows[i].peer == p
  {
    if rows != [] {
      var rest := rows[1..];
      TableFacts(rest);
      forall p | p in Table(rest) ensures exists i :: 1 <= i < |rows| && rows[i].peer == p {
        var i :| 0 <= i < |rest| && rest[i].peer == p;
        assert rows[i + 1].peer == p;
      }
    }
  }

  lemma {:induction false} SelectFromTable(rows: seq<Row>, peer: string)
    requires UniquePeers(rows)
    ensures SelectOne(rows, peer) == if peer in Table(rows) then Some(Table(rows)[peer]) else None
  {
    if rows != [] {
      SelectFromTable(rows[1..], peer);
    }
  }

  lemma HeadAbsent(rows: seq<Row>)
    requires UniquePeers(rows) && rows != []
    ensures UniquePeers(rows[1..]) && rows[0].peer !in Table(rows[1..])
  {
    TableFacts(rows[1..]);
  }

  lemma {:induction false} KeptIn(rows: seq<Row>, cutoff: int)
    requires UniquePeers(rows)
    ensures UniquePeers(KeptRows(rows, cutoff))
    ensures forall row :: row in KeptRows(rows, cutoff) ==> row in rows
  {
    if rows != [] {
      KeptIn(rows[1..], cutoff);
      assert forall row :: row in KeptRows(rows[1..], cutoff) ==> row.peer != rows[0].peer;
    }
  }

  lemma {:induction false} KeptTable(rows: seq<Row>, cutoff: int)
    requires UniquePeers(rows)
    ensures Table(KeptRows(rows, cutoff)) == Unexpired(Table(rows), cutoff)
  {
    if rows != [] {
      HeadAbsent(rows);
      hide UniquePeers;
      KeptTable(rows[1..], cutoff);
      var p, e, rest := rows[0].peer, rows[0].entry, Table(rows[1..]);
      if e.updatedAt < cutoff {
        assert KeptRows(rows, cutoff) == KeptRows(rows[1..], cutoff);
        assert Unexpired(rest[p := e], cutoff) == Unexpired(rest, cutoff);
      } else {
        assert KeptRows(rows, cutoff)[1..] == KeptRows(rows[1..], cutoff);
        assert Unexpired(rest[p := e], cutoff) == Unexpired(rest, cutoff)[p := e];
      }
    }
  }

  lemma {:induction false} RemovedIn(rows: seq<Row>, peer: string)
    requires UniquePeers(rows)
    ensures UniquePeers(RemoveRow(rows, peer))
    ensures forall row :: row in RemoveRow(rows, peer) <==> row in rows && row.peer != peer
  {
    if rows != [] {
      RemovedIn(rows[1..], peer);
      assert forall row :: row in RemoveRow(rows[1..], peer) ==> row.peer != rows[0].peer;
    }
  }

  lemma {:induction false} RemovedTable(rows: seq<Row>, peer: string)
    requires UniquePeers(rows)
    ensures Table(RemoveRow(rows, peer)) == Table(rows) - {peer}
  {
    if rows != [] {
      HeadAbsent(rows);
      hide UniquePeers;
      RemovedTable(rows[1..], peer);
      var p, e, rest := rows[0].peer, rows[0].entry, Table(rows[1..]);
      if p == peer {
        assert RemoveRow(rows, peer) == RemoveRow(rows[1..], peer);
        assert rest[p := e] - {peer} == rest - {peer};
      } else {
        assert RemoveRow(rows, peer)[1..] == RemoveRow(rows[1..], peer);
        assert rest[p := e] - {peer} == (rest - {peer})[p := e];
      }
    }
  }

  class SqliteTokenRegistry {
    const config: Config
    var rows: seq<Row>

    ghost predicate Valid()
      reads this
    {
      UniquePeers(rows)
    }

    function Contents(): Store
      reads this
    {
      Table(rows)
    }

    constructor (config: Config)
      ensures Valid() && this.config == config && Contents() == map[]
    {
      this.config := config;
      rows := [];
    }

    /** INSERT ... ON CONFLICT (peer_id) DO UPDATE. */
    method Upsert(peer: string, entry: Entry)
      requires Valid()
      modifies this`rows
      ensures Valid() && Contents() == old(Contents())[peer := entry]
    {
      RemovedTable(rows, peer);
      RemovedIn(rows, peer);
      rows := [Row(peer, entry)] + RemoveRow(rows, peer);
      assert rows[1..] == RemoveRow(old(rows), peer);
      assert (old(Contents()) - {peer})[peer := entry] == old(Contents())[peer := entry];
    }

    method SetToken(peer: string, token: string, platform: string, ts: int, now: int) returns (ok: bool)
      requires Valid()
      modifies this`rows
      ensures Valid() && (ok, Contents()) == Set(old(Contents()), peer, token, platform, ts, now, config)
    {
      SelectFromTable(rows, peer);
      var previous := SelectOne(rows, peer);
      if previous.Some? && ts <= previous.value.ts {
        return false;
      }
      TableFacts(rows);
      if previous.None? && |rows| >= config.maxTokens {
        KeptTable(rows, now - config.ttl);
        KeptIn(rows, now - config.ttl);
        rows := KeptRows(rows, now - config.ttl);
        TableFacts(rows);
        if |rows| >= config.maxTokens {
          return false;
        }
      }
      Upsert(peer, Entry(token, platform, now, ts));
      return true;
    }

    method GetToken(peer: string, now: int) returns (entry: Option<Entry>)
      requires Valid()
      modifies this`rows
      ensures Valid() && (entry, Contents()) == Get(old(Contents()), peer, now, config)
    {
      SelectFromTable(rows, peer);
      var found := SelectOne(rows, peer);
      if found.None? {
        return None;
      }
      if found.value.updatedAt < now - config.ttl {
        RemovedTable(rows, peer);
        RemovedIn(rows, peer);
        rows := RemoveRow(rows, peer);
        return None;
      }
      return found;
    }

    method DeleteToken(peer: string) returns (was: bool)
      requires Valid()
      modifies this`rows
      ensures Valid() && was == (peer in old(Contents())) && Contents() == old(Contents()) - {peer}
    {
      RemovedTable(rows, peer);
      RemovedIn(rows, peer);
      SelectFromTable(rows, peer);
      TableFacts(rows);
      TableFacts(RemoveRow(rows, peer));
      was := |RemoveRow(rows, peer)| < |rows|;
      rows := RemoveRow(rows, peer);
    }
  }

  /* ---- interchangeable ---- */

  datatype Op =
    | SetOp(peer: string, token: string, platform: string, ts: int, now: int)
    | GetOp(peer: string, now: int)
    | DeleteOp(peer: string)

  datatype Answer = Flag(ok: bool) | Found(entry: Option<Entry>)

  function Step(s: Store, op: Op, c: Config): (Answer, Store) {
    match op
    case SetOp(peer, token, platform, ts, now) =>
      var (ok, s') := Set(s, peer, token, platform, ts, now, c); (Flag(ok), s')
    case GetOp(peer, now) => var (entry, s') := Get(s, peer, now, c); (Found(entry), s')
    case DeleteOp(peer) => (Flag(peer in s), s - {peer})
  }

  function Run(s: Store, ops: seq<Op>, c: Config): Store
    decreases |ops|
  {
    if ops == [] then s else Run(Step(s, ops[0], c).1, ops[1..], c)
  }

  function Answers(s: Store, ops: seq<Op>, c: Config): seq<Answer>
    decreases |ops|
  {
    if ops == [] then [] else [Step(s, ops[0], c).0] + Answers(Step(s, ops[0], c).1, ops[1..], c)
  }

  /** One operation on both registries. */
  method OnBoth(m: MemoryTokenRegistry, d: SqliteTokenRegistry, op: Op) returns (x: Answer, y: Answer)
    requires m.Valid() && d.Valid() && m.config == d.config && m.Contents() == d.Contents()
    modifies m, d
    ensures m.Valid() && d.Valid()
    ensures x == y && (x, m.Contents()) == Step(old(m.Contents()), op, m.config)
    ensures m.Contents() == d.Contents()
  {
    match op
    case SetOp(peer, token, platform, ts, now) =>
      var ok := m.SetToken(peer, token, platform, ts, now);
      var ok' := d.SetToken(peer, token, platform, ts, now);
      return Flag(ok), Flag(ok');
    case GetOp(peer, now) =>
      var entry := m.GetToken(peer, now);
      var entry' := d.GetToken(peer, now);
      return Found(entry), Found(entry');
    case DeleteOp(peer) =>
      var was := m.DeleteToken(peer);
      var was' := d.DeleteToken(peer);
      return Flag(was), Flag(was');
  }

  /** Both registries, given the same operations and clock, give the same answers throughout. */
  method InLockstep(ops: seq<Op>, c: Config) returns (memory: seq<Answer>, disk: seq<Answer>)
    ensures memory == disk == Answers(map[], ops, c)
  {
    var m := new MemoryTokenRegistry(c);
    var d := new SqliteTokenRegistry(c);
    memory, disk := [], [];
    assert ops[0..] == ops;
    for i := 0 to |ops|
      invariant memory == disk && memory + Answers(m.Contents(), ops[i..], c) == Answers(map[], ops, c)
      invariant m.Valid() && d.Valid() && m.config == d.config == c
      invariant fresh(m) && fresh(d) && m.Contents() == d.Contents()
    {
      hide Step, Table, Answers;
      FirstAnswer(m.Contents(), ops, i, c);
      var x, y := OnBoth(m, d, ops[i]);
      assert memory + ([x] + Answers(m.Contents(), ops[i + 1..], c)) ==
             memory + [x] + Answers(m.Contents(), ops[i + 1..], c);
      memory, disk := memory + [x], disk + [y];
    }
    assert ops[|ops|..] == [] && memory + [] == memory;
  }

  lemma FirstAnswer(s: Store, ops: seq<Op>, i: nat, c: Config)
    requires i < |ops|
    ensures Answers(s, ops[i..], c) == [Step(s, ops[i], c).0] + Answers(Step(s, ops[i], c).1, ops[i + 1..], c)
  {
    assert ops[i..][1..] == ops[i + 1..];
  }

  /* ---- no rollback, no overflow ---- */

  /** `peer` is present before and after every step of the run. */
  ghost predicate Stays(s: Store, ops: seq<Op>, c: Config, peer: string)
    decreases |ops|
  {
    peer in s && (ops == [] || Stays(Step(s, ops[0], c).1, ops[1..], c, peer))
  }

  /** While a peer stays registered its ts never falls, and any change to its entry raises it. */
  lemma {:induction false} NoRollback(s: Store, ops: seq<Op>, c: Config, peer: string)
    requires Stays(s, ops, c, peer)
    ensures peer in Run(s, ops, c)
    ensures Run(s, ops, c)[peer] == s[peer] || Run(s, ops, c)[peer].ts > s[peer].ts
    decreases |ops|
  {
    if ops != [] {
      NoRollback(Step(s, ops[0], c).1, ops[1..], c, peer);
    }
  }

  lemma SetWithinCap(s: Store, peer: string, token: string, platform: string, ts: int, now: int, c: Config)
    requires |s| <= c.maxTokens
    ensures |Set(s, peer, token, platform, ts, now, c).1| <= c.maxTokens
  {
    var entry := Entry(token, platform, now, ts);
    if peer in s {
      SubmapSize(s[peer := entry], s);
    } else {
      var kept := if |s| >= c.maxTokens then Unexpired(s, now - c.ttl) else s;
      SubmapSize(kept, s);
      OneMore(kept, peer, entry);
    }
  }

  lemma OneMore(s: Store, peer: string, entry: Entry)
    ensures |s[peer := entry]| <= |s| + 1
  {
    var t := s[peer := entry];
    assert t.Keys == s.Keys + {peer};
    assert |t| == |t.Keys| && |s| == |s.Keys|;
  }

  lemma StepWithinCap(s: Store, op: Op, c: Config)
    requires |s| <= c.maxTokens
    ensures |Step(s, op, c).1| <= c.maxTokens
  {
    match op
    case SetOp(peer, token, platform, ts, now) => SetWithinCap(s, peer, token, platform, ts, now, c);
    case GetOp(peer, _) => SubmapSize(s - {peer}, s);
    case DeleteOp(peer) => SubmapSize(s - {peer}, s);
  }

  /** The registry never holds more than maxTokens. */
  lemma {:induction false} WithinCap(s: Store, ops: seq<Op>, c: Config)
    requires |s| <= c.maxTokens
    ensures |Run(s, ops, c)| <= c.maxTokens
    decreases |ops|
  {
    hide Step;
    if ops != [] {
      StepWithinCap(s, ops[0], c);
      WithinCap(Step(s, ops[0], c).1, ops[1..], c);
    }
  }

  lemma SubmapSize(a: Store, b: Store)
    requires a.Keys <= b.Keys
    ensures |a| <= |b|
  {
    assert |a| == |a.Keys| && |b| == |b.Keys|;
    assert b.Keys == a.Keys + (b.Keys - a.Keys);
  }

  /* ---- what a set stores and a read returns ---- */

  /** Entries that a sweep would spare. */
  function Live(s: Store, now: int, c: Config): set<string> {
    set p | p in s && now - s[p].updatedAt <= c.ttl
  }

  /**
   * A set is taken if and only if it brings a registered peer a later ts, or an unregistered one finds
   * fewer than maxTokens live entries. Taken or not, it costs other peers nothing but expired entries,
   * and those only when an unregistered peer finds the registry full.
   */
  lemma SetExactly(s: Store, peer: string, token: string, platform: string, ts: int, now: int, c: Config)
    ensures var (ok, s') := Set(s, peer, token, platform, ts, now, c);
      && (ok <==> if peer in s then ts > s[peer].ts else |Live(s, now, c)| < c.maxTokens)
      && (ok ==> peer in s' && s'[peer] == Entry(token, platform, now, ts))
      && (!ok ==> (peer in s' <==> peer in s) && (peer in s ==> s'[peer] == s[peer]))
      && (forall p :: p in s' && p != peer ==> p in s && s'[p] == s[p])
      && (forall p :: p in s && p !in s' ==>
            p !in Live(s, now, c) && peer !in s && |s| >= c.maxTokens)
  {
    assert Unexpired(s, now - c.ttl).Keys == Live(s, now, c);
    assert |Unexpired(s, now - c.ttl)| == |Unexpired(s, now - c.ttl).Keys| && |s| == |s.Keys|;
    SubmapSize(Unexpired(s, now - c.ttl), s);
  }

  /** A read answers with the peer's entry if and only if it is live, and costs only an expired entry its place. */
  lemma GetExactly(s: Store, peer: string, now: int, c: Config)
    ensures var (entry, s') := Get(s, peer, now, c);
      && (entry.Some? <==> peer in Live(s, now, c))
      && (entry.Some? ==> entry.value == s[peer])
      && s' == if peer in s && entry.None? then s - {peer} else s
  {
  }

  /** The operation is not a deletion of the peer, nor a set with a later ts than its own. */
  predicate Spares(op: Op, peer: string, ts: int) {
    match op
    case SetOp(p, _, _, later, _) => p != peer || later <= ts
    case GetOp(_, _) => true
    case DeleteOp(p) => p != peer
  }

  /** The operation reads no clock past `until`. */
  predicate By(op: Op, until: int) {
    op.DeleteOp? || op.now <= until
  }

  lemma {:induction false} StaysUntil(s: Store, ops: seq<Op>, c: Config, peer: string, until: int)
    requires peer in s && until - s[peer].updatedAt <= c.ttl
    requires forall op :: op in ops ==> Spares(op, peer, s[peer].ts) && By(op, until)
    ensures peer in Run(s, ops, c) && Run(s, ops, c)[peer] == s[peer]
    decreases |ops|
  {
    if ops != [] {
      assert ops[0] in ops && forall op :: op in ops[1..] ==> op in ops;
      StaysUntil(Step(s, ops[0], c).1, ops[1..], c, peer, until);
    }
  }

  /**
   * A read returns what the last accepted set stored: after any later run that neither deletes the
   * peer nor sets it with a later ts, exactly as long as the set is no older than the lifetime.
   */
  lemma ReadReturnsSet(s: Store, peer: string, token: string, platform: string, ts: int, at: int, ops: seq<Op>,
                       c: Config, now: int)
    requires Set(s, peer, token, platform, ts, at, c).0
    requires forall op :: op in ops ==> Spares(op, peer, ts) && By(op, now)
    ensures var s' := Run(Set(s, peer, token, platform, ts, at, c).1, ops, c);
      now - at <= c.ttl ==> Get(s', peer, now, c) == (Some(Entry(token, platform, at, ts)), s')
    ensures var s' := Run(Set(s, peer, token, platform, ts, at, c).1, ops, c);
      now - at > c.ttl ==> Get(s', peer, now, c).0 != Some(Entry(token, platform, at, ts))
  {
    SetExactly(s, peer, token, platform, ts, at, c);
    if now - at <= c.ttl {
      StaysUntil(Set(s, peer, token, platform, ts, at, c).1, ops, c, peer, now);
    }
  }
}
