/** Public copies of posts: quotas per author and the sweep that keeps the table small. */
module Posts {
  import opened Wrappers

  type PostId = string

  datatype Post = Post(author: string, publicKey: string, payload: string, signature: string, bytes: nat,
                       createdAt: int, updatedAt: int)

  type Table = map<PostId, Post>

  /** SELECT SUM(bytes) over some rows. */
  ghost function Sum(table: Table, ids: set<PostId>): nat
    requires ids <= table.Keys
  {
    if ids == {} then 0
    else
      var id :| id in ids;
      table[id].bytes + Sum(table, ids - {id})
  }

  lemma {:induction false} SumTakes(table: Table, ids: set<PostId>, id: PostId)
    requires ids <= table.Keys && id in ids
    ensures Sum(table, ids) == table[id].bytes + Sum(table, ids - {id})
    decreases |ids|
  {
    var first :| first in ids && Sum(table, ids) == table[first].bytes + Sum(table, ids - {first});
    if first != id {
      SumTakes(table, ids - {first}, id);
      SumTakes(table, ids - {id}, first);
      assert ids - {first} - {id} == ids - {id} - {first};
    }
  }

  lemma {:induction false} SumSame(table: Table, other: Table, ids: set<PostId>)
    requires ids <= table.Keys && ids <= other.Keys
    requires forall id :: id in ids ==> table[id].bytes == other[id].bytes
    ensures Sum(table, ids) == Sum(other, ids)
    decreases |ids|
  {
    if ids != {} {
      var id :| id in ids;
      SumTakes(table, ids, id);
      SumTakes(other, ids, id);
      SumSame(table, other, ids - {id});
    }
  }

  lemma {:induction false} SumGrows(table: Table, some: set<PostId>, ids: set<PostId>)
    requires some <= ids <= table.Keys
    ensures Sum(table, some) <= Sum(table, ids) && |some| <= |ids|
    decreases |ids|
  {
    if ids <= some {
      assert some == ids;
    } else {
      var id :| id in ids && id !in some;
      SumTakes(table, ids, id);
      SumGrows(table, some, ids - {id});
    }
  }

  function By(table: Table, author: string): set<PostId> {
    set id | id in table && table[id].author == author
  }

  ghost function BytesBy(table: Table, author: string): nat {
    Sum(table, By(table, author))
  }

  ghost function Total(table: Table): nat {
    Sum(table, table.Keys)
  }

  datatype Request = Request(id: PostId, author: string, publicKey: string, payload: string, signature: string,
                             bytes: nat, now: int)

  datatype Quota = Quota(maxBytes: nat, maxPosts: nat)

  datatype Verdict = Stored | Owned | CountQuota | ByteQuota

  ghost function Judge(table: Table, r: Request, quota: Quota): Verdict {
    if r.id in table && table[r.id].author != r.author then Owned
    else if r.id !in table && |By(table, r.author)| >= quota.maxPosts then CountQuota
    else if BytesBy(table, r.author) - (if r.id in table then table[r.id].bytes else 0) + r.bytes > quota.maxBytes
    then ByteQuota
    else Stored
  }

  function Enter(table: Table, r: Request): Table {
    var createdAt := if r.id in table then table[r.id].createdAt else r.now;
    table[r.id := Post(r.author, r.publicKey, r.payload, r.signature, r.bytes, createdAt, r.now)]
  }

  ghost function Put(table: Table, r: Request, quota: Quota): Table {
    if Judge(table, r, quota) == Stored then Enter(table, r) else table
  }

  function Unexpired(table: Table, cutoff: int): Table {
    map id | id in table && table[id].updatedAt >= cutoff :: table[id]
  }

  // The rows given up are the oldest ones.
  predicate OldestGone(live: Table, after: Table) {
    forall gone, kept :: gone in live && gone !in after && kept in after && kept in live ==>
      live[gone].updatedAt <= live[kept].updatedAt
  }

  // A row given up that is as young as any other, and without giving it up the ceiling breaks.
  ghost predicate LastStraw(live: Table, after: Table, ceiling: int, last: PostId)
    requires after.Keys <= live.Keys
  {
    last in live && last !in after && Total(after) + live[last].bytes > ceiling &&
    forall gone :: gone in live && gone !in after ==> live[gone].updatedAt <= live[last].updatedAt
  }

  /** What a sweep may leave. Rows of equal age may go in any order. */
  ghost predicate Swept(before: Table, after: Table, cutoff: int, ceiling: int) {
    var live := Unexpired(before, cutoff);
    && after.Keys <= live.Keys && (forall id :: id in after ==> after[id] == live[id])
    && (after == map[] || Total(after) <= ceiling)
    && OldestGone(live, after)
    && (after == live || exists last :: LastStraw(live, after, ceiling, last))
  }

  ghost predicate WithinQuota(table: Table, quota: Quota) {
    forall author :: BytesBy(table, author) <= quota.maxBytes && |By(table, author)| <= quota.maxPosts
  }

  lemma EnterUsage(table: Table, r: Request, author: string)
    requires r.id in table ==> table[r.id].author == r.author
    ensures author != r.author ==>
              BytesBy(Enter(table, r), author) == BytesBy(table, author) &&
              By(Enter(table, r), author) == By(table, author)
    ensures author == r.author ==>
              && By(Enter(table, r), author) == By(table, author) + {r.id}
              && BytesBy(Enter(table, r), author) ==
                 BytesBy(table, author) - (if r.id in table then table[r.id].bytes else 0) + r.bytes
  {
    var after := Enter(table, r);
    if author != r.author {
      assert By(after, author) == By(table, author);
      SumSame(table, after, By(table, author));
    } else {
      var others := By(table, author) - {r.id};
      assert By(after, author) == others + {r.id};
      SumTakes(after, By(after, author), r.id);
      assert By(after, author) - {r.id} == others;
      SumSame(table, after, others);
      if r.id in table {
        SumTakes(table, By(table, author), r.id);
      } else {
        assert By(table, author) == others;
      }
    }
  }

  lemma PutWithinQuota(table: Table, r: Request, quota: Quota)
    requires WithinQuota(table, quota)
    ensures WithinQuota(Put(table, r, quota), quota)
  {
    if Judge(table, r, quota) == Stored {
      forall author
        ensures BytesBy(Enter(table, r), author) <= quota.maxBytes && |By(Enter(table, r), author)| <= quota.maxPosts
      {
        EnterUsage(table, r, author);
        if author == r.author && r.id in table {
          assert By(Enter(table, r), author) == By(table, author);
        }
      }
    }
  }

  lemma FewerWithinQuota(table: Table, after: Table, quota: Quota)
    requires WithinQuota(table, quota)
    requires after.Keys <= table.Keys && forall id :: id in after ==> after[id] == table[id]
    ensures WithinQuota(after, quota)
  {
    forall author
      ensures BytesBy(after, author) <= quota.maxBytes && |By(after, author)| <= quota.maxPosts
    {
      SumSame(table, after, By(after, author));
      SumGrows(table, By(after, author), By(table, author));
    }
  }

  datatype Action =
    | Putting(request: Request)
    | Deleting(id: PostId, author: string)
    | DeletingByKey(id: PostId, publicKey: string)
    | Sweeping(cutoff: int, ceiling: int)

  ghost predicate Next(before: Table, after: Table, action: Action, quota: Quota) {
    match action
    case Putting(r) => after == Put(before, r, quota)
    case Deleting(id, author) =>
      after == if id in before && before[id].author == author then before - {id} else before
    case DeletingByKey(id, key) =>
      after == if id in before && before[id].publicKey == key then before - {id} else before
    case Sweeping(cutoff, ceiling) => Swept(before, after, cutoff, ceiling)
  }

  ghost predicate IsRun(tables: seq<Table>, actions: seq<Action>, quota: Quota) {
    |tables| == |actions| + 1 &&
    forall i :: 0 <= i < |actions| ==> Next(tables[i], tables[i + 1], actions[i], quota)
  }

  predicate LiveThroughout(tables: seq<Table>, id: PostId) {
    forall table :: table in tables ==> id in table
  }

  predicate SameOrigin(a: Post, b: Post) {
    a.author == b.author && a.createdAt == b.createdAt
  }

  lemma StepKeeps(before: Table, after: Table, action: Action, quota: Quota)
    requires Next(before, after, action, quota)
    ensures WithinQuota(before, quota) ==> WithinQuota(after, quota)
    ensures forall id :: id in before && id in after ==> SameOrigin(before[id], after[id])
  {
    if WithinQuota(before, quota) {
      match action
      case Putting(r) => PutWithinQuota(before, r, quota);
      case _ => FewerWithinQuota(before, after, quota);
    }
  }

  /** In every run the quotas hold at every moment, and a post that stays live keeps its author and its date
    * of creation; only after a deletion or a sweep can another author take the id.
    */
  lemma {:induction false} QuotasAndAuthors(tables: seq<Table>, actions: seq<Action>, quota: Quota)
    requires IsRun(tables, actions, quota) && WithinQuota(tables[0], quota)
    ensures forall table :: table in tables ==> WithinQuota(table, quota)
    ensures forall id :: LiveThroughout(tables, id) ==> SameOrigin(tables[0][id], tables[|actions|][id])
    decreases |actions|
  {
    hide Next, WithinQuota;
    if actions != [] {
      var rest := tables[1..];
      StepKeeps(tables[0], tables[1], actions[0], quota);
      assert IsRun(rest, actions[1..], quota);
      QuotasAndAuthors(rest, actions[1..], quota);
      assert tables == [tables[0]] + rest;
      forall id | LiveThroughout(tables, id)
        ensures SameOrigin(tables[0][id], tables[|actions|][id])
      {
        assert LiveThroughout(rest, id);
        assert tables[0] in tables && tables[1] in tables;
        assert SameOrigin(tables[0][id], tables[1][id]);
        assert rest[|actions| - 1] == tables[|actions|];
      }
    }
  }

  // A further post of these bytes is within its author's quotas.
  ghost predicate HasRoom(table: Table, author: string, bytes: nat, quota: Quota) {
    |By(table, author)| < quota.maxPosts && BytesBy(table, author) + bytes <= quota.maxBytes
  }

  /** In any table, an id is refused as another's exactly while it is live under another author, and then nothing
    * changes; from any table without it, exactly a request within its author's quotas takes it; and no request
    * ever moves a live post to another author.
    */
  lemma IdTakenExactly(table: Table, r: Request, quota: Quota)
    ensures Judge(table, r, quota) == Owned <==> r.id in table && table[r.id].author != r.author
    ensures Judge(table, r, quota) == Owned ==> Put(table, r, quota) == table
    ensures r.id !in table ==> (r.id in Put(table, r, quota) <==> HasRoom(table, r.author, r.bytes, quota))
    ensures r.id in Put(table, r, quota) ==>
              Put(table, r, quota)[r.id].author == if r.id in table then table[r.id].author else r.author
  {
  }

  /** A request for a free id or its author's own post is judged by what its author would have afterwards: the
    * bytes of the post it replaces are given back first, and only a further post counts against their number.
    */
  lemma JudgedExactly(table: Table, r: Request, quota: Quota)
    requires r.id in table ==> table[r.id].author == r.author
    ensures var verdict := Judge(table, r, quota);
            var posts, bytes := |By(table, r.author) + {r.id}|, BytesBy(table - {r.id}, r.author) + r.bytes;
            && (verdict == Stored <==> (r.id in table || posts <= quota.maxPosts) && bytes <= quota.maxBytes)
            && (verdict == CountQuota <==> r.id !in table && posts > quota.maxPosts)
            && (verdict == ByteQuota <==> (r.id in table || posts <= quota.maxPosts) && bytes > quota.maxBytes)
  {
    hide BytesBy, By;
    GivenBack(table, r);
  }

  /** A post that is stored reads as it was sent, under its first date; nothing else changes, and nothing at all
    * when the request is refused.
    */
  lemma StoredAsSent(table: Table, r: Request, quota: Quota)
    ensures Judge(table, r, quota) != Stored ==> Put(table, r, quota) == table
    ensures Judge(table, r, quota) == Stored ==>
              var after := Put(table, r, quota);
              && after.Keys == table.Keys + {r.id}
              && (forall id :: id in table && id != r.id ==> after[id] == table[id])
              && after[r.id].author == r.author && after[r.id].publicKey == r.publicKey
              && after[r.id].payload == r.payload && after[r.id].signature == r.signature
              && after[r.id].bytes == r.bytes && after[r.id].updatedAt == r.now
              && after[r.id].createdAt == if r.id in table then table[r.id].createdAt else r.now
  {
    hide Judge;
  }

  lemma GivenBack(table: Table, r: Request)
    requires r.id in table ==> table[r.id].author == r.author
    ensures BytesBy(table, r.author) - (if r.id in table then table[r.id].bytes else 0)
         == BytesBy(table - {r.id}, r.author)
    ensures |By(table, r.author) + {r.id}| == |By(table, r.author)| + (if r.id in table then 0 else 1)
  {
    var others := By(table, r.author) - {r.id};
    assert By(table - {r.id}, r.author) == others;
    SumSame(table, table - {r.id}, others);
    if r.id in table {
      SumTakes(table, By(table, r.author), r.id);
      assert By(table, r.author) + {r.id} == By(table, r.author);
    } else {
      assert others == By(table, r.author);
    }
  }

  /** The comment above putPublicPost calls an id taken for ever. In any table, another author's request for a
    * live id is refused; once its author deletes the post, that same request takes the id exactly when it is
    * within its own author's quotas, whatever the first author has used.
    */
  lemma IdPasses(table: Table, r: Request, quota: Quota)
    requires r.id in table && table[r.id].author != r.author
    ensures var freed := table - {r.id};
            && Next(table, freed, Deleting(r.id, table[r.id].author), quota)
            && Judge(table, r, quota) == Owned && Put(table, r, quota) == table
            && (HasRoom(table, r.author, r.bytes, quota) <==>
                r.id in Put(freed, r, quota) && Put(freed, r, quota)[r.id].author == r.author)
  {
    var freed := table - {r.id};
    assert By(freed, r.author) == By(table, r.author);
    SumSame(table, freed, By(table, r.author));
    IdTakenExactly(table, r, quota);
    IdTakenExactly(freed, r, quota);
  }

  /** A sweep leaves nothing expired, stays under the ceiling, and gives up nothing while there is room. */
  lemma SweepMeans(before: Table, after: Table, cutoff: int, ceiling: int)
    requires Swept(before, after, cutoff, ceiling)
    ensures forall id :: id in after ==> id in before && after[id] == before[id] && before[id].updatedAt >= cutoff
    ensures Total(Unexpired(before, cutoff)) <= ceiling <==>
            after == Unexpired(before, cutoff) && Total(after) <= ceiling
    ensures 0 <= ceiling ==> Total(after) <= ceiling
  {
    var live := Unexpired(before, cutoff);
    if Total(live) <= ceiling && after != live {
      var last :| LastStraw(live, after, ceiling, last);
      SumTakes(live, after.Keys + {last}, last);
      assert after.Keys + {last} - {last} == after.Keys;
      SumSame(live, after, after.Keys);
      SumGrows(live, after.Keys + {last}, live.Keys);
    }
  }

  class PostTable {
    var posts: Table

    constructor ()
      ensures posts == map[]
    {
      posts := map[];
    }

    /** What a set of rows adds up to. */
    method SumBytes(ids: set<PostId>) returns (sum: nat)
      requires ids <= posts.Keys
      ensures sum == Sum(posts, ids)
    {
      var rest := ids;
      sum := 0;
      while rest != {}
        invariant rest <= ids
        invariant sum + Sum(posts, rest) == Sum(posts, ids)
        decreases |rest|
      {
        var id :| id in rest;
        SumTakes(posts, rest, id);
        sum, rest := sum + posts[id].bytes, rest - {id};
      }
    }

    method PutPublicPost(r: Request, quota: Quota) returns (verdict: Verdict)
      modifies this
      ensures verdict == Judge(old(posts), r, quota)
      ensures posts == Put(old(posts), r, quota)
    {
      if r.id in posts && posts[r.id].author != r.author {
        return Owned;
      }
      var own := By(posts, r.author);
      var used := SumBytes(own);
      var previous := if r.id in posts then posts[r.id].bytes else 0;
      if r.id !in posts && |own| >= quota.maxPosts {
        return CountQuota;
      }
      if used - previous + r.bytes > quota.maxBytes {
        return ByteQuota;
      }
      posts := Enter(posts, r);
      return Stored;
    }

    method DeletePublicPost(id: PostId, author: string) returns (deleted: bool)
      modifies this
      ensures Next(old(posts), posts, Deleting(id, author), Quota(0, 0))
      ensures deleted <==> id in old(posts) && id !in posts
    {
      deleted := id in posts && posts[id].author == author;
      if deleted {
        posts := posts - {id};
      }
    }

    method DeletePublicPostByKey(id: PostId, publicKey: string) returns (deleted: bool)
      modifies this
      ensures Next(old(posts), posts, DeletingByKey(id, publicKey), Quota(0, 0))
      ensures deleted <==> id in old(posts) && id !in posts
    {
      deleted := id in posts && posts[id].publicKey == publicKey;
      if deleted {
        posts := posts - {id};
      }
    }

    /** ORDER BY updated_at ASC LIMIT batch; rows of equal age come in any order. */
    method SelectOldest(batch: nat) returns (oldest: seq<PostId>)
      ensures |oldest| <= batch && (batch > 0 && posts != map[] ==> oldest != [])
      ensures OldestFirst(posts, oldest)
    {
      hide OldestFirst, Elements;
      var rest := posts.Keys;
      oldest := [];
      NoneOldest(posts);
      while rest != {} && |oldest| < batch
        invariant rest == posts.Keys - Elements(oldest)
        invariant |oldest| <= batch
        invariant OldestFirst(posts, oldest)
        decreases |rest|
      {
        OldestExists(posts, rest);
        var next :| next in rest && forall id :: id in rest ==> posts[next].updatedAt <= posts[id].updatedAt;
        AppendOldest(posts, oldest, rest, next);
        oldest, rest := oldest + [next], rest - {next};
      }
    }

    method GcPublicPosts(now: int, ttl: int, ceiling: int, batch: nat) returns (expired: nat, evicted: nat)
      requires batch > 0
      modifies this
      ensures Swept(old(posts), posts, now - ttl, ceiling)
      ensures expired + evicted + |posts| == |old(posts)|
      ensures expired == |set id | id in old(posts) && old(posts)[id].updatedAt < now - ttl|
    {
      hide Progress, OldestFirst, Unexpired, Swept, Elements;
      ghost var before := posts;
      ghost var live := Unexpired(posts, now - ttl);
      var stale := set id | id in posts && posts[id].updatedAt < now - ttl;
      posts, expired, evicted := posts - stale, |stale|, 0;
      StartSweep(before, stale, now - ttl, ceiling);
      SizeWithout(before, stale);
      var total := SumBytes(posts.Keys);
      ghost var last: Option<PostId> := None;
      while total > ceiling
        invariant Progress(live, posts, ceiling, last)
        invariant total == Total(posts)
        invariant evicted + |posts| == |live|
        decreases |posts|
      {
        var oldest := SelectOldest(batch);
        if oldest == [] {
          break;
        }
        ghost var start := posts;
        NoneOldest(posts);
        var i := 0;
        while i < |oldest|
          invariant i <= |oldest|
          invariant posts == start - Elements(oldest[..i])
          invariant i > 0 ==> |posts| < |start|
          invariant total > ceiling
          invariant Progress(live, posts, ceiling, last)
          invariant total == Total(posts)
          invariant evicted + |posts| == |live|
        {
          var id := oldest[i];
          OldestNow(start, oldest, i, posts);
          EvictOne(live, posts, ceiling, last, id);
          total := total - posts[id].bytes;
          posts := posts - {id};
          evicted, last, i := evicted + 1, Some(id), i + 1;
          if total <= ceiling {
            break;
          }
        }
      }
      EndSweep(before, posts, now - ttl, ceiling, last);
    }
  }

  // No row is repeated, and none is younger than any row that does not come before it.
  predicate OldestFirst(table: Table, ids: seq<PostId>) {
    forall i :: 0 <= i < |ids| ==> OldestAt(table, ids, i)
  }

  predicate OldestAt(table: Table, ids: seq<PostId>, i: nat)
    requires i < |ids|
  {
    ids[i] in table && ids[i] !in Elements(ids[..i]) &&
    forall id :: id in table && id !in Elements(ids[..i]) ==> table[ids[i]].updatedAt <= table[id].updatedAt
  }

  lemma NoneOldest(table: Table)
    ensures OldestFirst(table, []) && Elements([]) == {}
  {
  }

  lemma OldestNow(start: Table, ids: seq<PostId>, i: nat, posts: Table)
    requires OldestFirst(start, ids) && i < |ids| && posts == start - Elements(ids[..i])
    ensures ids[i] in posts && forall id :: id in posts ==> posts[ids[i]].updatedAt <= posts[id].updatedAt
    ensures posts - {ids[i]} == start - Elements(ids[..i + 1])
  {
    assert OldestAt(start, ids, i);
    assert Elements(ids[..i + 1]) == Elements(ids[..i]) + {ids[i]};
  }

  lemma AppendOldest(table: Table, ids: seq<PostId>, rest: set<PostId>, next: PostId)
    requires OldestFirst(table, ids) && rest == table.Keys - Elements(ids) && next in rest
    requires forall id :: id in rest ==> table[next].updatedAt <= table[id].updatedAt
    ensures OldestFirst(table, ids + [next])
    ensures Elements(ids + [next]) == Elements(ids) + {next}
  {
    forall i | 0 <= i < |ids + [next]|
      ensures OldestAt(table, ids + [next], i)
    {
      assert (ids + [next])[..i] == ids[..i];
      if i < |ids| {
        assert OldestAt(table, ids, i);
      } else {
        assert ids[..i] == ids;
      }
    }
  }

  function Elements(ids: seq<PostId>): set<PostId> {
    set id | id in ids
  }

  lemma SizeWithout(table: Table, ids: set<PostId>)
    requires ids <= table.Keys
    ensures |table - ids| + |ids| == |table|
  {
    assert (table - ids).Keys == table.Keys - ids;
    assert table.Keys == (table.Keys - ids) + ids;
  }

  // The state of a sweep between two deletions; last is the row deleted last.
  ghost predicate Progress(live: Table, posts: Table, ceiling: int, last: Option<PostId>) {
    && posts.Keys <= live.Keys && (forall id :: id in posts ==> posts[id] == live[id])
    && OldestGone(live, posts)
    && if last.None? then posts == live else LastStraw(live, posts, ceiling, last.value)
  }

  lemma StartSweep(before: Table, stale: set<PostId>, cutoff: int, ceiling: int)
    requires stale == set id | id in before && before[id].updatedAt < cutoff
    ensures before - stale == Unexpired(before, cutoff)
    ensures Progress(before - stale, before - stale, ceiling, None)
  {
  }

  lemma EndSweep(before: Table, posts: Table, cutoff: int, ceiling: int, last: Option<PostId>)
    requires Progress(Unexpired(before, cutoff), posts, ceiling, last)
    requires Total(posts) <= ceiling || posts == map[]
    ensures Swept(before, posts, cutoff, ceiling)
  {
    var live := Unexpired(before, cutoff);
    if last.Some? {
      assert LastStraw(live, posts, ceiling, last.value);
    } else {
      assert posts == live;
    }
  }

  lemma EvictOne(live: Table, posts: Table, ceiling: int, last: Option<PostId>, id: PostId)
    requires Progress(live, posts, ceiling, last) && Total(posts) > ceiling
    requires id in posts && forall other :: other in posts ==> posts[id].updatedAt <= posts[other].updatedAt
    ensures Total(posts - {id}) == Total(posts) - posts[id].bytes
    ensures Progress(live, posts - {id}, ceiling, Some(id))
    ensures |posts - {id}| == |posts| - 1
  {
    SumTakes(posts, posts.Keys, id);
    SumSame(posts, posts - {id}, posts.Keys - {id});
    assert (posts - {id}).Keys == posts.Keys - {id};
  }

  lemma {:induction false} OldestExists(table: Table, ids: set<PostId>)
    requires ids != {} && ids <= table.Keys
    ensures exists id :: id in ids && forall other :: other in ids ==> table[id].updatedAt <= table[other].updatedAt
    decreases |ids|
  {
    var id :| id in ids;
    if ids == {id} {
    } else {
      OldestExists(table, ids - {id});
      var rest :| rest in ids - {id} && forall other :: other in ids - {id} ==>
                  table[rest].updatedAt <= table[other].updatedAt;
      var best := if table[id].updatedAt <= table[rest].updatedAt then id else rest;
      assert forall other :: other in ids ==> other == id || other in ids - {id};
      assert best in ids;
    }
  }
}
