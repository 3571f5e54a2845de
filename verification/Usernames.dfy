/** The username registry: claimUsername and releaseUsername over sync_usernames. */
module Usernames {
  import opened Wrappers
  import opened Sets

  const MAX_USERNAMES_PER_ACCOUNT := 8

  /** A blinded name; numbers stand for the text order of the keyed digests. */
  type NameKey = nat

  /** The route admits only ids with a kind prefix, so never the empty text. */
  type SubjectId = s: string | s != "" witness "GR"

  /** Who holds a name: a profile of an account, for itself or for one of its groups or channels. */
  datatype Holder = Holder(account: string, profile: int, subject: Option<SubjectId>)

  datatype Row = Row(holder: Holder, kind: Option<string>, claimedAt: int, publicKey: Option<string>,
                     displayName: Option<string>)

  type Registry = map<NameKey, Row>

  datatype Claim = Claim(key: NameKey, holder: Holder, kind: Option<string>, publicKey: Option<string>,
                         displayName: Option<string>, now: Instant)

  /** The order in which names are given up: longest held first, then by name. */
  predicate Before(rows: Registry, a: NameKey, b: NameKey)
    requires a in rows && b in rows
  {
    rows[a].claimedAt < rows[b].claimedAt || (rows[a].claimedAt == rows[b].claimedAt && a < b)
  }

  function Released(rows: Registry, holder: Holder, except: Option<NameKey>): Registry {
    map k | k in rows && (rows[k].holder != holder || Some(k) == except) :: rows[k]
  }

  /** The names an account holds besides the one claimed. */
  function Held(rows: Registry, account: string, key: NameKey): set<NameKey> {
    set k | k in rows && rows[k].holder.account == account && k != key
  }

  function Younger(rows: Registry, held: set<NameKey>, k: NameKey): set<NameKey>
    requires k in rows && held <= rows.Keys
  {
    set j | j in held && Before(rows, k, j)
  }

  /** Of an account's other names only the youngest seven stay. */
  function Trimmed(rows: Registry, account: string, key: NameKey): Registry {
    var held := Held(rows, account, key);
    map k | k in rows && (k in held ==> |Younger(rows, held, k)| < MAX_USERNAMES_PER_ACCOUNT - 1) :: rows[k]
  }

  /** A key or name that was published stays published when the claim brings none. */
  function Coalesce<T>(given: Option<T>, stored: Option<T>): Option<T> {
    if given.Some? then given else stored
  }

  function Entered(rows: Registry, claim: Claim): Registry {
    var row := if claim.key in rows then rows[claim.key] else Row(claim.holder, None, claim.now, None, None);
    rows[claim.key := Row(row.holder, claim.kind, claim.now, Coalesce(claim.publicKey, row.publicKey),
                          Coalesce(claim.displayName, row.displayName))]
  }

  predicate Taken(rows: Registry, claim: Claim) {
    claim.key in rows && rows[claim.key].holder != claim.holder
  }

  function ClaimName(rows: Registry, claim: Claim): (bool, Registry) {
    if Taken(rows, claim) then (false, rows)
    else
      (true, Entered(Trimmed(Released(rows, claim.holder, Some(claim.key)), claim.holder.account, claim.key), claim))
  }

  function NamesOf(rows: Registry, account: string): set<NameKey> {
    set k | k in rows && rows[k].holder.account == account
  }

  ghost predicate OneNameEach(rows: Registry) {
    forall j, k :: j in rows && k in rows && rows[j].holder == rows[k].holder ==> j == k
  }

  ghost predicate WithinLimit(rows: Registry) {
    forall a :: |NamesOf(rows, a)| <= MAX_USERNAMES_PER_ACCOUNT
  }

  lemma {:induction false} OldestExists(rows: Registry, names: set<NameKey>) returns (oldest: NameKey)
    requires names != {} && names <= rows.Keys
    ensures oldest in names
    ensures forall j :: j in names && j != oldest ==> Before(rows, oldest, j)
    decreases |names|
  {
    var k :| k in names;
    var rest := names - {k};
    if rest == {} {
      assert names == {k};
      oldest := k;
    } else {
      var r := OldestExists(rows, rest);
      oldest := if Before(rows, k, r) then k else r;
      assert forall j :: j in names ==> j == k || j in rest;
    }
  }

  /** Whatever an account held before, at most seven names besides the claimed one stay. */
  lemma TrimLeavesSeven(rows: Registry, account: string, key: NameKey)
    ensures |Held(Trimmed(rows, account, key), account, key)| <= MAX_USERNAMES_PER_ACCOUNT - 1
  {
    var held := Held(rows, account, key);
    var kept := Held(Trimmed(rows, account, key), account, key);
    if kept != {} {
      var oldest := OldestExists(rows, kept);
      assert kept - {oldest} <= Younger(rows, held, oldest);
      SubsetSize(kept - {oldest}, Younger(rows, held, oldest));
    }
  }

  /** An account with room left gives nothing up. */
  lemma RoomKeepsAll(rows: Registry, account: string, key: NameKey)
    requires |Held(rows, account, key)| < MAX_USERNAMES_PER_ACCOUNT
    ensures Trimmed(rows, account, key) == rows
  {
    var held := Held(rows, account, key);
    forall k | k in held
      ensures |Younger(rows, held, k)| < MAX_USERNAMES_PER_ACCOUNT - 1
    {
      SubsetSize(Younger(rows, held, k), held - {k});
    }
  }

  /** What is given up is older than whatever the same account keeps. */
  lemma GivesUpOldest(rows: Registry, account: string, key: NameKey, gone: NameKey, kept: NameKey)
    requires gone in rows && gone !in Trimmed(rows, account, key)
    requires kept in Held(Trimmed(rows, account, key), account, key)
    ensures Before(rows, gone, kept)
    ensures rows[gone].holder.account == account && gone != key
  {
    var held := Held(rows, account, key);
    if !Before(rows, gone, kept) {
      assert Younger(rows, held, gone) <= Younger(rows, held, kept);
      SubsetSize(Younger(rows, held, gone), Younger(rows, held, kept));
    }
  }

  /** A refused claim changes nothing, and only another holder's name is refused. */
  lemma RefusalExactly(rows: Registry, claim: Claim)
    ensures var (ok, after) := ClaimName(rows, claim);
            (!ok <==> claim.key in rows && rows[claim.key].holder != claim.holder) && (!ok ==> after == rows)
  {
  }

  /** A claim granted leaves the name with its claimant, keeps what was published under it, alters no other
    * name that stays, and takes away only the holder's former name and names of the same account that
    * are older than every name it keeps.
    */
  lemma ClaimEffect(rows: Registry, claim: Claim)
    requires !Taken(rows, claim)
    ensures var after := ClaimName(rows, claim).1;
            && claim.key in after && after[claim.key].holder == claim.holder
            && after[claim.key].claimedAt == claim.now && after[claim.key].kind == claim.kind
            && (claim.key in rows && rows[claim.key].publicKey.Some? ==> after[claim.key].publicKey.Some?)
            && (claim.key in rows && claim.publicKey.None? ==> after[claim.key].publicKey == rows[claim.key].publicKey)
            && (claim.publicKey.Some? ==> after[claim.key].publicKey == claim.publicKey)
            && (claim.key in rows && claim.displayName.None? ==>
                  after[claim.key].displayName == rows[claim.key].displayName)
            && (claim.displayName.Some? ==> after[claim.key].displayName == claim.displayName)
            && (claim.key !in rows ==>
                  after[claim.key].publicKey == claim.publicKey && after[claim.key].displayName == claim.displayName)
    ensures var after := ClaimName(rows, claim).1;
            forall k :: k in after && k != claim.key ==>
              k in rows && after[k] == rows[k] && rows[k].holder != claim.holder
    ensures var after := ClaimName(rows, claim).1;
            forall gone :: gone in rows && gone !in after ==>
              gone != claim.key && rows[gone].holder.account == claim.holder.account &&
              (rows[gone].holder == claim.holder ||
               forall kept :: kept in Held(after, claim.holder.account, claim.key) ==> Before(rows, gone, kept))
  {
    var free := Released(rows, claim.holder, Some(claim.key));
    var after := ClaimName(rows, claim).1;
    forall gone, kept | gone in free && gone !in after && kept in Held(after, claim.holder.account, claim.key)
      ensures Before(rows, gone, kept)
    {
      GivesUpOldest(free, claim.holder.account, claim.key, gone, kept);
    }
  }

  /** A release takes away every name of the holder and no other name; whoever claims one of them next gets it,
    * also when the holder's own claim had refused it before.
    */
  lemma ReleaseFrees(rows: Registry, holder: Holder, claim: Claim)
    ensures var after := Step(rows, Releasing(holder));
            && (forall k :: k in after ==> k in rows && after[k] == rows[k] && rows[k].holder != holder)
            && (forall k :: k in rows && rows[k].holder != holder ==> k in after)
    ensures claim.key in rows && rows[claim.key].holder == holder ==>
              var (ok, after) := ClaimName(Step(rows, Releasing(holder)), claim);
              && ok && claim.key in after && after[claim.key].holder == claim.holder
              && (ClaimName(rows, claim).0 <==> claim.holder == holder)
  {
  }

  lemma HeldAfter(rows: Registry, claim: Claim)
    requires !Taken(rows, claim)
    ensures var after := ClaimName(rows, claim).1;
            && |NamesOf(after, claim.holder.account)| <= MAX_USERNAMES_PER_ACCOUNT
            && (forall a :: a != claim.holder.account ==> NamesOf(after, a) == NamesOf(rows, a))
  {
    hide Trimmed, Released;
    var account, key := claim.holder.account, claim.key;
    var trimmed := Trimmed(Released(rows, claim.holder, Some(key)), account, key);
    OthersAfter(rows, claim);
    TrimLeavesSeven(Released(rows, claim.holder, Some(key)), account, key);
    var after := ClaimName(rows, claim).1;
    assert NamesOf(after, account) == Held(trimmed, account, key) + {key};
  }

  lemma OthersAfter(rows: Registry, claim: Claim)
    requires !Taken(rows, claim)
    ensures var after := ClaimName(rows, claim).1;
            forall a :: a != claim.holder.account ==> NamesOf(after, a) == NamesOf(rows, a)
    ensures var trimmed := Trimmed(Released(rows, claim.holder, Some(claim.key)), claim.holder.account, claim.key);
            claim.key in trimmed ==> trimmed[claim.key].holder == claim.holder
  {
    var free := Released(rows, claim.holder, Some(claim.key));
    TrimmedOthers(free, claim.holder.account, claim.key);
    hide Trimmed, Held;
  }

  lemma TrimmedOthers(rows: Registry, account: string, key: NameKey)
    ensures var trimmed := Trimmed(rows, account, key);
            && (forall k :: k in trimmed ==> k in rows && trimmed[k] == rows[k])
            && (forall k :: k in rows && (k == key || rows[k].holder.account != account) ==> k in trimmed)
  {
  }

  /** At most one name goes with each claim granted. */
  lemma GivesUpAtMostOne(rows: Registry, claim: Claim, a: NameKey, b: NameKey)
    requires OneNameEach(rows) && WithinLimit(rows) && !Taken(rows, claim)
    requires a in rows && a !in ClaimName(rows, claim).1
    requires b in rows && b !in ClaimName(rows, claim).1
    ensures a == b
  {
    var account, key := claim.holder.account, claim.key;
    var free := Released(rows, claim.holder, Some(key));
    var held := Held(free, account, key);
    if |held| < MAX_USERNAMES_PER_ACCOUNT {
      RoomKeepsAll(free, account, key);
    } else if a != b {
      assert held <= NamesOf(rows, account);
      SameSize(held, NamesOf(rows, account));
      var oldest := OldestExists(free, held);
      var other := if a == oldest then b else a;
      SubsetSize(Younger(free, held, other), held - {other, oldest});
    }
  }

  datatype Action = Claiming(claim: Claim) | Releasing(holder: Holder)

  function Step(rows: Registry, action: Action): Registry {
    match action
    case Claiming(claim) => ClaimName(rows, claim).1
    case Releasing(holder) => Released(rows, holder, None)
  }

  function Run(rows: Registry, actions: seq<Action>): Registry
    decreases |actions|
  {
    if actions == [] then rows else Run(Step(rows, actions[0]), actions[1..])
  }

  lemma StepKeeps(rows: Registry, action: Action)
    requires OneNameEach(rows) && WithinLimit(rows)
    ensures OneNameEach(Step(rows, action)) && WithinLimit(Step(rows, action))
  {
    match action
    case Claiming(claim) =>
      if !Taken(rows, claim) {
        ClaimEffect(rows, claim);
        HeldAfter(rows, claim);
        var after := ClaimName(rows, claim).1;
        forall a
          ensures |NamesOf(after, a)| <= MAX_USERNAMES_PER_ACCOUNT
        {
          assert |NamesOf(rows, a)| <= MAX_USERNAMES_PER_ACCOUNT;
        }
      }
    case Releasing(holder) =>
      var after := Released(rows, holder, None);
      forall a
        ensures |NamesOf(after, a)| <= MAX_USERNAMES_PER_ACCOUNT
      {
        SubsetSize(NamesOf(after, a), NamesOf(rows, a));
      }
  }

  /** In every reachable registry each holder has at most one name and each account at most eight. */
  lemma {:induction false} RegistryHolds(rows: Registry, actions: seq<Action>)
    requires OneNameEach(rows) && WithinLimit(rows)
    ensures OneNameEach(Run(rows, actions)) && WithinLimit(Run(rows, actions))
    decreases |actions|
  {
    if actions != [] {
      StepKeeps(rows, actions[0]);
      RegistryHolds(Step(rows, actions[0]), actions[1..]);
    }
  }

  lemma EmptyRegistryHolds()
    ensures OneNameEach(map[]) && WithinLimit(map[])
  {
    forall a
      ensures NamesOf(map[], a) == {}
    {
    }
  }

  ghost predicate InOrder(rows: Registry, names: seq<NameKey>) {
    (forall k :: k in names ==> k in rows) &&
    forall i, j :: 0 <= i < j < |names| ==> Before(rows, names[i], names[j])
  }

  function Elements(names: seq<NameKey>): set<NameKey> {
    set k | k in names
  }

  lemma {:induction false} SizeOfList(names: seq<NameKey>)
    requires forall i, j :: 0 <= i < j < |names| ==> names[i] != names[j]
    ensures |Elements(names)| == |names|
    decreases |names|
  {
    if names != [] {
      var rest := Elements(names[1..]);
      SizeOfList(names[1..]);
      assert Elements(names) == {names[0]} + rest by {
        assert names == [names[0]] + names[1..];
      }
    }
  }

  lemma YoungerInList(rows: Registry, held: set<NameKey>, names: seq<NameKey>, i: nat)
    requires held <= rows.Keys && held == Elements(names)
    requires InOrder(rows, names) && i < |names|
    ensures |Younger(rows, held, names[i])| == |names| - 1 - i
  {
    var rest := names[i + 1..];
    assert InOrder(rows, rest);
    SizeOfList(rest);
    assert Younger(rows, held, names[i]) == Elements(rest);
  }

  lemma AppendOldest(rows: Registry, names: seq<NameKey>, rest: set<NameKey>, k: NameKey)
    requires InOrder(rows, names) && rest <= rows.Keys && k in rest
    requires forall n, j :: n in names && j in rest ==> Before(rows, n, j)
    requires forall j :: j in rest && j != k ==> Before(rows, k, j)
    ensures InOrder(rows, names + [k])
    ensures Elements(names + [k]) == Elements(names) + {k}
    ensures forall n, j :: n in names + [k] && j in rest - {k} ==> Before(rows, n, j)
  {
    forall i, j | 0 <= i < j < |names + [k]|
      ensures Before(rows, (names + [k])[i], (names + [k])[j])
    {
      assert names[i] in names;
    }
  }

  class UsernameTable {
    var rows: Registry

    constructor ()
      ensures rows == map[]
    {
      rows := map[];
    }

    /** The account's other names, longest held first. */
    method SelectHeld(account: string, key: NameKey) returns (held: seq<NameKey>)
      ensures Elements(held) == Held(rows, account, key)
      ensures InOrder(rows, held)
    {
      hide Before;
      var rest := Held(rows, account, key);
      held := [];
      while rest != {}
        invariant rest <= rows.Keys
        invariant Elements(held) + rest == Held(rows, account, key)
        invariant InOrder(rows, held)
        invariant forall n, j :: n in held && j in rest ==> Before(rows, n, j)
        decreases |rest|
      {
        ghost var oldest := OldestExists(rows, rest);
        var k :| k in rest && forall j :: j in rest && j != k ==> Before(rows, k, j);
        AppendOldest(rows, held, rest, k);
        held, rest := held + [k], rest - {k};
      }
    }

    method TrimNames(account: string, key: NameKey)
      modifies this
      ensures rows == Trimmed(old(rows), account, key)
    {
      ghost var before := rows;
      var held := SelectHeld(account, key);
      var i := 0;
      while i < |held| - (MAX_USERNAMES_PER_ACCOUNT - 1)
        invariant 0 <= i
        invariant i <= |held|
        invariant i > 0 ==> i <= |held| - (MAX_USERNAMES_PER_ACCOUNT - 1)
        invariant rows == before - Elements(held[..i])
      {
        rows := rows - {held[i]};
        i := i + 1;
      }
      forall j | 0 <= j < |held|
        ensures |Younger(before, Held(before, account, key), held[j])| == |held| - 1 - j
        ensures held[j] in held[..i] <==> j < i
      {
        YoungerInList(before, Held(before, account, key), held, j);
        assert forall n :: 0 <= n < i && n < j ==> Before(before, held[n], held[j]);
      }
      assert rows.Keys == Trimmed(before, account, key).Keys by {
        forall k | k in before
          ensures k in rows <==> k in Trimmed(before, account, key)
        {
          if k in Held(before, account, key) {
            assert k in held;
          }
        }
      }
    }

    method ClaimUsername(claim: Claim) returns (ok: bool)
      modifies this
      ensures (ok, rows) == ClaimName(old(rows), claim)
    {
      if claim.key in rows && rows[claim.key].holder != claim.holder {
        return false;
      }
      rows := Released(rows, claim.holder, Some(claim.key));
      TrimNames(claim.holder.account, claim.key);
      if claim.key in rows {
        var row := rows[claim.key];
        rows := rows[claim.key := row.(claimedAt := claim.now, kind := claim.kind,
                     publicKey := Coalesce(claim.publicKey, row.publicKey),
                     displayName := Coalesce(claim.displayName, row.displayName))];
      } else {
        rows := rows[claim.key := Row(claim.holder, claim.kind, claim.now, claim.publicKey, claim.displayName)];
      }
      return true;
    }

    method ReleaseUsername(holder: Holder) returns (released: bool)
      modifies this
      ensures rows == Released(old(rows), holder, None)
      ensures released <==> exists k :: k in old(rows) && old(rows)[k].holder == holder
    {
      var kept := Released(rows, holder, None);
      released := kept != rows;
      assert released <==> kept.Keys != rows.Keys;
      rows := kept;
    }
  }
}
