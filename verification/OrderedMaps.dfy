/** JavaScript's Map: entries in insertion order; setting a present key keeps its place. */
module OrderedMaps {

  datatype JsMap<K(==,!new), V> = JsMap(keys: seq<K>, items: map<K, V>) {

    predicate Has(k: K) {
      k in items
    }

    ghost predicate Valid() {
      && Distinct(keys)
      && (forall k :: k in keys <==> k in items)
    }

    function Set(k: K, v: V): JsMap<K, V> {
      JsMap(if k in items then keys else keys + [k], items[k := v])
    }

    function Delete(k: K): JsMap<K, V> {
      JsMap(Without(keys, k), items - {k})
    }

    /** Delete and set again: the entry moves to the end. */
    function Touch(k: K, v: V): JsMap<K, V> {
      Delete(k).Set(k, v)
    }
  }

  ghost predicate Distinct<K(!new)>(keys: seq<K>) {
    forall i, j :: 0 <= i < j < |keys| ==> keys[i] != keys[j]
  }

  function Without<K(==,!new)>(keys: seq<K>, k: K): (r: seq<K>)
    ensures forall x :: x in r <==> x in keys && x != k
    ensures |r| <= |keys| && (k in keys ==> |r| < |keys|)
  {
    if keys == [] then []
    else if keys[0] == k then Without(keys[1..], k)
    else [keys[0]] + Without(keys[1..], k)
  }

  function Empty<K(==,!new), V>(): JsMap<K, V> {
    JsMap([], map[])
  }

  lemma {:induction false} WithoutAbsent<K(!new)>(keys: seq<K>, k: K)
    requires k !in keys
    ensures Without(keys, k) == keys
  {
    if keys != [] {
      WithoutAbsent(keys[1..], k);
    }
  }

  /** Among distinct keys, deletion takes one place out of the sequence. */
  lemma {:induction false} WithoutAt<K(!new)>(keys: seq<K>, i: nat)
    requires Distinct(keys) && i < |keys|
    ensures Without(keys, keys[i]) == keys[..i] + keys[i + 1..]
  {
    if i == 0 {
      WithoutAbsent(keys[1..], keys[0]);
    } else {
      WithoutAt(keys[1..], i - 1);
      assert keys[..i] == [keys[0]] + keys[1..][..i - 1];
    }
  }

  /** Deletion keeps the order of what stays. */
  lemma WithoutOrder<K(!new)>(keys: seq<K>, k: K, i: nat, j: nat) returns (x: nat, y: nat)
    requires Distinct(keys) && i < j < |Without(keys, k)|
    ensures x < y < |keys| && Without(keys, k)[i] == keys[x] && Without(keys, k)[j] == keys[y]
  {
    if k in keys {
      var n :| 0 <= n < |keys| && keys[n] == k;
      WithoutAt(keys, n);
      x, y := if i < n then i else i + 1, if j < n then j else j + 1;
    } else {
      WithoutAbsent(keys, k);
      x, y := i, j;
    }
  }

  lemma DeleteValid<K(!new), V>(m: JsMap<K, V>, k: K)
    requires m.Valid()
    ensures m.Delete(k).Valid()
    ensures k in m.keys ==> |m.Delete(k).keys| == |m.keys| - 1
    ensures k !in m.keys ==> m.Delete(k) == m
  {
    if k in m.keys {
      var i :| 0 <= i < |m.keys| && m.keys[i] == k;
      WithoutAt(m.keys, i);
    } else {
      WithoutAbsent(m.keys, k);
      assert m.items - {k} == m.items;
    }
  }

  lemma SetValid<K(!new), V>(m: JsMap<K, V>, k: K, v: V)
    requires m.Valid()
    ensures m.Set(k, v).Valid()
  {
    assert k !in m.items ==> k !in m.keys;
  }

  lemma TouchValid<K(!new), V>(m: JsMap<K, V>, k: K, v: V)
    requires m.Valid()
    ensures m.Touch(k, v).Valid()
    ensures m.Touch(k, v) == JsMap(Without(m.keys, k) + [k], m.items[k := v])
  {
    DeleteValid(m, k);
    assert k !in m.Delete(k).items;
    SetValid(m.Delete(k), k, v);
    assert (m.items - {k})[k := v] == m.items[k := v];
  }

  /** Deleting the first key. */
  lemma DeleteFirst<K(!new), V>(m: JsMap<K, V>)
    requires m.Valid() && m.keys != []
    ensures m.Delete(m.keys[0]).keys == m.keys[1..]
    ensures m.Delete(m.keys[0]).Valid()
  {
    WithoutAt(m.keys, 0);
    DeleteValid(m, m.keys[0]);
  }

  ghost predicate StandsBefore<K(!new)>(keys: seq<K>, p: K, q: K) {
    exists i, j :: 0 <= i < j < |keys| && keys[i] == p && keys[j] == q
  }

  lemma StoodBefore<K(!new)>(keys: seq<K>, k: K, p: K, q: K)
    requires Distinct(keys) && StandsBefore(Without(keys, k), p, q)
    ensures StandsBefore(keys, p, q) && p != k && q != k
  {
    var rest := Without(keys, k);
    var i, j :| 0 <= i < j < |rest| && rest[i] == p && rest[j] == q;
    assert p in rest && q in rest;
    var x, y := WithoutOrder(keys, k, i, j);
  }

  lemma StillStands<K(!new)>(keys: seq<K>, k: K, p: K, q: K)
    requires Distinct(keys) && StandsBefore(keys, p, q) && p != k && q != k
    ensures StandsBefore(Without(keys, k), p, q)
  {
    if k in keys {
      var n :| 0 <= n < |keys| && keys[n] == k;
      var x, y :| 0 <= x < y < |keys| && keys[x] == p && keys[y] == q;
      WithoutAt(keys, n);
      hide Without;
      ShiftedPair(keys, n, x, y);
    } else {
      WithoutAbsent(keys, k);
    }
  }

  lemma ShiftedPair<K(!new)>(keys: seq<K>, n: nat, x: nat, y: nat)
    requires x < y < |keys| && n < |keys| && n != x && n != y
    ensures StandsBefore(keys[..n] + keys[n + 1..], keys[x], keys[y])
  {
    var rest := keys[..n] + keys[n + 1..];
    var i, j := if x < n then x else x - 1, if y < n then y else y - 1;
    assert rest[i] == keys[x] && rest[j] == keys[y];
  }

  /** Deletion takes a key out of the order and moves nothing else. */
  lemma WithoutStands<K(!new)>(keys: seq<K>, k: K, p: K, q: K)
    requires Distinct(keys)
    ensures StandsBefore(Without(keys, k), p, q) <==> StandsBefore(keys, p, q) && p != k && q != k
  {
    hide StandsBefore, Without, Distinct;
    if StandsBefore(Without(keys, k), p, q) {
      StoodBefore(keys, k, p, q);
    }
    if StandsBefore(keys, p, q) && p != k && q != k {
      StillStands(keys, k, p, q);
    }
  }
}
