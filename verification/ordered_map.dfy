/**
 A JavaScript `Map` as the sequence of its entries in insertion order.

 `[...m.keys()]` enumerates keys in the order they were first inserted;
 `set` on a present key replaces the value in place and on an absent key
 appends a new entry; `delete` removes the entry and leaves the others in
 their order. The sequence representation keeps that order observable.
 */
module OrderedMap {
  import opened Optional

  type Entries<K, V> = seq<(K, V)>

  /** The keys in insertion order, as `[...m.keys()]`. */
  function Keys<K, V>(m: Entries<K, V>): (ks: seq<K>)
    ensures |ks| == |m|
    ensures forall i :: 0 <= i < |m| ==> ks[i] == m[i].0
  {
    if m == [] then [] else [m[0].0] + Keys(m[1..])
  }

  /** The values in insertion order, as `[...m.values()]`. */
  function Values<K, V>(m: Entries<K, V>): (vs: seq<V>)
    ensures |vs| == |m|
    ensures forall i :: 0 <= i < |m| ==> vs[i] == m[i].1
  {
    if m == [] then [] else [m[0].1] + Values(m[1..])
  }

  /** No key occurs in two entries: what a `Map` guarantees. */
  ghost predicate UniqueKeys<K, V>(m: Entries<K, V>) {
    forall i, j :: 0 <= i < j < |m| ==> m[i].0 != m[j].0
  }

  /** No value occurs in two entries (not guaranteed by `Map` itself). */
  ghost predicate UniqueValues<K, V>(m: Entries<K, V>) {
    forall i, j :: 0 <= i < j < |m| ==> m[i].1 != m[j].1
  }

  /** `m.get(k)`: the value of the entry for `k`, or `undefined`. */
  function Get<K(==), V>(m: Entries<K, V>, k: K): (r: Option<V>)
    ensures r.Some? <==> k in Keys(m)
    ensures r.Some? ==> (k, r.value) in m
  {
    if m == [] then None
    else if m[0].0 == k then Some(m[0].1)
    else Get(m[1..], k)
  }

  /** `m.set(k, v)`: replace the value in place when `k` is present, append otherwise. */
  function Set<K(==, !new), V>(m: Entries<K, V>, k: K, v: V): (r: Entries<K, V>)
    ensures Keys(r) == if k in Keys(m) then Keys(m) else Keys(m) + [k]
    ensures forall k' :: k' != k ==> Get(r, k') == Get(m, k')
  {
    if m == [] then [(k, v)]
    else if m[0].0 == k then [(k, v)] + m[1..]
    else [m[0]] + Set(m[1..], k, v)
  }

  /** `m.delete(k)`: drop the entry for `k`, keep every other entry. */
  function Delete<K(==, !new), V>(m: Entries<K, V>, k: K): (r: Entries<K, V>)
    ensures k !in Keys(r)
    ensures forall k' :: k' != k ==> Get(r, k') == Get(m, k')
    ensures forall e :: e in r ==> e in m
  {
    if m == [] then []
    else if m[0].0 == k then Delete(m[1..], k)
    else [m[0]] + Delete(m[1..], k)
  }

  /** With unique keys, an entry's value is what `get` returns for its key. */
  lemma {:induction false} GetFindsEntry<K, V>(m: Entries<K, V>, k: K, v: V)
    requires UniqueKeys(m)
    requires (k, v) in m
    ensures Get(m, k) == Some(v)
  {
    if m[0] != (k, v) {
      assert m[0].0 != k by {
        var i :| 0 <= i < |m| && m[i] == (k, v);
        assert i != 0;
      }
      assert (k, v) in m[1..] by {
        var i :| 0 <= i < |m| && m[i] == (k, v);
        assert m[1..][i - 1] == (k, v);
      }
      GetFindsEntry(m[1..], k, v);
    }
  }

  /** After `m.set(k, v)`, `m.get(k)` returns `v`. */
  lemma {:induction false} GetAfterSet<K(!new), V>(m: Entries<K, V>, k: K, v: V)
    ensures Get(Set(m, k, v), k) == Some(v)
  {
    if m != [] && m[0].0 != k {
      GetAfterSet(m[1..], k, v);
    }
  }

  /** Setting an absent key is an append at the end of the insertion order. */
  lemma SetAbsentAppends<K(!new), V>(m: Entries<K, V>, k: K, v: V)
    requires k !in Keys(m)
    ensures Set(m, k, v) == m + [(k, v)]
  {
    SetFreshAppends(m, k, v);
  }

  lemma {:induction false} SetFreshAppends<K(!new), V>(m: Entries<K, V>, k: K, v: V)
    requires forall j :: 0 <= j < |m| ==> m[j].0 != k
    ensures Set(m, k, v) == m + [(k, v)]
  {
    if m != [] {
      var t := m[1..];
      assert forall j :: 0 <= j < |t| ==> t[j].0 != k by {
        forall j | 0 <= j < |t| ensures t[j].0 != k {
          assert t[j] == m[j + 1];
        }
      }
      SetFreshAppends(t, k, v);
      assert m[0].0 != k;
      calc {
        Set(m, k, v);
        [m[0]] + Set(t, k, v);
        [m[0]] + (t + [(k, v)]);
        ([m[0]] + t) + [(k, v)];
        { assert m == [m[0]] + t; }
        m + [(k, v)];
      }
    }
  }

  /** Appending a fresh key and a fresh value keeps both uniqueness properties. */
  lemma AppendKeepsUnique<K, V>(m: Entries<K, V>, k: K, v: V)
    requires UniqueKeys(m) && UniqueValues(m)
    requires k !in Keys(m) && v !in Values(m)
    ensures UniqueKeys(m + [(k, v)]) && UniqueValues(m + [(k, v)])
  {
    var r := m + [(k, v)];
    forall i, j | 0 <= i < j < |r|
      ensures r[i].0 != r[j].0 && r[i].1 != r[j].1
    {
      if j == |m| {
        assert Keys(m)[i] == r[i].0;
        assert Values(m)[i] == r[i].1;
      }
    }
  }

  /**
   With unique keys, deleting the key of entry `i` removes exactly that entry
   and leaves every other entry where it was.
   */
  lemma {:induction false} DeleteAt<K(!new), V>(m: Entries<K, V>, i: nat)
    requires UniqueKeys(m)
    requires i < |m|
    ensures Delete(m, m[i].0) == m[..i] + m[i + 1..]
  {
    var k := m[i].0;
    if i == 0 {
      DeleteAbsent(m[1..], k);
    } else {
      assert m[0].0 != k;
      DeleteAt(m[1..], i - 1);
      assert m[1..][i - 1].0 == k;
      assert m[..i] == [m[0]] + m[1..][..i - 1];
      assert m[i + 1..] == m[1..][i..];
    }
  }

  /** Deleting a key that no entry carries leaves the map as it was. */
  lemma {:induction false} DeleteAbsent<K(!new), V>(m: Entries<K, V>, k: K)
    requires forall j :: 0 <= j < |m| ==> m[j].0 != k
    ensures Delete(m, k) == m
  {
    if m != [] {
      assert forall j :: 0 <= j < |m[1..]| ==> m[1..][j].0 != k by {
        forall j | 0 <= j < |m[1..]| ensures m[1..][j].0 != k {
          assert m[1..][j] == m[j + 1];
        }
      }
      DeleteAbsent(m[1..], k);
      assert m == [m[0]] + m[1..];
    }
  }

  /** Removing one entry keeps both uniqueness properties. */
  lemma RemoveAtKeepsUnique<K, V>(m: Entries<K, V>, i: nat)
    requires UniqueKeys(m) && UniqueValues(m)
    requires i < |m|
    ensures UniqueKeys(m[..i] + m[i + 1..]) && UniqueValues(m[..i] + m[i + 1..])
  {
    var r := m[..i] + m[i + 1..];
    forall a, b | 0 <= a < b < |r|
      ensures r[a].0 != r[b].0 && r[a].1 != r[b].1
    {
      var a' := if a < i then a else a + 1;
      var b' := if b < i then b else b + 1;
      assert r[a] == m[a'];
      assert r[b] == m[b'];
    }
  }

  /** Deleting any key keeps both uniqueness properties. */
  lemma DeleteKeepsUnique<K(!new), V>(m: Entries<K, V>, k: K)
    requires UniqueKeys(m) && UniqueValues(m)
    ensures UniqueKeys(Delete(m, k)) && UniqueValues(Delete(m, k))
  {
    if k in Keys(m) {
      var i :| 0 <= i < |m| && Keys(m)[i] == k;
      DeleteAt(m, i);
      RemoveAtKeepsUnique(m, i);
    } else {
      DeleteAbsent(m, k);
    }
  }
}
