/**
 * A JavaScript `Map`: a finite mapping that remembers insertion order.
 * It is modelled as the sequence of its entries in insertion order; every
 * map built by the operations below has pairwise distinct keys.
 */
module OrderedMaps {
  import opened Wrappers

  type OrderedMap<K, V> = seq<(K, V)>

  ghost predicate DistinctKeys<K, V>(m: OrderedMap<K, V>) {
    forall i, j :: 0 <= i < j < |m| ==> m[i].0 != m[j].0
  }

  /** `Array.from(m.keys())` */
  function Keys<K, V>(m: OrderedMap<K, V>): seq<K> {
    seq(|m|, i requires 0 <= i < |m| => m[i].0)
  }

  /** `Array.from(m.values())` */
  function Values<K, V>(m: OrderedMap<K, V>): seq<V> {
    seq(|m|, i requires 0 <= i < |m| => m[i].1)
  }

  /** Position of the entry for `k`, or -1 when `k` has no entry. */
  function IndexOf<K(==), V>(m: OrderedMap<K, V>, k: K): (r: int)
    ensures -1 <= r < |m|
    ensures r >= 0 ==> m[r].0 == k && forall j :: 0 <= j < r ==> m[j].0 != k
    ensures r == -1 <==> forall j :: 0 <= j < |m| ==> m[j].0 != k
  {
    if |m| == 0 then -1
    else if m[0].0 == k then 0
    else
      var r := IndexOf(m[1..], k);
      if r == -1 then -1 else r + 1
  }

  /** `m.has(k)` */
  predicate Has<K(==), V>(m: OrderedMap<K, V>, k: K) {
    IndexOf(m, k) >= 0
  }

  /** `m.get(k)` */
  function Get<K(==), V>(m: OrderedMap<K, V>, k: K): (r: Option<V>)
    ensures r.Some? <==> Has(m, k)
  {
    var i := IndexOf(m, k);
    if i == -1 then None else Some(m[i].1)
  }

  /** `m.set(k, v)`: an existing key keeps its position, a new key goes last. */
  function Set<K(==,!new), V>(m: OrderedMap<K, V>, k: K, v: V): (r: OrderedMap<K, V>)
    ensures Has(m, k) ==> |r| == |m| && Keys(r) == Keys(m)
    ensures !Has(m, k) ==> r == m + [(k, v)]
    ensures Get(r, k) == Some(v)
    ensures forall k' :: k' != k ==> Get(r, k') == Get(m, k')
    ensures DistinctKeys(m) ==> DistinctKeys(r)
    ensures forall j :: 0 <= j < |r| ==> r[j] == (k, v) || (j < |m| && r[j] == m[j])
  {
    var i := IndexOf(m, k);
    if i == -1 then
      var r := m + [(k, v)];
      assert IndexOf(r, k) == |m| by {
        assert forall j :: 0 <= j < |m| ==> r[j] == m[j];
        IndexOfAt(r, k, |m|);
      }
      assert forall k' :: k' != k ==> IndexOf(r, k') == IndexOf(m, k') by {
        forall k' | k' != k ensures IndexOf(r, k') == IndexOf(m, k') {
          assert r[..|m|] == m;
          IndexOfAppend(m, (k, v), k');
        }
      }
      r
    else
      var r := m[i := (k, v)];
      assert Keys(r) == Keys(m);
      assert forall k' :: IndexOf(r, k') == IndexOf(m, k') by {
        forall k' ensures IndexOf(r, k') == IndexOf(m, k') {
          IndexOfSameKeys(r, m, k');
        }
      }
      r
  }

  /** `m.delete(k)`: removes the entry for `k`, keeping the order of the others. */
  function Delete<K(==,!new), V>(m: OrderedMap<K, V>, k: K): (r: OrderedMap<K, V>)
    ensures !Has(m, k) ==> r == m
    ensures Has(m, k) ==> |r| == |m| - 1
    ensures DistinctKeys(m) ==> DistinctKeys(r) && !Has(r, k)
    ensures DistinctKeys(m) ==> forall k' :: k' != k ==> Get(r, k') == Get(m, k')
  {
    var i := IndexOf(m, k);
    if i == -1 then m
    else
      var r := m[..i] + m[i + 1..];
      DeleteAt(m, k, i, r);
      r
  }

  lemma DeleteAt<K, V>(m: OrderedMap<K, V>, k: K, i: int, r: OrderedMap<K, V>)
    requires 0 <= i < |m| && i == IndexOf(m, k) && r == m[..i] + m[i + 1..]
    ensures DistinctKeys(m) ==> DistinctKeys(r) && !Has(r, k)
    ensures DistinctKeys(m) ==> forall k' :: k' != k ==> Get(r, k') == Get(m, k')
  {
    if DistinctKeys(m) {
      DeleteAtDistinct(m, k, i, r);
      forall k' | k' != k ensures Get(r, k') == Get(m, k') {
        DeleteAtOther(m, k, i, r, k');
      }
    }
  }

  lemma DeleteAtDistinct<K, V>(m: OrderedMap<K, V>, k: K, i: int, r: OrderedMap<K, V>)
    requires 0 <= i < |m| && m[i].0 == k && r == m[..i] + m[i + 1..]
    requires DistinctKeys(m)
    ensures DistinctKeys(r) && forall j :: 0 <= j < |r| ==> r[j].0 != k
  {
    forall j1, j2 | 0 <= j1 < j2 < |r| ensures r[j1].0 != r[j2].0 {
      var a1 := if j1 < i then j1 else j1 + 1;
      var a2 := if j2 < i then j2 else j2 + 1;
      assert r[j1] == m[a1] && r[j2] == m[a2] && a1 < a2;
    }
    forall j | 0 <= j < |r| ensures r[j].0 != k {
      var a := if j < i then j else j + 1;
      assert r[j] == m[a] && a != i;
    }
  }

  lemma DeleteAtOther<K, V>(m: OrderedMap<K, V>, k: K, i: int, r: OrderedMap<K, V>, k': K)
    requires 0 <= i < |m| && m[i].0 == k && r == m[..i] + m[i + 1..] && k' != k
    ensures IndexOf(r, k') == (if IndexOf(m, k') < i then IndexOf(m, k') else IndexOf(m, k') - 1)
    ensures Get(r, k') == Get(m, k')
  {
    var a := IndexOf(m, k');
    if a == -1 {
      forall j | 0 <= j < |r| ensures r[j].0 != k' {
        var aj := if j < i then j else j + 1;
        assert r[j] == m[aj];
      }
    } else if a < i {
      assert r[a] == m[a];
      forall j | 0 <= j < a ensures r[j].0 != k' {
        assert r[j] == m[j];
      }
      IndexOfAt(r, k', a);
    } else {
      assert a != i;
      forall j | 0 <= j < a - 1 ensures r[j].0 != k' {
        var aj := if j < i then j else j + 1;
        assert r[j] == m[aj] && aj < a;
      }
      assert r[a - 1] == m[a];
      IndexOfAt(r, k', a - 1);
    }
  }

  /** The first entry with key `k` is the one `IndexOf` finds. */
  lemma IndexOfAt<K, V>(m: OrderedMap<K, V>, k: K, i: int)
    requires 0 <= i < |m| && m[i].0 == k
    requires forall j :: 0 <= j < i ==> m[j].0 != k
    ensures IndexOf(m, k) == i
  {
  }

  /** `new Map(entries)`: the entries are `set` one after the other into `m`. */
  function SetAll<K(==,!new), V>(m: OrderedMap<K, V>, entries: seq<(K, V)>): (r: OrderedMap<K, V>)
    ensures DistinctKeys(m) ==> DistinctKeys(r)
    ensures |r| <= |m| + |entries|
    decreases |entries|
  {
    if entries == [] then m
    else SetAll(Set(m, entries[0].0, entries[0].1), entries[1..])
  }

  /** After `new Map(entries)` over `m`, a key is present exactly when `m` or some entry has it. */
  lemma {:induction false} SetAllHas<K(!new), V>(m: OrderedMap<K, V>, entries: seq<(K, V)>, k: K)
    ensures Has(SetAll(m, entries), k) <==> Has(m, k) || exists j :: 0 <= j < |entries| && entries[j].0 == k
    decreases |entries|
  {
    if entries != [] {
      var m1 := Set(m, entries[0].0, entries[0].1);
      var rest := entries[1..];
      SetAllHas(m1, rest, k);
      assert Has(m1, k) <==> Has(m, k) || entries[0].0 == k by {
        assert Get(m1, k).Some? <==> Get(m, k).Some? || entries[0].0 == k;
      }
      if exists j :: 0 <= j < |entries| && entries[j].0 == k {
        var j :| 0 <= j < |entries| && entries[j].0 == k;
        if j > 0 {
          assert rest[j - 1].0 == k;
        }
      }
      if exists i :: 0 <= i < |rest| && rest[i].0 == k {
        var i :| 0 <= i < |rest| && rest[i].0 == k;
        assert entries[i + 1].0 == k;
      }
    }
  }

  /** A key no entry names keeps its value in `m`. */
  lemma {:induction false} SetAllUntouched<K(!new), V>(m: OrderedMap<K, V>, entries: seq<(K, V)>, k: K)
    requires forall j :: 0 <= j < |entries| ==> entries[j].0 != k
    ensures Get(SetAll(m, entries), k) == Get(m, k)
    decreases |entries|
  {
    if entries != [] {
      var rest := entries[1..];
      assert forall i :: 0 <= i < |rest| ==> rest[i] == entries[i + 1];
      SetAllUntouched(Set(m, entries[0].0, entries[0].1), rest, k);
    }
  }

  /** A key maps to the value of its last entry. */
  lemma {:induction false} SetAllLast<K(!new), V>(m: OrderedMap<K, V>, entries: seq<(K, V)>, k: K, j: int)
    requires 0 <= j < |entries| && entries[j].0 == k
    requires forall j' :: j < j' < |entries| ==> entries[j'].0 != k
    ensures Get(SetAll(m, entries), k) == Some(entries[j].1)
    decreases |entries|
  {
    var m1 := Set(m, entries[0].0, entries[0].1);
    var rest := entries[1..];
    assert forall i :: 0 <= i < |rest| ==> rest[i] == entries[i + 1];
    if j == 0 {
      SetAllUntouched(m1, rest, k);
    } else {
      SetAllLast(m1, rest, k, j - 1);
    }
  }

  lemma IndexOfAppend<K, V>(m: OrderedMap<K, V>, e: (K, V), k: K)
    requires e.0 != k
    ensures IndexOf(m + [e], k) == IndexOf(m, k)
  {
    var r := m + [e];
    assert forall j :: 0 <= j < |m| ==> r[j] == m[j];
  }

  lemma IndexOfSameKeys<K, V>(r: OrderedMap<K, V>, m: OrderedMap<K, V>, k: K)
    requires Keys(r) == Keys(m)
    ensures IndexOf(r, k) == IndexOf(m, k)
  {
    assert |r| == |Keys(r)| == |Keys(m)| == |m|;
    assert forall j :: 0 <= j < |m| ==> r[j].0 == Keys(r)[j] == Keys(m)[j] == m[j].0;
  }
}
