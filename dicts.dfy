/**
 * A Python `dict` as an insertion-ordered association list: iteration follows
 * the order in which keys were first inserted, and assigning to a key that is
 * already present replaces its value where it stands.
 */
module Dicts {

  import opened Optional

  type Dict<K, V> = seq<(K, V)>

  predicate HasKey<K(==), V>(d: Dict<K, V>, k: K) {
    exists i :: 0 <= i < |d| && d[i].0 == k
  }

  /** The dictionary invariant: no key appears twice. */
  predicate DistinctKeys<K(==), V>(d: Dict<K, V>) {
    forall i, j :: 0 <= i < j < |d| ==> d[i].0 != d[j].0
  }

  /** `d.get(k)`: the value of the first entry whose key is `k`. */
  function Get<K(==), V>(d: Dict<K, V>, k: K): (r: Option<V>)
    ensures r.None? <==> !HasKey(d, k)
  {
    if d == [] then None
    else if d[0].0 == k then Some(d[0].1)
    else
      assert HasKey(d, k) <==> HasKey(d[1..], k) by {
        if HasKey(d, k) {
          var i :| 0 <= i < |d| && d[i].0 == k;
          assert d[1..][i - 1].0 == k;
        }
        if HasKey(d[1..], k) {
          var i :| 0 <= i < |d[1..]| && d[1..][i].0 == k;
          assert d[i + 1].0 == k;
        }
      }
      Get(d[1..], k)
  }

  /** In a dictionary, the value stored under the key of entry `i` is that entry's value. */
  lemma {:induction false} GetAt<K, V>(d: Dict<K, V>, i: nat)
    requires DistinctKeys(d) && i < |d|
    ensures Get(d, d[i].0) == Some(d[i].1)
  {
    if i > 0 {
      assert d[1..][i - 1] == d[i];
      GetAt(d[1..], i - 1);
    }
  }

  /** A key that `Get` finds sits at some entry `i`, paired with the value found. */
  lemma {:induction false} GetIndex<K, V>(d: Dict<K, V>, k: K) returns (i: nat)
    requires Get(d, k).Some?
    ensures i < |d| && d[i] == (k, Get(d, k).value)
  {
    if d[0].0 == k {
      i := 0;
    } else {
      var j := GetIndex(d[1..], k);
      i := j + 1;
    }
  }

  /**
   * `d[k] = v`: a key already present keeps its position and takes the new
   * value; a new key is appended at the end.
   */
  function Put<K(==), V>(d: Dict<K, V>, k: K, v: V): (r: Dict<K, V>)
    requires DistinctKeys(d)
    ensures DistinctKeys(r) && HasKey(r, k)
    ensures |r| == if HasKey(d, k) then |d| else |d| + 1
    ensures forall i :: 0 <= i < |d| ==> r[i].0 == d[i].0
  {
    if HasKey(d, k) then
      var r := seq(|d|, i requires 0 <= i < |d| => if d[i].0 == k then (k, v) else d[i]);
      assert HasKey(r, k) by {
        var i :| 0 <= i < |d| && d[i].0 == k;
        assert r[i].0 == k;
      }
      r
    else
      var r := d + [(k, v)];
      assert r[|d|].0 == k;
      r
  }

  /** After `d[k] = v`, `k` maps to `v` and every other key keeps its value. */
  lemma PutGet<K, V>(d: Dict<K, V>, k: K, v: V, other: K)
    requires DistinctKeys(d)
    ensures Get(Put(d, k, v), k) == Some(v)
    ensures other != k ==> Get(Put(d, k, v), other) == Get(d, other)
  {
    var r := Put(d, k, v);
    var i :| 0 <= i < |r| && r[i].0 == k;
    GetAt(r, i);
    if other != k {
      if HasKey(d, other) {
        var j :| 0 <= j < |d| && d[j].0 == other;
        GetAt(d, j);
        GetAt(r, j);
      } else {
        assert !HasKey(r, other);
      }
    }
  }

}
