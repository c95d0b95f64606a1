/**
 * Insertion-ordered dictionaries, as Python's `dict` behaves: assigning to a
 * present key replaces its value where it stands, assigning to an absent key
 * appends it at the end.
 */
module OrderedDict {
  import opened Wrappers

  type Dict<K(==), V> = seq<(K, V)>

  predicate HasKey<K(==), V>(d: Dict<K, V>, k: K) {
    exists i :: 0 <= i < |d| && d[i].0 == k
  }

  predicate DistinctKeys<K(==), V>(d: Dict<K, V>) {
    forall i, j :: 0 <= i < j < |d| ==> d[i].0 != d[j].0
  }

  /** `d.get(k)`: the value stored under the first occurrence of `k`. */
  function Get<K(==), V>(d: Dict<K, V>, k: K): (r: Option<V>)
    ensures r.None? <==> !HasKey(d, k)
    ensures r.Some? ==> exists i :: 0 <= i < |d| && d[i] == (k, r.value)
  {
    if d == [] then None
    else if d[0].0 == k then Some(d[0].1)
    else
      var r := Get(d[1..], k);
      assert r.Some? ==> exists i :: 0 <= i < |d[1..]| && d[1..][i] == (k, r.value);
      assert HasKey(d[1..], k) ==> HasKey(d, k) by {
        if HasKey(d[1..], k) {
          var i :| 0 <= i < |d[1..]| && d[1..][i].0 == k;
          assert d[i + 1].0 == k;
        }
      }
      assert HasKey(d, k) ==> HasKey(d[1..], k) by {
        if HasKey(d, k) {
          var i :| 0 <= i < |d| && d[i].0 == k;
          assert i > 0 && d[1..][i - 1].0 == k;
        }
      }
      r
  }

  /** `d[k] = v`. */
  function Put<K(==), V>(d: Dict<K, V>, k: K, v: V): (r: Dict<K, V>)
    ensures |r| == if HasKey(d, k) then |d| else |d| + 1
  {
    if d == [] then [(k, v)]
    else if d[0].0 == k then
      assert d[0].0 == k;
      [(k, v)] + d[1..]
    else
      TailHasKey(d, k);
      [d[0]] + Put(d[1..], k, v)
  }

  /** Past a head that differs from `k`, the key is present exactly when it is in the tail. */
  lemma TailHasKey<K, V>(d: Dict<K, V>, k: K)
    requires d != [] && d[0].0 != k
    ensures HasKey(d, k) <==> HasKey(d[1..], k)
  {
    if HasKey(d, k) {
      var i :| 0 <= i < |d| && d[i].0 == k;
      assert d[1..][i - 1].0 == k;
    }
    if HasKey(d[1..], k) {
      var i :| 0 <= i < |d[1..]| && d[1..][i].0 == k;
      assert d[i + 1].0 == k;
    }
  }

  /** Assigning to an absent key appends it at the end. */
  lemma {:induction false} PutAbsentAppends<K, V>(d: Dict<K, V>, k: K, v: V)
    requires !HasKey(d, k)
    ensures Put(d, k, v) == d + [(k, v)]
  {
    if d != [] {
      assert d[0].0 != k;
      TailHasKey(d, k);
      PutAbsentAppends(d[1..], k, v);
      assert d == [d[0]] + d[1..];
    }
  }

  /** Assigning to a present key keeps every key in its place. */
  lemma {:induction false} PutPresentKeepsOrder<K, V>(d: Dict<K, V>, k: K, v: V)
    requires HasKey(d, k)
    ensures |Put(d, k, v)| == |d|
    ensures forall i :: 0 <= i < |d| ==> Put(d, k, v)[i].0 == d[i].0
  {
    if d[0].0 != k {
      TailHasKey(d, k);
      PutPresentKeepsOrder(d[1..], k, v);
      var rest := Put(d[1..], k, v);
      assert forall i :: 1 <= i < |d| ==> ([d[0]] + rest)[i] == rest[i - 1];
    }
  }

  /** Every pair after `d[k] = v` is the new pair or one that was already there. */
  lemma {:induction false} PutPairs<K, V>(d: Dict<K, V>, k: K, v: V)
    ensures forall i :: 0 <= i < |Put(d, k, v)| ==> Put(d, k, v)[i] == (k, v) || Put(d, k, v)[i] in d
  {
    if d != [] && d[0].0 != k {
      PutPairs(d[1..], k, v);
      var rest := Put(d[1..], k, v);
      assert forall i :: 1 <= i < |[d[0]] + rest| ==> ([d[0]] + rest)[i] == rest[i - 1];
      assert forall x :: x in d[1..] ==> x in d;
    }
  }

  /** After `d[k] = v`, looking `k` up gives `v`, and every other key keeps its value. */
  lemma {:induction false} GetPut<K, V>(d: Dict<K, V>, k: K, v: V, k': K)
    ensures Get(Put(d, k, v), k') == if k' == k then Some(v) else Get(d, k')
  {
    if d != [] && d[0].0 != k {
      GetPut(d[1..], k, v, k');
    }
  }

  /** Assignment never introduces a second copy of a key. */
  lemma PutDistinct<K, V>(d: Dict<K, V>, k: K, v: V)
    requires DistinctKeys(d)
    ensures DistinctKeys(Put(d, k, v))
  {
    var r := Put(d, k, v);
    if HasKey(d, k) {
      PutPresentKeepsOrder(d, k, v);
    } else {
      PutAbsentAppends(d, k, v);
      forall i, j | 0 <= i < j < |r| ensures r[i].0 != r[j].0 {
        if j == |d| {
          assert r[j].0 == k && r[i] == d[i];
        }
      }
    }
  }

  /** The keys of a dictionary built by assignments, as a set: every key assigned. */
  lemma {:induction false} PutKeys<K, V>(d: Dict<K, V>, k: K, v: V, k': K)
    ensures HasKey(Put(d, k, v), k') <==> k' == k || HasKey(d, k')
  {
    GetPut(d, k, v, k');
  }
}
