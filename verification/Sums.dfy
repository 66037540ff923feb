/** Sums over the values of a finite map, independent of any iteration order. */
module Sums {

  ghost function Sum<K>(m: map<K, int>): int
    decreases |m|
  {
    if m == map[] then 0
    else
      var k :| k in m;
      m[k] + Sum(m - {k})
  }

  function At<K>(m: map<K, int>, k: K): int {
    if k in m then m[k] else 0
  }

  /** Any key may be taken out first. */
  lemma {:induction false} SumTakeOut<K>(m: map<K, int>, k: K)
    requires k in m
    ensures Sum(m) == m[k] + Sum(m - {k})
    decreases |m|
  {
    var j :| j in m && Sum(m) == m[j] + Sum(m - {j});
    if j != k {
      SumTakeOut(m - {j}, k);
      SumTakeOut(m - {k}, j);
      assert m - {j} - {k} == m - {k} - {j};
    }
  }

  lemma {:induction false} SumSet<K>(m: map<K, int>, k: K, v: int)
    ensures Sum(m[k := v]) == Sum(m) - At(m, k) + v
  {
    SumTakeOut(m[k := v], k);
    if k in m {
      SumTakeOut(m, k);
      assert m[k := v] - {k} == m - {k};
    } else {
      assert m[k := v] - {k} == m;
    }
  }

  /** The sum at the given keys, one after the other. */
  function Along<K>(m: map<K, int>, keys: seq<K>): int {
    if keys == [] then 0 else Along(m, keys[..|keys| - 1]) + At(m, keys[|keys| - 1])
  }

  lemma {:induction false} AlongFrame<K>(m: map<K, int>, keys: seq<K>, k: K)
    requires k !in keys
    ensures Along(m - {k}, keys) == Along(m, keys)
  {
    if keys != [] {
      AlongFrame(m, keys[..|keys| - 1], k);
    }
  }

  /** A walk over all keys, each once, gives the sum. */
  lemma {:induction false} SumAlong<K>(m: map<K, int>, keys: seq<K>)
    requires forall i, j :: 0 <= i < j < |keys| ==> keys[i] != keys[j]
    requires forall k :: k in keys <==> k in m
    ensures Along(m, keys) == Sum(m)
    decreases |keys|
  {
    if keys != [] {
      var n := |keys| - 1;
      var k := keys[n];
      assert forall x :: x in keys <==> x in keys[..n] || x == k by {
        assert keys == keys[..n] + [k];
      }
      assert k in m;
      SumTakeOut(m, k);
      SumAlong(m - {k}, keys[..n]);
      AlongFrame(m, keys[..n], k);
    } else {
      assert forall k :: k !in m;
      assert m == map[];
    }
  }
}
