/**
 * The byte string of a write buffer: keys in sorted order, each followed by its
 * value.  It must not depend on the order in which the buffer's map is walked.
 */
module BufferBytes {
  import opened StateStore

  /** Byte-wise lexicographic order, the order of sort.Strings. */
  predicate Before(a: Key, b: Key) {
    if b == "" then false
    else if a == "" then true
    else a[0] < b[0] || (a[0] == b[0] && Before(a[1..], b[1..]))
  }

  lemma {:induction false} Trichotomy(a: Key, b: Key)
    ensures a == b || Before(a, b) || Before(b, a)
    ensures !(Before(a, b) && Before(b, a))
    ensures !Before(a, a)
  {
    if a != "" && b != "" {
      Trichotomy(a[1..], b[1..]);
      assert a == [a[0]] + a[1..] && b == [b[0]] + b[1..];
    }
    if a != "" {
      Trichotomy(a[1..], a[1..]);
    }
  }

  lemma {:induction false} Transitive(a: Key, b: Key, c: Key)
    requires Before(a, b) && Before(b, c)
    ensures Before(a, c)
  {
    if a != "" && a[0] == b[0] == c[0] {
      Transitive(a[1..], b[1..], c[1..]);
    }
  }

  /** Before the index both are the same; there the first ends or is smaller. */
  predicate DiffersAt(a: Key, b: Key, i: int) {
    0 <= i <= |a| && i < |b| && a[..i] == b[..i] && (i == |a| || a[i] < b[i])
  }

  /** Before means: smaller at the first difference, or a proper prefix. */
  lemma {:induction false} BeforeIs(a: Key, b: Key)
    ensures Before(a, b) <==> exists i :: DiffersAt(a, b, i)
  {
    if a == "" || b == "" {
      if b != "" {
        assert DiffersAt(a, b, 0);
      }
    } else {
      BeforeIs(a[1..], b[1..]);
      if a[0] == b[0] {
        FirstDifference(a, b);
      } else if a[0] < b[0] {
        assert DiffersAt(a, b, 0);
      } else {
        forall i | 0 < i <= |a| && i <= |b| ensures a[..i] != b[..i] {
          SamePrefix(a, b, i);
        }
      }
    }
  }

  lemma SamePrefix(a: Key, b: Key, i: int)
    requires 0 < i <= |a| && i <= |b|
    ensures a[..i] == b[..i] ==> a[0] == b[0]
  {
    assert a[..i][0] == a[0] && b[..i][0] == b[0];
  }

  /** A common first character moves the first difference by one. */
  lemma FirstDifference(a: Key, b: Key)
    requires a != "" && b != "" && a[0] == b[0]
    ensures (exists i :: DiffersAt(a, b, i)) <==> (exists i :: DiffersAt(a[1..], b[1..], i))
  {
    if i :| DiffersAt(a, b, i) {
      assert i > 0 && a[1..][..i - 1] == a[..i][1..] && b[1..][..i - 1] == b[..i][1..];
      assert DiffersAt(a[1..], b[1..], i - 1);
    }
    if i :| DiffersAt(a[1..], b[1..], i) {
      assert a[..i + 1] == [a[0]] + a[1..][..i] && b[..i + 1] == [b[0]] + b[1..][..i];
      assert DiffersAt(a, b, i + 1);
    }
  }

  predicate Ascending(keys: seq<Key>) {
    forall i, j :: 0 <= i < j < |keys| ==> Before(keys[i], keys[j])
  }

  /** The keys of a set, each once, in order. */
  ghost predicate Sorting(keys: seq<Key>, s: set<Key>) {
    Ascending(keys) && forall k :: k in keys <==> k in s
  }

  lemma EmptyIff(a: seq<Key>, s: set<Key>)
    requires Sorting(a, s)
    ensures a == [] <==> s == {}
  {
    if a != [] {
      assert a[0] in a;
    }
  }

  /** There is only one way to sort a set of keys. */
  lemma {:induction false} SortingIsUnique(a: seq<Key>, b: seq<Key>, s: set<Key>)
    requires Sorting(a, s) && Sorting(b, s)
    ensures a == b
    decreases |a|
  {
    EmptyIff(a, s);
    EmptyIff(b, s);
    if a != [] {
      LeastFirst(a, b, s);
      RestSorts(a, s);
      RestSorts(b, s);
      SortingIsUnique(a[1..], b[1..], s - {a[0]});
      assert a == [a[0]] + a[1..] && b == [b[0]] + b[1..];
    }
  }

  lemma LeastFirst(a: seq<Key>, b: seq<Key>, s: set<Key>)
    requires Sorting(a, s) && Sorting(b, s) && a != [] && b != []
    ensures a[0] == b[0]
  {
    assert a[0] in s && b[0] in s;
    var i :| 0 <= i < |a| && a[i] == b[0];
    var j :| 0 <= j < |b| && b[j] == a[0];
    Trichotomy(a[0], b[0]);
  }

  lemma RestSorts(a: seq<Key>, s: set<Key>)
    requires Sorting(a, s) && a != []
    ensures Sorting(a[1..], s - {a[0]})
  {
    forall k ensures k in a[1..] <==> k in s && k != a[0] {
      if k in a[1..] {
        var i :| 0 <= i < |a[1..]| && a[1..][i] == k;
        assert a[i + 1] == k;
        Trichotomy(a[0], k);
      }
    }
  }

  /** The bytes written for the keys in the order given. */
  function BytesOf(buffer: Buffer, keys: seq<Key>): Bytes
    requires forall k :: k in keys ==> k in buffer
  {
    if keys == [] then ""
    else
      var k := keys[|keys| - 1];
      BytesOf(buffer, keys[..|keys| - 1]) + k + buffer[k]
  }

  /** Where a new key belongs in an ascending list. */
  method Insert(keys: seq<Key>, k: Key, ghost s: set<Key>) returns (r: seq<Key>)
    requires Sorting(keys, s) && k !in s
    ensures Sorting(r, s + {k})
  {
    var i := 0;
    while i < |keys| && Before(keys[i], k)
      invariant i <= |keys| && forall j :: 0 <= j < i ==> Before(keys[j], k)
    {
      i := i + 1;
    }
    r := keys[..i] + [k] + keys[i..];
    forall j | i <= j < |keys| ensures Before(k, keys[j]) {
      assert keys[i] in s;
      Trichotomy(k, keys[i]);
      if i < j {
        Transitive(k, keys[i], keys[j]);
      }
    }
    forall x ensures x in r <==> x in s + {k} {
      assert x in r <==> x in keys[..i] || x == k || x in keys[i..];
      assert x in keys <==> x in keys[..i] || x in keys[i..] by {
        assert keys == keys[..i] + keys[i..];
      }
    }
  }

  /** The keys of a map, walked in any order and sorted. */
  method SortedKeys(s: set<Key>) returns (keys: seq<Key>)
    ensures Sorting(keys, s)
  {
    var left := s;
    keys := [];
    while left != {}
      invariant left <= s && Sorting(keys, s - left)
      decreases left
    {
      var k :| k in left;
      ghost var done := s - left;
      keys := Insert(keys, k, done);
      left := left - {k};
      assert s - left == done + {k};
    }
    assert s - left == s;
  }

  /**
   * The loops of Tx.Commit and Transaction.GetBuffer: the map is walked in any order,
   * the keys are sorted, the bytes are written.  Whatever the order of the walk, the
   * result is the one byte string of the sorted keys.
   */
  method Serialize(buffer: Buffer) returns (bytes: Bytes)
    ensures exists keys :: Sorting(keys, buffer.Keys) && bytes == BytesOf(buffer, keys)
    ensures forall keys :: Sorting(keys, buffer.Keys) ==> bytes == BytesOf(buffer, keys)
  {
    var keys := SortedKeys(buffer.Keys);
    bytes := "";
    for i := 0 to |keys|
      invariant forall k :: k in keys ==> k in buffer
      invariant bytes == BytesOf(buffer, keys[..i])
    {
      assert keys[..i + 1][..i] == keys[..i];
      bytes := bytes + keys[i] + buffer[keys[i]];
    }
    assert keys[..|keys|] == keys;
    forall other | Sorting(other, buffer.Keys) ensures other == keys {
      SortingIsUnique(other, keys, buffer.Keys);
    }
  }

  /**
   * The values are in the bytes: of buffers with the same keys, and values of the same
   * length at each, only equal ones have equal bytes.
   */
  lemma {:induction false} BytesTellValues(a: Buffer, b: Buffer, keys: seq<Key>)
    requires forall k :: k in keys ==> k in a && k in b && |a[k]| == |b[k]|
    ensures |BytesOf(a, keys)| == |BytesOf(b, keys)|
    ensures BytesOf(a, keys) == BytesOf(b, keys) <==> forall k :: k in keys ==> a[k] == b[k]
  {
    if keys != [] {
      var n := |keys| - 1;
      var k := keys[n];
      BytesTellValues(a, b, keys[..n]);
      Halves(BytesOf(a, keys[..n]) + k, a[k], BytesOf(b, keys[..n]) + k, b[k]);
      Halves(BytesOf(a, keys[..n]), k, BytesOf(b, keys[..n]), k);
      assert forall x :: x in keys <==> x in keys[..n] || x == k by {
        assert keys == keys[..n] + [k];
      }
    }
  }

  lemma Halves(a: Bytes, b: Bytes, c: Bytes, d: Bytes)
    requires |a| == |c|
    ensures a + b == c + d <==> a == c && b == d
  {
    assert (a + b)[..|a|] == a && (a + b)[|a|..] == b;
    assert (c + d)[..|c|] == c && (c + d)[|c|..] == d;
  }

  /** Every key and its value stand one after the other, after all smaller keys. */
  lemma {:induction false} BytesHold(a: Buffer, keys: seq<Key>, i: nat)
    requires (forall k :: k in keys ==> k in a) && i < |keys|
    ensures BytesOf(a, keys[..i]) + keys[i] + a[keys[i]] <= BytesOf(a, keys)
    decreases |keys|
  {
    var n := |keys| - 1;
    if i < n {
      assert keys[..n][..i] == keys[..i];
      BytesHold(a, keys[..n], i);
    }
  }
}
