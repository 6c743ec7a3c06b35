/**
 * The abstract value of an insertion-ordered map: the keys in the order they
 * were first set, and the value currently stored under each key. Every
 * operation of the container is specified by a function on this value.
 */
module OrderedSpec {
  import opened Wrappers

  /** `order` lists the keys, oldest first; `vals` gives each key's current value. */
  datatype Entries<K, V> = Entries(order: seq<K>, vals: map<K, V>)

  /** No key is listed twice. */
  ghost predicate Distinct<K>(s: seq<K>)
  {
    forall i, j :: 0 <= i < j < |s| ==> s[i] != s[j]
  }

  /** The set of elements of a sequence. */
  ghost function Elems<K>(s: seq<K>): set<K>
  {
    set k | k in s
  }

  /**
   * The invariant of the abstract value: every key appears once in the order,
   * and the keys with a value are exactly the keys in the order.
   */
  ghost predicate Wf<K, V>(e: Entries<K, V>)
  {
    Distinct(e.order) && e.vals.Keys == Elems(e.order)
  }

  /** The freshly created map. */
  ghost function Empty<K, V>(): (e: Entries<K, V>)
    ensures Wf(e) && e.order == [] && |e.vals| == 0
  {
    Entries([], map[])
  }

  /** The number of entries, as the index counts them. */
  ghost function Size<K, V>(e: Entries<K, V>): nat
  {
    |e.vals|
  }

  /** The value stored under `k`, if any. */
  ghost function Lookup<K, V>(e: Entries<K, V>, k: K): Option<V>
  {
    if k in e.vals then Some(e.vals[k]) else None
  }

  /** Set `k` to `v`: a new key goes to the tail, a present key keeps its place. */
  ghost function Put<K, V>(e: Entries<K, V>, k: K, v: V): Entries<K, V>
  {
    Entries(if k in e.vals then e.order else e.order + [k], e.vals[k := v])
  }

  /** `s` with every occurrence of `k` filtered out. */
  ghost function Without<K>(s: seq<K>, k: K): seq<K>
  {
    if s == [] then []
    else (if s[0] == k then [] else [s[0]]) + Without(s[1..], k)
  }

  /** Forget `k`, both its value and its place in the order. */
  ghost function Remove<K, V>(e: Entries<K, V>, k: K): Entries<K, V>
  {
    Entries(Without(e.order, k), e.vals - {k})
  }

  /** The oldest entry, if the map is not empty. */
  ghost function First<K, V>(e: Entries<K, V>): Option<(K, V)>
    requires Wf(e)
  {
    if e.order == [] then None else Some((e.order[0], e.vals[e.order[0]]))
  }

  /** The newest entry, if the map is not empty. */
  ghost function Last<K, V>(e: Entries<K, V>): Option<(K, V)>
    requires Wf(e)
  {
    if e.order == [] then None
    else Some((e.order[|e.order| - 1], e.vals[e.order[|e.order| - 1]]))
  }

  // ---------------------------------------------------------------------
  // Counting

  /** In a sequence without repetitions the first key does not occur again. */
  lemma HeadNotInTail<K>(s: seq<K>)
    requires Distinct(s) && s != []
    ensures s[0] !in Elems(s[1..]) && s[0] !in s[1..]
  {
    forall j | 0 <= j < |s| - 1
      ensures s[1..][j] != s[0]
    {
      assert s[1..][j] == s[j + 1];
    }
  }

  /** A sequence without repetitions has as many elements as its set. */
  lemma {:induction false} DistinctCard<K>(s: seq<K>)
    requires Distinct(s)
    ensures |Elems(s)| == |s|
  {
    if s != [] {
      DistinctCard(s[1..]);
      assert Elems(s) == {s[0]} + Elems(s[1..]);
      HeadNotInTail(s);
    }
  }

  /** The index's size equals the length of the order. */
  lemma SizeIsLength<K, V>(e: Entries<K, V>)
    requires Wf(e)
    ensures Size(e) == |e.order|
  {
    DistinctCard(e.order);
    assert e.vals.Keys == Elems(e.order);
  }

  // ---------------------------------------------------------------------
  // Set

  /** Setting a key keeps the invariant. */
  lemma PutWf<K, V>(e: Entries<K, V>, k: K, v: V)
    requires Wf(e)
    ensures Wf(Put(e, k, v))
  {
    if k !in e.vals {
      assert Elems(e.order + [k]) == Elems(e.order) + {k};
    }
  }

  /**
   * Setting an absent key appends it at the tail: the earlier keys keep their
   * order, the size grows by one and the newest entry is the one just set.
   */
  lemma PutAbsent<K, V>(e: Entries<K, V>, k: K, v: V)
    requires Wf(e) && k !in e.vals
    ensures Wf(Put(e, k, v))
    ensures Put(e, k, v).order == e.order + [k]
    ensures Size(Put(e, k, v)) == Size(e) + 1
    ensures Last(Put(e, k, v)) == Some((k, v))
    ensures First(Put(e, k, v)) == if e.order == [] then Some((k, v)) else First(e)
    ensures Lookup(Put(e, k, v), k) == Some(v)
    ensures forall j :: j != k ==> Lookup(Put(e, k, v), j) == Lookup(e, j)
  {
    PutWf(e, k, v);
  }

  /**
   * Setting a present key replaces only its value: the order and the size do
   * not change, whether or not the value differs.
   */
  lemma PutPresent<K, V>(e: Entries<K, V>, k: K, v: V)
    requires Wf(e) && k in e.vals
    ensures Wf(Put(e, k, v))
    ensures Put(e, k, v).order == e.order
    ensures Size(Put(e, k, v)) == Size(e)
    ensures Lookup(Put(e, k, v), k) == Some(v)
    ensures forall j :: j != k ==> Lookup(Put(e, k, v), j) == Lookup(e, j)
  {
    PutWf(e, k, v);
  }

  // ---------------------------------------------------------------------
  // Delete

  /** Filtering out a key removes exactly that key from the elements. */
  lemma {:induction false} WithoutElems<K>(s: seq<K>, k: K)
    ensures Elems(Without(s, k)) == Elems(s) - {k}
  {
    if s != [] {
      WithoutElems(s[1..], k);
      var head := if s[0] == k then [] else [s[0]];
      assert Elems(head + Without(s[1..], k)) == Elems(head) + Elems(Without(s[1..], k));
      assert Elems(s) == {s[0]} + Elems(s[1..]);
    }
  }

  /** Filtering out a key keeps a sequence free of repetitions. */
  lemma {:induction false} WithoutDistinct<K>(s: seq<K>, k: K)
    requires Distinct(s)
    ensures Distinct(Without(s, k))
  {
    if s != [] {
      WithoutDistinct(s[1..], k);
      WithoutElems(s[1..], k);
      if s[0] != k {
        HeadNotInTail(s);
        var t := Without(s[1..], k);
        assert Without(s, k) == [s[0]] + t;
        forall i, j | 0 <= i < j < |[s[0]] + t|
          ensures ([s[0]] + t)[i] != ([s[0]] + t)[j]
        {
          if i == 0 {
            assert ([s[0]] + t)[j] == t[j - 1] && t[j - 1] in Elems(t);
          }
        }
      }
    }
  }

  /** Filtering out a key that does not occur changes nothing. */
  lemma {:induction false} WithoutAbsent<K>(s: seq<K>, k: K)
    requires k !in s
    ensures Without(s, k) == s
  {
    if s != [] {
      WithoutAbsent(s[1..], k);
      assert s == [s[0]] + s[1..];
    }
  }

  /**
   * In a sequence without repetitions, filtering out the key at position `i`
   * splices that one position out and keeps the relative order of the rest.
   */
  lemma {:induction false} WithoutIsSplice<K>(s: seq<K>, i: nat)
    requires Distinct(s) && i < |s|
    ensures Without(s, s[i]) == s[..i] + s[i + 1..]
  {
    if i == 0 {
      HeadNotInTail(s);
      WithoutAbsent(s[1..], s[0]);
    } else {
      var t := s[1..];
      assert Distinct(t) by {
        forall a, b | 0 <= a < b < |t| ensures t[a] != t[b] {
          assert t[a] == s[a + 1] && t[b] == s[b + 1];
        }
      }
      assert t[i - 1] == s[i];
      WithoutIsSplice(t, i - 1);
      assert s[0] != s[i];
      assert s[..i] == [s[0]] + t[..i - 1];
      assert s[i + 1..] == t[i..];
    }
  }

  /** Deleting a key keeps the invariant. */
  lemma RemoveWf<K, V>(e: Entries<K, V>, k: K)
    requires Wf(e)
    ensures Wf(Remove(e, k))
  {
    WithoutElems(e.order, k);
    WithoutDistinct(e.order, k);
  }

  /**
   * Deleting a present key removes it from the order and from the index,
   * lowers the size by one, keeps the relative order of the other keys and
   * leaves their values alone.
   */
  lemma RemovePresent<K, V>(e: Entries<K, V>, k: K, i: nat)
    requires Wf(e) && i < |e.order| && e.order[i] == k
    ensures Wf(Remove(e, k))
    ensures |Remove(e, k).order| == |e.order| - 1
    ensures forall j :: 0 <= j < i ==> Remove(e, k).order[j] == e.order[j]
    ensures forall j :: i <= j < |e.order| - 1 ==> Remove(e, k).order[j] == e.order[j + 1]
    ensures Size(Remove(e, k)) == Size(e) - 1
    ensures Lookup(Remove(e, k), k) == None
    ensures forall j :: j != k ==> Lookup(Remove(e, k), j) == Lookup(e, j)
  {
    RemoveWf(e, k);
    WithoutIsSplice(e.order, i);
    assert k in Elems(e.order);
  }

  /** Deleting an absent key leaves the map exactly as it was. */
  lemma RemoveAbsent<K, V>(e: Entries<K, V>, k: K)
    requires Wf(e) && k !in e.vals
    ensures Remove(e, k) == e
  {
    WithoutAbsent(e.order, k);
    assert e.vals - {k} == e.vals;
  }

  /**
   * Deleting a key and setting it again treats it as brand new: it goes to
   * the tail, not back to its old position.
   */
  lemma DeleteThenSet<K, V>(e: Entries<K, V>, k: K, v: V)
    requires Wf(e) && k in e.vals
    ensures Wf(Put(Remove(e, k), k, v))
    ensures Put(Remove(e, k), k, v).order == Without(e.order, k) + [k]
    ensures Last(Put(Remove(e, k), k, v)) == Some((k, v))
  {
    RemoveWf(e, k);
    PutAbsent(Remove(e, k), k, v);
  }
}
