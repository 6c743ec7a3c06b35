/**
 * The pairing layer of the serializer: the ordered entries are flattened into
 * one list `[k0, v0, k1, v1, ...]`, and such a list is paired up again and
 * replayed with Set. The byte encoding around the list is not modelled.
 */
module Codec {
  import opened Wrappers
  import opened OrderedSpec

  /** Why a serialized form was rejected. */
  datatype CodecError =
    | DecodeFailed   // the bytes were not a valid encoding of a list
    | OddLength      // a key without its value

  /**
   * Each key of `order`, immediately followed by its value in `vals`. Keys and
   * values share one element type, as they do in the untyped serialized list.
   */
  ghost function Flatten<T>(order: seq<T>, vals: map<T, T>): (r: seq<T>)
    requires forall k :: k in order ==> k in vals
    ensures |r| == 2 * |order|
    ensures forall i :: 0 <= i < |order| ==> r[2 * i] == order[i] && r[2 * i + 1] == vals[order[i]]
    decreases |order|
  {
    if order == [] then []
    else
      var n := |order|;
      Flatten(order[..n - 1], vals) + [order[n - 1], vals[order[n - 1]]]
  }

  /** Flattening one more key appends that key and its value. */
  lemma FlattenSnoc<T>(order: seq<T>, vals: map<T, T>, i: nat)
    requires i < |order| && forall k :: k in order ==> k in vals
    ensures forall k :: k in order[..i + 1] ==> k in vals
    ensures Flatten(order[..i + 1], vals) == Flatten(order[..i], vals) + [order[i], vals[order[i]]]
  {
    assert order[..i + 1][..i] == order[..i];
  }

  /** Consecutive slots paired up as (key, value). */
  ghost function Pairs<T>(items: seq<T>): (r: seq<(T, T)>)
    requires |items| % 2 == 0
    ensures 2 * |r| == |items|
    ensures forall i :: 0 <= i < |r| ==> r[i] == (items[2 * i], items[2 * i + 1])
    decreases |items|
  {
    if items == [] then []
    else
      var n := |items|;
      Pairs(items[..n - 2]) + [(items[n - 2], items[n - 1])]
  }

  /**
   * The decoded list as (key, value) pairs, or OddLength when a key would be
   * left without a value.
   */
  ghost function Unflatten<T>(items: seq<T>): (r: Result<seq<(T, T)>, CodecError>)
    ensures r.Failure? <==> |items| % 2 == 1
    ensures r.Failure? ==> r.error == OddLength
    ensures r.Success? ==> 2 * |r.value| == |items|
    ensures r.Success? ==>
              forall i :: 0 <= i < |r.value| ==> r.value[i] == (items[2 * i], items[2 * i + 1])
  {
    if |items| % 2 != 0 then Failure(OddLength) else Success(Pairs(items))
  }

  /** What a whole decode yields: a decoding failure, or the paired list. */
  ghost function Parse<T>(decoded: Option<seq<T>>): (r: Result<seq<(T, T)>, CodecError>)
    ensures r.Failure? <==> decoded.None? || |decoded.value| % 2 == 1
    ensures r == Failure(DecodeFailed) <==> decoded.None?
    ensures r == Failure(OddLength) <==> decoded.Some? && |decoded.value| % 2 == 1
    ensures r.Success? ==> 2 * |r.value| == |decoded.value|
    ensures r.Success? ==>
              forall i :: 0 <= i < |r.value| ==> r.value[i] == (decoded.value[2 * i], decoded.value[2 * i + 1])
  {
    match decoded
    case None => Failure(DecodeFailed)
    case Some(items) => Unflatten(items)
  }

  /** Set each pair in turn, first to last. */
  ghost function Load<K, V>(e: Entries<K, V>, pairs: seq<(K, V)>): Entries<K, V>
    decreases |pairs|
  {
    if pairs == [] then e
    else
      var n := |pairs|;
      Put(Load(e, pairs[..n - 1]), pairs[n - 1].0, pairs[n - 1].1)
  }

  /** Loading one more pair is one more Put. */
  lemma LoadSnoc<K, V>(e: Entries<K, V>, pairs: seq<(K, V)>, i: nat)
    requires i < |pairs|
    ensures Load(e, pairs[..i + 1]) == Put(Load(e, pairs[..i]), pairs[i].0, pairs[i].1)
  {
    assert pairs[..i + 1][..i] == pairs[..i];
  }

  /** Loading pairs keeps the invariant of the abstract map. */
  lemma {:induction false} LoadWf<K, V>(e: Entries<K, V>, pairs: seq<(K, V)>)
    requires Wf(e)
    ensures Wf(Load(e, pairs))
    decreases |pairs|
  {
    if pairs != [] {
      var n := |pairs|;
      LoadWf(e, pairs[..n - 1]);
      PutWf(Load(e, pairs[..n - 1]), pairs[n - 1].0, pairs[n - 1].1);
    }
  }

  /** The entries of `order` as (key, value) pairs. */
  ghost function Zip<K, V>(order: seq<K>, vals: map<K, V>): (r: seq<(K, V)>)
    requires forall k :: k in order ==> k in vals
    ensures |r| == |order|
    ensures forall i :: 0 <= i < |r| ==> r[i] == (order[i], vals[order[i]])
  {
    seq(|order|, i requires 0 <= i < |order| => (order[i], vals[order[i]]))
  }

  /** Pairing up a flattened list gives back the entries, in order. */
  lemma UnflattenFlatten<T>(order: seq<T>, vals: map<T, T>)
    requires forall k :: k in order ==> k in vals
    ensures Unflatten(Flatten(order, vals)) == Success(Zip(order, vals))
  {
    var r := Unflatten(Flatten(order, vals)).value;
    assert |r| == |order|;
    assert r == Zip(order, vals);
  }

  /** The entries of `order` restricted to the keys it lists. */
  ghost function Restrict<K, V>(order: seq<K>, vals: map<K, V>): map<K, V>
  {
    map k | k in vals && k in order :: vals[k]
  }

  /** Listing one more key adds exactly that key's entry. */
  lemma RestrictSnoc<K, V>(p: seq<K>, k: K, vals: map<K, V>)
    requires k in vals
    ensures Restrict(p + [k], vals) == Restrict(p, vals)[k := vals[k]]
  {
    var before, after := Restrict(p, vals), Restrict(p + [k], vals);
    assert forall k' :: k' in p + [k] <==> k' in p || k' == k;
    assert after.Keys == before.Keys + {k};
  }

  /**
   * Setting the entries of a repetition-free `order` into an empty map
   * rebuilds exactly those keys, in that order, with their values.
   */
  lemma {:induction false} LoadZip<K, V>(order: seq<K>, vals: map<K, V>)
    requires Distinct(order) && forall k :: k in order ==> k in vals
    ensures Load(Empty(), Zip(order, vals)) == Entries(order, Restrict(order, vals))
    decreases |order|
  {
    var z := Zip(order, vals);
    if order == [] {
      assert z == [];
      assert Restrict(order, vals) == map[];
    } else {
      var n := |order|;
      var p, k := order[..n - 1], order[n - 1];
      assert order == p + [k];
      assert Distinct(p);
      assert z[..n - 1] == Zip(p, vals);
      LoadZip(p, vals);
      assert k !in Restrict(p, vals) by {
        forall j | 0 <= j < n - 1
          ensures p[j] != k
        {
          assert p[j] == order[j];
        }
      }
      RestrictSnoc(p, k, vals);
    }
  }

  /** In a well-formed map, the entries whose key is in the order are all of them. */
  lemma RestrictToOrder<K, V>(e: Entries<K, V>)
    requires Wf(e)
    ensures forall k :: k in e.order ==> k in e.vals
    ensures Restrict(e.order, e.vals) == e.vals
  {
    assert forall k :: k in e.order <==> k in Elems(e.order);
  }

  /**
   * The round trip: flattening a well-formed map, pairing the list up again
   * and setting the pairs into a fresh empty map reproduces the same keys,
   * the same values and the same order.
   */
  lemma RoundTrip<T>(e: Entries<T, T>)
    requires Wf(e)
    ensures forall k :: k in e.order ==> k in e.vals
    ensures Unflatten(Flatten(e.order, e.vals)).Success?
    ensures Load(Empty(), Unflatten(Flatten(e.order, e.vals)).value) == e
  {
    RestrictToOrder(e);
    UnflattenFlatten(e.order, e.vals);
    LoadZip(e.order, e.vals);
  }
}
