/**
 * The container itself: an index from key to list node beside a doubly
 * linked list of (key, value) entries kept in first-insertion order.
 */
module OrderedMaps {
  import opened Wrappers
  import opened OrderedSpec
  import opened Codec
  import opened LinkedList

  /** One entry of the map, the payload of its list node; the value is overwritten in place. */
  class Element<K, V> {
    const key: K
    var value: V

    constructor (key: K, value: V)
      ensures this.key == key && this.value == value
    {
      this.key := key;
      this.value := value;
    }
  }

  class OrderedMap<K(==), V> {
    // the index: each key to the list node holding its entry
    var kv: map<K, ListNode<Element<K, V>>>
    // the entries in first-insertion order
    var ll: List<Element<K, V>>

    // the abstract value: keys in insertion order and their values
    ghost var model: Entries<K, V>
    // the list, its nodes and the entries they hold
    ghost var Repr: set<object>

    /**
     * The representation invariant: the i-th node of the list holds the i-th
     * key of the order with its current value, and the index maps each key
     * to that node; so index keys and list keys are the same set, list keys
     * are distinct, and both have the same size.
     */
    ghost predicate Valid()
      reads this, Repr
    {
      && ll in Repr && ll.Repr <= Repr && this !in ll.Repr && ll.Valid()
      && Wf(model)
      && |ll.nodes| == |model.order|
      && kv.Keys == model.vals.Keys
      && (forall i :: 0 <= i < |ll.nodes| ==> EntryAt(i))
    }

    /**
     * The i-th node holds an entry of this map (outside the list's own
     * footprint) with the i-th key and its current value, and the index
     * maps that key to this node.
     */
    ghost predicate EntryAt(i: nat)
      reads this, Repr
      requires ll in Repr && i < |ll.nodes| && |ll.nodes| == |model.order|
    {
      var entry := ll.nodes[i].value;
      && entry in Repr && entry !in ll.Repr
      && entry.key == model.order[i]
      && model.order[i] in kv && kv[model.order[i]] == ll.nodes[i]
      && model.order[i] in model.vals && entry.value == model.vals[model.order[i]]
    }

    /** The position of an indexed key in the list; its node is the one the index holds. */
    ghost function IndexOf(k: K): (i: nat)
      reads this, Repr
      requires Valid() && k in kv
      ensures i < |ll.nodes| && model.order[i] == k && kv[k] == ll.nodes[i]
      ensures k in model.vals && EntryAt(i)
    {
      assert k in Elems(model.order);
      var i :| 0 <= i < |model.order| && model.order[i] == k;
      assert EntryAt(i);
      i
    }

    /** NewOrderedMap: an empty index and an empty list. */
    constructor ()
      ensures Valid() && fresh(Repr)
      ensures model == Empty()
    {
      kv := map[];
      var list := new List();
      ll := list;
      model := Empty();
      Repr := list.Repr;
    }

    /** The value stored under `key`, or None (Go's nil, false) if there is none. */
    method Get(key: K) returns (r: Option<V>)
      requires Valid()
      ensures r == Lookup(model, key)
      ensures r.Some? <==> key in model.order
    {
      if key in kv {
        ghost var i := IndexOf(key);
        r := Some(kv[key].value.value);
      } else {
        r := None;
      }
    }

    /** The value stored under `key`, or `default` if there is none; never inserts. */
    method GetOrDefault(key: K, default: V) returns (r: V)
      requires Valid()
      ensures key in model.vals ==> r == model.vals[key]
      ensures key !in model.vals ==> r == default
    {
      if key in kv {
        ghost var i := IndexOf(key);
        r := kv[key].value.value;
      } else {
        r := default;
      }
    }

    /**
     * Set `key` to `value`. A new key gets a new entry at the back of the
     * list and the result is true; a present key has its entry's value
     * overwritten in place, keeps its position, and the result is false.
     */
    method Set(key: K, value: V) returns (isNew: bool)
      requires Valid()
      modifies this, Repr
      ensures Valid() && fresh(Repr - old(Repr))
      ensures isNew <==> key !in old(model.vals)
      ensures model == Put(old(model), key, value)
    {
      isNew := key !in kv;
      if isNew {
        var entry := new Element(key, value);
        var n := ll.PushBack(entry);
        kv := kv[key := n];
        Repr := Repr + ll.Repr + {entry};
        model := Put(old(model), key, value);
        AppendedKeepsEntries(n);
      } else {
        ghost var i := IndexOf(key);
        kv[key].value.value := value;
        model := Put(old(model), key, value);
        OverwrittenKeepsEntries(i);
      }
    }

    /**
     * After a new entry for an absent key is pushed at the back of the list
     * and indexed, the earlier nodes still hold their entries and the new
     * node holds the new one.
     */
    twostate lemma AppendedKeepsEntries(new n: ListNode<Element<K, V>>)
      requires old(Valid()) && n.value.key !in old(kv)
      requires ll == old(ll) && ll.Valid() && ll.nodes == old(ll.nodes) + [n]
      requires this !in ll.Repr && n.value !in ll.Repr
      requires fresh(ll.Repr - old(ll.Repr))
      requires forall o: Element<K, V> :: o in old(Repr) && o !in old(ll.Repr) ==> o.value == old(o.value)
      requires Repr == old(Repr) + ll.Repr + {n.value}
      requires kv == old(kv)[n.value.key := n]
      requires model == Put(old(model), n.value.key, n.value.value)
      ensures Valid()
    {
      PutAbsent(old(model), n.value.key, n.value.value);
      forall j | 0 <= j < |ll.nodes|
        ensures EntryAt(j)
      {
        if j < old(|ll.nodes|) {
          assert old(EntryAt(j));
          var entry := old(ll.nodes[j].value);
          assert ll.nodes[j] == old(ll.nodes[j]) && entry in old(Repr);
          assert entry !in ll.Repr && entry.value == old(entry.value);
          assert old(model.order[j]) in old(kv) && old(model.order[j]) != n.value.key;
        }
      }
    }

    /**
     * After the entry at position i has its value overwritten, every node
     * still holds its entry, with the new value at position i.
     */
    twostate lemma OverwrittenKeepsEntries(i: nat)
      requires old(Valid()) && i < old(|ll.nodes|)
      requires ll == old(ll) && kv == old(kv) && Repr == old(Repr) && ll.Valid()
      requires ll.nodes == old(ll.nodes) && ll.Repr == old(ll.Repr)
      requires forall o: Element<K, V> :: o in old(Repr) && o != ll.nodes[i].value ==> o.value == old(o.value)
      requires model == Put(old(model), old(model.order[i]), ll.nodes[i].value.value)
      ensures Valid()
    {
      PutWf(old(model), old(model.order[i]), ll.nodes[i].value.value);
      assert old(EntryAt(i));
      forall j | 0 <= j < |ll.nodes|
        ensures EntryAt(j)
      {
        assert old(EntryAt(j));
        var entry := ll.nodes[j].value;
        assert entry in old(Repr) && model.order[j] == old(model.order[j]);
        if j != i {
          assert old(model.order[j]) != old(model.order[i]);
          assert entry.key != ll.nodes[i].value.key;
          assert entry.value == old(entry.value);
        }
      }
    }

    /** The number of entries, read from the index. */
    method Len() returns (n: nat)
      requires Valid()
      ensures n == Size(model) && n == |model.order|
    {
      SizeIsLength(model);
      n := |kv|;
    }

    /** A snapshot of the keys, walking the list from the front: oldest first. */
    method Keys() returns (keys: seq<K>)
      requires Valid()
      ensures keys == model.order
      ensures |keys| == Size(model) && Distinct(keys)
    {
      SizeIsLength(model);
      keys := [];
      var element := ll.front;
      var i := 0;
      while element != null
        invariant 0 <= i <= |ll.nodes|
        invariant element == if i < |ll.nodes| then ll.nodes[i] else null
        invariant keys == model.order[..i]
        decreases |ll.nodes| - i
      {
        assert EntryAt(i);
        keys := keys + [element.value.key];
        element := element.next;
        i := i + 1;
      }
    }

    /**
     * After the node at position i is unlinked and its key dropped from the
     * index and the model, every remaining node still holds its entry.
     */
    twostate lemma UnlinkedKeepsEntries(i: nat)
      requires old(Valid()) && i < old(|ll.nodes|)
      requires ll == old(ll) && Repr == old(Repr) && ll.Repr == old(ll.Repr) && ll.Valid()
      requires |ll.nodes| == old(|ll.nodes|) - 1
      requires forall j :: 0 <= j < i ==> ll.nodes[j] == old(ll.nodes[j])
      requires forall j :: i <= j < |ll.nodes| ==> ll.nodes[j] == old(ll.nodes[j + 1])
      requires kv == old(kv) - {old(model.order[i])}
      requires model == Remove(old(model), old(model.order[i]))
      requires forall o: Element<K, V> :: o in old(Repr) && o !in old(ll.Repr) ==> o.value == old(o.value)
      ensures Valid()
    {
      RemovePresent(old(model), old(model.order[i]), i);
      forall j | 0 <= j < |ll.nodes|
        ensures EntryAt(j)
      {
        var k := if j < i then j else j + 1;
        assert old(EntryAt(k));
        assert ll.nodes[j] == old(ll.nodes[k]) && model.order[j] == old(model.order[k]) && k != i;
      }
    }

    /**
     * Delete `key`: if present, its node is spliced out of the list, its index
     * entry removed, and the result is true; otherwise nothing changes and the
     * result is false.
     */
    method Delete(key: K) returns (didDelete: bool)
      requires Valid()
      modifies this, Repr
      ensures Valid() && fresh(Repr - old(Repr))
      ensures didDelete <==> key in old(model.vals)
      ensures model == Remove(old(model), key)
    {
      didDelete := key in kv;
      if didDelete {
        ghost var e, i := model, IndexOf(key);
        ll.Remove(kv[key], i);
        kv := kv - {key};
        model := Remove(e, key);
        UnlinkedKeepsEntries(i);
      } else {
        RemoveAbsent(model, key);
      }
    }

    /** The oldest entry, or None when the map is empty. */
    method Front() returns (r: Option<(K, V)>)
      requires Valid()
      ensures r == First(model)
      ensures r.None? <==> Size(model) == 0
    {
      SizeIsLength(model);
      var front := ll.front;
      if front == null {
        r := None;
      } else {
        assert EntryAt(0);
        r := Some((front.value.key, front.value.value));
      }
    }

    /** The newest entry, or None when the map is empty. */
    method Back() returns (r: Option<(K, V)>)
      requires Valid()
      ensures r == Last(model)
      ensures r.None? <==> Size(model) == 0
    {
      SizeIsLength(model);
      var back := ll.back;
      if back == null {
        r := None;
      } else {
        assert EntryAt(|ll.nodes| - 1);
        r := Some((back.value.key, back.value.value));
      }
    }
  }

  /**
   * MarshalJSON up to the encoding: the list `[k0, v0, k1, v1, ...]` built from
   * Keys and Get, oldest entry first. Keys and values share one element type.
   */
  method Marshal<T(==)>(m: OrderedMap<T, T>) returns (collection: seq<T>)
    requires m.Valid()
    ensures forall k :: k in m.model.order ==> k in m.model.vals
    ensures collection == Flatten(m.model.order, m.model.vals)
  {
    assert forall k :: k in m.model.order ==> k in Elems(m.model.order);
    var keys := m.Keys();
    collection := [];
    for i := 0 to |keys|
      invariant collection == Flatten(keys[..i], m.model.vals)
    {
      assert keys[i] in m.model.vals;
      var data := m.Get(keys[i]);
      FlattenSnoc(keys, m.model.vals, i);
      collection := collection + [keys[i], data.value];
    }
    assert keys[..|keys|] == keys;
  }

  /**
   * UnmarshalJSON after the decoding: a failed decode and a list of odd
   * length are reported before anything is set; otherwise each (key, value)
   * pair is set in turn, on top of whatever the map already holds.
   */
  method Unmarshal<T(==)>(m: OrderedMap<T, T>, decoded: Option<seq<T>>) returns (err: Option<CodecError>)
    requires m.Valid()
    modifies m, m.Repr
    ensures m.Valid() && fresh(m.Repr - old(m.Repr))
    ensures Parse(decoded).Failure? ==> err == Some(Parse(decoded).error) && m.model == old(m.model)
    ensures Parse(decoded).Success? ==> err == None && m.model == Load(old(m.model), Parse(decoded).value)
  {
    if decoded.None? {
      return Some(DecodeFailed);
    }
    var collection := decoded.value;
    var length := |collection|;
    var count := length / 2;
    if count * 2 != length {
      assert Parse(decoded) == Failure(OddLength);
      return Some(OddLength);
    }
    ghost var pairs := Pairs(collection);
    for i := 0 to count
      invariant m.Valid() && fresh(m.Repr - old(m.Repr))
      invariant m.model == Load(old(m.model), pairs[..i])
    {
      var idx := i * 2;
      assert pairs[i] == (collection[idx], collection[idx + 1]);
      LoadSnoc(old(m.model), pairs, i);
      var _ := m.Set(collection[idx], collection[idx + 1]);
    }
    assert pairs[..count] == pairs;
    assert Parse(decoded) == Success(pairs);
    err := None;
  }

  /**
   * Marshalling a map and unmarshalling the list into a new map gives a map
   * with the same keys, in the same order, with the same values.
   */
  method MarshalUnmarshalRoundTrip<T(==)>(m: OrderedMap<T, T>) returns (copy: OrderedMap<T, T>, err: Option<CodecError>)
    requires m.Valid()
    ensures fresh(copy) && copy.Valid()
    ensures err == None && copy.model == m.model
  {
    var collection := Marshal(m);
    copy := new OrderedMap();
    RoundTrip(m.model);
    err := Unmarshal(copy, Some(collection));
  }
}
