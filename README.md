# orderedmap in Dafny

A model of `OrderedMap`, an insertion-ordered map from the Go package
`orderedmap`. The map keeps two structures side by side:

- an index `kv` that maps each key to the list node holding its entry;
- a doubly linked list `ll` of entries, in the order keys were first set.

`Set` on a new key appends an entry at the back of the list. `Set` on a
present key overwrites that entry's value in place, so its position does not
change. `Delete` unlinks the node and drops the index entry. `Keys`, `Front`
and `Back` read the list. Serialization flattens the entries into one list
`[k0, v0, k1, v1, ...]`. Deserialization pairs such a list up again and
replays it with `Set`, after refusing a list of odd length.

Files:

- `ordered_spec.dfy` (`OrderedSpec`): the abstract value `Entries(order, vals)`.
  - Its invariant `Wf`: the keys are distinct and the keys with a value are
    exactly the keys in the order.
  - The functions every operation is specified by: `Put`, `Remove`, `Lookup`,
    `Size`, `First`, `Last`.
  - Lemmas on these functions for `Set` and `Delete`.
- `linked_list.dfy` (`LinkedList`): the doubly linked list the map relies on.
  - Nodes carry `prev`/`next` pointers.
  - A ghost sequence `nodes` records the front-to-back order.
  - It has only the operations the map uses: `PushBack`, `Remove`, and the
    `front`, `back` and `next` fields.
- `ordered_map.dfy` (`OrderedMaps`): the `OrderedMap` class.
  - Fields `kv` and `ll`; each entry is an `Element` object whose `value`
    field is overwritten in place.
  - A ghost `model: Entries` tied to the fields by `Valid()`.
  - One method per operation of the Go type; each is proved against the
    function on `model` that specifies it.
  - The serializer as `Marshal`/`Unmarshal` over maps whose keys and values
    share one element type, as they do in Go's `interface{}` list.
- `codec.dfy` (`Codec`):
  - `Flatten`, `Unflatten`, `Parse` and `Load` specify the serialized list;
  - `RoundTrip` is the round-trip theorem.
- `wrappers.dfy` (`Wrappers`): `Option` and `Result`.

About the serialized form:

- The serialized form is a flat list of keys and values, gob-encoded and then
  JSON-encoded (orderedmap.go:149-166).
- Decoding refuses input that is not a JSON byte string (orderedmap.go:171-174)
  and gob data that does not decode into a list (orderedmap.go:178-182); both
  are `DecodeFailed` here. After decoding, the only check on the list is its
  length: an odd-length list is refused (orderedmap.go:184-189).

## Model

| member | source | states |
|---|---|---|
| OrderedMaps.Element.constructor | orderedmap.go:12-14 | an entry as the literal `&orderedMapElement{key, value}` builds it (line 51): it holds the given key, which never changes, and the given value, which Set later overwrites in place |
| OrderedMaps.OrderedMap.constructor | orderedmap.go:22-27 | NewOrderedMap: an empty index and an empty list; the model is the empty map and the invariant holds |
| OrderedMaps.OrderedMap.Get | orderedmap.go:31-40 | the result is Some(value stored under the key) exactly when the key is in the map, None (Go's nil, false) otherwise |
| OrderedMaps.OrderedMap.GetOrDefault | orderedmap.go:62-70 | the stored value when the key is present, otherwise the given default; the method modifies nothing, so it never inserts |
| OrderedMaps.OrderedMap.Set | orderedmap.go:45-58 | returns true iff the key was absent; the new state is `Put(old model, key, value)` and the invariant linking index, list and model is kept |
| OrderedSpec.PutAbsent | orderedmap.go:50-52 | setting an absent key appends it at the tail: the order becomes old order + [key], the size grows by one, Back is the new pair, Front changes only if the map was empty, Get returns the new value and other keys are untouched |
| OrderedSpec.PutPresent | orderedmap.go:53-55 | setting a present key keeps the order and the size and makes Get return the new value, whether or not it differs from the old one |
| OrderedSpec.PutWf | orderedmap.go:45-58 | Set keeps keys distinct and index keys equal to list keys |
| OrderedMaps.OrderedMap.AppendedKeepsEntries | orderedmap.go:50-52 | after PushBack and the index update, every node holds its key and current value and the index points at it; this is the invariant re-established for a new key |
| OrderedMaps.OrderedMap.OverwrittenKeepsEntries | orderedmap.go:53-55 | after the in-place value write, every node still holds its entry, with the new value at the overwritten position |
| OrderedMaps.OrderedMap.Len | orderedmap.go:73-77 | the size of the index, which equals the number of keys in the order |
| OrderedSpec.SizeIsLength | orderedmap.go:73-77 | in a well-formed map the index size equals the list length |
| OrderedSpec.DistinctCard | orderedmap.go:73-77 | a repetition-free sequence has as many elements as its set |
| OrderedMaps.OrderedMap.Keys | orderedmap.go:82-94 | walking the list from the front yields exactly the model's key order, oldest first: Len() keys, all distinct |
| OrderedMaps.OrderedMap.Delete | orderedmap.go:98-108 | returns true iff the key was present; the new state is `Remove(old model, key)` and the invariant is kept |
| OrderedMaps.OrderedMap.UnlinkedKeepsEntries | orderedmap.go:101-104 | after the node is unlinked and the index entry dropped, every remaining node still holds its entry |
| OrderedSpec.RemovePresent | orderedmap.go:101-104 | deleting a present key at position i shifts exactly the later keys down by one, keeps the earlier ones, lowers the size by one, makes Get return None for it and leaves other keys' values alone |
| OrderedSpec.RemoveAbsent | orderedmap.go:98-108 | deleting an absent key changes nothing |
| OrderedSpec.RemoveWf | orderedmap.go:98-108 | Delete keeps keys distinct and index keys equal to list keys |
| OrderedSpec.WithoutIsSplice | orderedmap.go:103 | filtering a key out of a repetition-free order splices out its one position, keeping the relative order of the rest |
| OrderedSpec.WithoutElems | orderedmap.go:103-104 | filtering out a key removes exactly that key from the set of keys |
| OrderedSpec.WithoutDistinct | orderedmap.go:103-104 | filtering out a key keeps the order free of repetitions |
| OrderedSpec.WithoutAbsent | orderedmap.go:98-108 | filtering out a key that does not occur leaves the order as it is |
| OrderedSpec.DeleteThenSet | orderedmap.go:79-81 | Delete followed by Set of the same key puts it at the tail, not back in its old place |
| OrderedMaps.OrderedMap.Front | orderedmap.go:112-127 | the oldest (key, value) pair, and None exactly when the map is empty |
| OrderedMaps.OrderedMap.Back | orderedmap.go:131-146 | the newest (key, value) pair, and None exactly when the map is empty |
| LinkedList.List.constructor | orderedmap.go:25 | a new list is empty and valid |
| LinkedList.List.PushBack | orderedmap.go:51 | appends one fresh node holding the value; the earlier nodes keep their order and the links stay consistent |
| LinkedList.List.Remove | orderedmap.go:103 | unlinks the node at position i: one node fewer, the earlier nodes unchanged, the later ones shifted down by one, and the links stay consistent |
| Codec.Flatten | orderedmap.go:150-157 | the flat list has length 2·Len, with key i at position 2i and its value at 2i+1 |
| Codec.FlattenSnoc | orderedmap.go:153-157 | flattening one more key appends that key and its value |
| OrderedMaps.Marshal | orderedmap.go:149-157 | walking Keys and calling Get for each key yields exactly `Flatten(order, values)` |
| Codec.Pairs | orderedmap.go:190-194 | pair i of the paired list is (item 2i, item 2i+1), and there are half as many pairs as items |
| Codec.Unflatten | orderedmap.go:184-194 | a list is refused with OddLength exactly when its length is odd; otherwise pair i is (item 2i, item 2i+1) |
| Codec.Parse | orderedmap.go:169-189 | the outcome fails exactly when decoding failed or the decoded list has odd length; DecodeFailed exactly for a decoding failure, OddLength exactly for a decoded list of odd length; otherwise pair i is (item 2i, item 2i+1) of the decoded list, half as many pairs as items |
| Codec.LoadSnoc | orderedmap.go:191-194 | replaying one more pair is one more Set |
| Codec.LoadWf | orderedmap.go:191-194 | replaying any pairs with Set keeps the map well formed |
| OrderedMaps.Unmarshal | orderedmap.go:169-197 | a decode failure or an odd length is reported before any Set and leaves the map unchanged; otherwise no error, and the new state is the old one with every pair Set in list order |
| Codec.UnflattenFlatten | orderedmap.go:149-194 | pairing up a flattened list gives back exactly the (key, value) entries in order |
| Codec.RestrictSnoc | orderedmap.go:191-194 | adding one more key to the order restricts the values to exactly one more entry |
| Codec.LoadZip | orderedmap.go:191-194 | setting the entries of a repetition-free order into an empty map rebuilds those keys in that order with their values |
| Codec.RestrictToOrder | orderedmap.go:149-157 | in a well-formed map every key in the order has a value, and restricting the values to the order loses nothing |
| Codec.RoundTrip | orderedmap.go:149-197 | unflatten(flatten(m)) succeeds, and replaying it into a new empty map reproduces m: the same keys, order and values |
| OrderedMaps.MarshalUnmarshalRoundTrip | orderedmap.go:149-197 | at the list level, assuming decoding returns the encoded list unchanged: Marshal followed by Unmarshal into a new map reports no error and produces a map whose model equals the original |

## Left out

- The `sync.RWMutex` and all locking (orderedmap.go:19 and every `Lock`/`RLock`) are not modelled.
  - Concurrency is not modelled at all.
  - In particular, `MarshalJSON` calls `Keys` and `Get` under separate locks, so it is not atomic with respect to a concurrent writer.
  - `Keys` takes the read lock again through `Len`.
- The byte encodings are left out: gob inside JSON in `MarshalJSON`, and JSON then gob in `UnmarshalJSON`.
  - `Marshal` returns the flat list that would be encoded.
  - `Unmarshal` receives the decoder's outcome as `Option<seq<T>>`: `None` stands for any `json.Unmarshal` or `gob` decode error.
  - The encoder's own error path in `MarshalJSON` (orderedmap.go:161-164) is therefore not modelled.
- `interface{}` keys and values are replaced by type parameters.
  - Keys need equality (`K(==)`).
  - Go's runtime panic on an unhashable key or on a failed type assertion has no counterpart.
  - `Marshal`/`Unmarshal` are module-level methods on `OrderedMap<T, T>`, because in the serialized list keys and values share one element type.
- `container/list` is replaced by a minimal doubly linked list with only the operations the map uses.
  - Go's sentinel root node, lazy initialisation and the other list operations are not modelled.
  - Go's clearing of the removed node's pointers is not modelled either.
- The `Element` type that `Front` and `Back` return (with its handle to the list element) is not part of this model. `Front` and `Back` return the `(key, value)` pair, or `None` where Go returns nil.
- OrderedMaps.OrderedMap.Get: returns `Option<V>` instead of Go's pair `(value, ok)`. `None` stands for `(nil, false)`.
- OrderedMaps.OrderedMap.Keys: builds the result by appending to a sequence. Go writes into a slice preallocated with length `Len()`. The resulting contents are the same.
- OrderedMaps.OrderedMap.Len: returns an unbounded `nat` instead of Go's `int`. A map cannot hold more entries than `int` counts, so no wrap-around is modelled.
- OrderedMaps.Unmarshal: computes `count := length / 2` and tests `count * 2 != length` on naturals. Go uses shifts on a non-negative `int`, which gives the same result.
- OrderedMaps.OrderedMap: keys are compared with Dafny's equality, which is reflexive. Go compares `interface{}` keys with `==`, which is not reflexive for a key holding a floating-point NaN.
  - In Go, `Set` of a NaN key never finds it in `kv`, so every call returns true and appends another node (orderedmap.go:48-52).
  - `Get`, `GetOrDefault` and `Delete` never find such a key (orderedmap.go:34, 65, 101), so it can never be deleted.
  - `Keys` then lists that key once per `Set`, so the "every key appears once" invariant does not hold in Go for such keys. The model covers only keys whose equality is reflexive.
- OrderedMaps.MarshalUnmarshalRoundTrip: proves the round trip at the level of the flat list only. It assumes that gob and JSON decoding return exactly the list that was encoded. gob does not preserve pointer identity, so for example a pointer key comes back as a new pointer, which this model does not capture.
- OrderedMaps.OrderedMap: only maps built by `NewOrderedMap` are modelled; every method requires `Valid()`. Go's zero value (`var m OrderedMap`, `new(OrderedMap)`, or a nil `*OrderedMap` field that `json.Unmarshal` allocates before calling `UnmarshalJSON`) has a nil `kv` and a nil `ll`.
  - On it, `Set` panics at `m.ll.PushBack` (orderedmap.go:51).
  - `Keys`, `Front`, `Back` and `MarshalJSON` panic at `m.ll.Front()`/`m.ll.Back()` (orderedmap.go:87, 115, 134, 150).
  - `UnmarshalJSON` of a non-empty list panics at its first `Set` (orderedmap.go:193).
  - Only `Get`, `GetOrDefault`, `Len` and `Delete` work on it, treating it as empty. None of this is modelled.
