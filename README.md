# HashMap: a separate-chaining hash map, modelled in Dafny

`hashmap.js` is a hash map from string keys to values. It is written from
scratch, without the host language's `Map`. A `HashMap` has:

- a public `length`;
- a private `#capacity`, 16 at the start;
- a load factor of 0.75;
- a bucket array `#map`, with one singly linked chain of `HashNode`s per slot.

A key's slot is `h % capacity`, where `h` accumulates `h = 31*h + charCode`
over the key. `#getNode` walks that slot's chain. It returns the node with
the key, if any, and the node before it. `get`, `set`, `has` and `remove` are
built on this walk.

`set` first runs `#resize`. When `length / capacity > 0.75`, the resize
collects every reachable node, doubles the capacity, and calls `set` again on
each collected pair. `entries`, `keys` and `values` list the chains slot by
slot. `clear` starts over with 16 empty slots.

The project has three modules:

- `Hashing` (hashing.dfy): keys as UTF-16 code units, the hash accumulator
  `HashCode`, and the slot `SlotOf`.
- `HashTable` (hashtable.dfy): the map's state as a value,
  `Table(length, capacity, slots)`. Each slot is the sequence of its chain's
  nodes, head first. There is one function per operation: `Lookup`, `Place`
  (the part of `set` after the resize check), `Regrow`/`Resized`, `Removed`
  and `Empty`. `Inv` is the invariant every reachable state satisfies, and
  the lemmas state what each operation preserves.
- `HashMaps` (hashmap.dfy): the class `HashMap<V>`. Its fields are `length`,
  `capacity`, and `buckets: array<seq<HashNode<V>>>`. Every method is proved
  against `State()` and the functions above. `Set` and `Resize` call each
  other, as `set` and `#resize` do.

The model follows the code, including three behaviours that a user of a
hash map might not expect:

- `has` returns `true` for every key. It tests the `{ node, parent }` object,
  and that object is never null.
- `remove` cuts the chain at the removed node. When the node is the head, the
  slot is emptied. Otherwise the parent's `next` is set to null. Either way,
  every node after the removed one is lost too, yet `length` falls by only
  one. So `length` is at least the number of reachable nodes, not always
  equal to it.
- The resize test is strict and runs before the insertion. From 16 slots,
  the 13th `set` of a new key runs with `length` 12 and does not resize. The
  14th `set` grows the table to 32 slots.

A hash map's `has` usually tests presence, and its `remove` usually splices
the node out of its chain. This code does neither, and the model follows the
code.

The insertion path is correct as written. When the walk finds no node, it
stops at the tail of the chain, so `parent.next = new HashNode(...)` appends.
`PlaceAppends` proves this.

`Inv` also carries `4 * length <= 3 * capacity + 4`. The code never states
this bound, but every operation keeps it. It is what shows that the
`set` calls made during a resize never resize again (`RegrowNeverNests`).

## Model

| member | source | states |
|---|---|---|
| HashMaps.HashMap.constructor | hashmap.js:3-9 | a new map has `length` 0, 16 empty slots, and satisfies the invariant |
| HashMaps.HashMap.Hash | hashmap.js:12-21 | the loop computes `HashCode(key) % capacity` for the current capacity, so the slot is always below `capacity` |
| Hashing.SlotOf | hashmap.js:20 | reducing the accumulator modulo the capacity gives a slot index below the capacity |
| Hashing.HashCode | hashmap.js:14-18 | the accumulator after the loop over the whole key; it starts at 0 for the empty key. Its meaning is carried by `HashCodeAppend` (one turn of the loop) and by `Hash`, whose loop is proved to compute it |
| Hashing.HashCodeAppend | hashmap.js:16-18 | appending a code unit multiplies the accumulator by 31 and adds the code unit, as each turn of the loop does |
| HashTable.Find | hashmap.js:50-53 | the walk stops at the first node carrying the key, or at the end of the chain; no earlier node carries the key |
| HashMaps.HashMap.GetNode | hashmap.js:45-56 | `node` is the first node with the key, or null (then no node of the slot has the key); `parent` is the node just before the stopping point, null at the head; so on a miss `parent` is the chain's tail, or null for an empty slot |
| HashMaps.HashMap.Get | hashmap.js:59-64 | reads without changing anything and returns the found node's value, or null when the walk misses |
| HashTable.Lookup | hashmap.js:59-64 | a found value belongs to a node with that key in the key's slot. The full meaning over the whole table, both directions, is `LookupIffReachable` |
| HashTable.FlattenMembers | hashmap.js:112-126 | a node is listed by `entries()` exactly when it is in the chain of some slot; `EntriesOf` has no contract of its own and rests on this lemma and `FlattenAt` |
| HashTable.FlattenAt | hashmap.js:116-123 | the listing is the chains of the slots before `s`, then slot `s` head to tail, then the chains of the later slots |
| HashTable.LookupIffReachable | hashmap.js:59-64 | `get(key)` returns `value` exactly when a node `(key, value)` is reachable from the bucket array |
| HashTable.EntriesDistinct | hashmap.js:73-87 | in every reachable state, no key appears twice in the whole table |
| HashMaps.HashMap.Set | hashmap.js:70-88 | the new state is the resize check followed by an overwrite or an insertion; the invariant is preserved |
| HashTable.Place | hashmap.js:73-87 | its own contract keeps the table's shape and capacity and says `length` rises by at most 1; what it does to the chains is carried by `PlaceOverwrites`, `PlaceAppends` and `PlaceLookup` |
| HashTable.SetKeepsExactCount | hashmap.js:70-88 | a whole `set`, resize included, keeps `length` equal to the number of reachable nodes when it was equal before |
| HashTable.PlaceOverwrites | hashmap.js:73-78 | on a present key, only that node's value changes: `length`, the listing's order and every other entry stay the same |
| HashTable.PlaceAppends | hashmap.js:80-87 | on an absent key, the new node goes at the end of its slot's chain (as the head when the slot is empty), `length` rises by exactly 1, and the reachable nodes gain exactly that node |
| HashTable.PlaceLookup | hashmap.js:73-87 | after the update, `get(key)` returns the new value and every other key reads as before |
| HashTable.PlaceKeepsInv | hashmap.js:73-87 | when the load factor was not exceeded, the update keeps every node in its hashed slot, keys distinct, the count within `length`, and the load bound |
| HashTable.SetLookup | hashmap.js:70-88 | a whole `set`, resize included, keeps the invariant; `get(key)` then returns the new value and every other key reads as before |
| HashMaps.HashMap.Resize | hashmap.js:23-42 | fires exactly when `4*length > 3*capacity`; it then reinserts the reachable nodes, in listing order, into twice the slots |
| HashTable.Resized | hashmap.js:23-42 | unchanged when the load factor is not exceeded; otherwise the capacity doubles. The rest of its meaning is carried by `ResizedKeepsInv` and `RegrowPreserves` |
| HashTable.Regrow | hashmap.js:26-40 | its own contract keeps the shape and doubles the capacity; `RegrowPreserves` says what happens to the nodes, `length` and the reads |
| HashTable.PlaceAll | hashmap.js:40 | its own contract keeps the shape and the capacity; `PlaceAllInserts` says which nodes are added and how `length` grows |
| HashTable.RegrowPreserves | hashmap.js:26-40 | a resize doubles the capacity, keeps it a power of two of at least 16, keeps the multiset of reachable nodes and every `get` result, and sets `length` to the number of reachable nodes |
| HashTable.RegrowNeverNests | hashmap.js:40 | each `set` made while reinserting finds the load factor not exceeded, so it does not resize again |
| HashTable.PlaceAllInserts | hashmap.js:40 | reinserting distinct absent keys adds exactly those nodes, raises `length` by their number, and makes each key read back its value |
| HashTable.ResizedKeepsInv | hashmap.js:23-24 | the resize check at the start of `set` keeps the invariant and every `get` result, and afterwards the load factor is not exceeded |
| HashTable.GrowthThreshold | hashmap.js:24 | from a new map, 13 `set`s of distinct keys leave 16 slots; the 14th grows the table to 32 |
| HashMaps.HashMap.Has | hashmap.js:91-94 | returns true for every key, present or not |
| HashMaps.HashMap.Remove | hashmap.js:97-110 | the new state is the old one with the key's chain cut at the removed node and `length` one less, or unchanged when the key is absent; the buckets array stays the same |
| HashTable.Removed | hashmap.js:97-110 | its own contract keeps the shape and capacity and says `length` stays the same or falls by 1; `RemovedEntries` and `RemovedLookup` say what happens to the chain and the reads |
| HashTable.RemovedEntries | hashmap.js:97-110 | removing an absent key changes nothing; removing a present key lowers `length` by 1, replaces its chain by the nodes before it, and loses exactly the removed node and its successors |
| HashTable.RemovedLookup | hashmap.js:102-107 | after `remove(key)`, `get` finds nothing for `key` or for any key after it in the same chain, and every other key reads as before |
| HashTable.RemovedKeepsInv | hashmap.js:97-110 | `remove` keeps the invariant, so `length` stays at least the number of reachable nodes |
| HashTable.RemoveKeepsCountIffTail | hashmap.js:102-109 | starting from an exact count, `length` still equals the number of reachable nodes after removing a present key if and only if that key was last in its chain |
| HashTable.RemoveHeadDropsCollision | hashmap.js:102-109 | two keys colliding in slot 0: removing the head makes the second key unreachable, yet `length` is still 1 |
| HashMaps.RemoveDropsCollidedKey | hashmap.js:91-109 | on a real map, after removing the first of two colliding keys, `get` of the second returns null, `has` still says true, and `length` is 1 |
| HashMaps.HashMap.Entries | hashmap.js:112-126 | lists every reachable node, slots in index order and each chain head to tail, without changing the map |
| HashMaps.HashMap.Keys | hashmap.js:128-131 | as long as `entries()`, with each element the key of the corresponding entry |
| HashMaps.HashMap.Values | hashmap.js:133-136 | as long as `entries()`, with each element the value of the corresponding entry |
| HashMaps.HashMap.Clear | hashmap.js:138-142 | `length` 0, 16 slots, a fresh array of empty slots, and the invariant holds |
| HashTable.Empty | hashmap.js:138-142 | `length` 0 and the given number of slots: the state of a new map (lines 4-9) and of a cleared one. `EmptyListsNothing` (nothing listed, every read `null`) and `EmptyInv` carry the rest |
| HashTable.EmptyListsNothing | hashmap.js:138-142 | an emptied table lists no entries and `get` returns null for every key |
| HashTable.EmptyInv | hashmap.js:4-9 | a table with all slots empty and a power-of-two capacity of at least 16 satisfies the invariant |

## Left out

- Floating-point hashing: the accumulator of `#hash` is a double in the code,
  and the model computes it in exact integers. Past 2^53 the double loses
  precision. From 2^56 up every double is a multiple of 16, so at 16 slots
  every key of about 11 or more code units hashes to slot 0. From about 207
  code units the accumulator is `Infinity`, and `Infinity % capacity` is
  `NaN`. Such a node is stored under the property `"NaN"` of `#map`, which
  is not an array index. `entries()` never lists it although `length`
  counts it, and the next resize drops it, because its `forEach` never
  visits that property. None of this is modelled.
- Keys are sequences of UTF-16 code units (0..65535), which is what
  `charCodeAt` reads; Dafny's `string` is not used for them.
- Floating-point load factor: `length / capacity > 0.75` is modelled as
  `4 * length > 3 * capacity`. The two agree because the capacity is a power
  of two.
- Dynamic typing: values have a type parameter `V`. `get` returns `None` for
  the code's `null`. A stored `null` is not told apart from an absent key,
  and neither does the code do so.
- Node identity and aliasing: a chain is a sequence of key/value pairs, so
  JavaScript object identity of `HashNode`s is not modelled. The
  `{ node, parent }` object becomes two `Option` results of `GetNode`,
  together with the slot and position where the walk stopped.
- The `#loadFactor` field is the constant inside `Due`. It is never written.
- Writes to the public `length` field by outside code are not modelled.
- The `// @ts-check` directive and the JSDoc casts do nothing at run time.
