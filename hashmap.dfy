/**
 * The `HashMap` class of hashmap.js: a separate-chaining hash map from string
 * keys to values of any type `V`.
 *
 * The bucket array `#map` is the array `buckets`; each slot holds the chain
 * of its `HashNode`s head first (see module HashTable), and an empty slot is
 * the empty chain.  Every method is proved against the value `State()` and
 * the functions of HashTable that say what each operation does to it.
 */
module HashMaps {
  import opened Hashing
  import opened HashTable

  class HashMap<V> {
    /** The public `length` field. */
    var length: int
    /** `#capacity`: the number of slots. */
    var capacity: nat
    /** `#map`: one chain per slot. */
    var buckets: array<Chain<V>>

    ghost function State(): Table<V>
      reads this, buckets
    {
      Table(length, capacity, buckets[..])
    }

    ghost predicate Valid()
      reads this, buckets
    {
      Inv(State())
    }

    /** The field initialisers: `length` 0, 16 slots, every slot empty. */
    constructor ()
      ensures Valid() && fresh(buckets)
      ensures State() == Empty(INITIAL_CAPACITY)
    {
      length := 0;
      capacity := INITIAL_CAPACITY;
      buckets := new Chain<V>[INITIAL_CAPACITY](_ => []);
      new;
      assert buckets[..] == Empty<V>(INITIAL_CAPACITY).slots;
      InitialCapacityIsPowerOfTwo();
      EmptyInv<V>(INITIAL_CAPACITY);
    }

    /** `#hash`: the slot of `key` for the current capacity. */
    method Hash(key: Key) returns (slot: nat)
      requires Valid()
      ensures slot < capacity
      ensures slot == SlotOf(key, capacity)
    {
      var hash: nat := 0;
      var i := 0;
      while i < |key|
        invariant 0 <= i <= |key|
        invariant hash == HashCode(key[..i])
      {
        assert key[..i + 1][..i] == key[..i];
        hash := PRIME * hash + key[i] as int;
        i := i + 1;
      }
      assert key[..i] == key;
      slot := hash % capacity;
    }

    /**
     * `#resize`: when `length / capacity > 0.75`, collect every reachable node,
     * reset `length`, double the capacity, allocate empty slots, and `set`
     * each collected pair again.
     */
    method Resize()
      requires Valid()
      modifies this, buckets
      ensures Valid()
      ensures State() == Resized(old(State()))
      ensures buckets == old(buckets) || fresh(buckets)
      decreases if 4 * length > 3 * capacity then 2 else 0
    {
      if 4 * length > 3 * capacity {
        ghost var t := State();
        var nodes := Entries();
        RegrowNeverNests(t, 0);
        length := 0;
        capacity := capacity * 2;
        buckets := new Chain<V>[capacity](_ => []);
        assert buckets[..] == Empty<V>(capacity).slots;
        assert nodes[..0] == [];
        var k := 0;
        while k < |nodes|
          invariant 0 <= k <= |nodes|
          invariant fresh(buckets)
          invariant capacity == 2 * t.capacity
          invariant State() == PlaceAll(Empty(capacity), nodes[..k])
          invariant Valid()
        {
          ghost var m := State();
          RegrowNeverNests(t, k);
          assert !Due(m) && Resized(m) == m;
          var n := nodes[k];
          Set(n.key, n.value);
          assert State() == Place(m, n.key, n.value);
          assert nodes[..k + 1][..k] == nodes[..k] && nodes[..k + 1][k] == n;
          assert State() == PlaceAll(Empty(capacity), nodes[..k + 1]);
          k := k + 1;
        }
        assert nodes[..k] == nodes;
      }
    }

    /**
     * `#getNode`: walk the chain of `key`'s slot to the first node with that
     * key.  `node` is that node, or `None` when the walk ran off the end;
     * `parent` is the node before the stop, or `None` when the walk stopped
     * at the head.  `slot` and `pos` say where the walk stopped.
     */
    method GetNode(key: Key) returns (node: Option<HashNode<V>>, parent: Option<HashNode<V>>, slot: nat, pos: nat)
      requires Valid()
      ensures slot == SlotOf(key, capacity) && slot < buckets.Length
      ensures pos == Find(buckets[slot], key)
      ensures node.Some? ==> node.value.key == key
      ensures node.None? ==> forall j :: 0 <= j < |buckets[slot]| ==> buckets[slot][j].key != key
      ensures node == if pos < |buckets[slot]| then Some(buckets[slot][pos]) else None
      ensures parent == if pos > 0 then Some(buckets[slot][pos - 1]) else None
    {
      slot := Hash(key);
      var chain := buckets[slot];
      parent := None;
      pos := 0;
      node := if |chain| > 0 then Some(chain[0]) else None;
      while node.Some? && node.value.key != key
        invariant pos <= |chain|
        invariant node == if pos < |chain| then Some(chain[pos]) else None
        invariant parent == if pos > 0 then Some(chain[pos - 1]) else None
        invariant forall j :: 0 <= j < pos ==> chain[j].key != key
        decreases |chain| - pos
      {
        parent := node;
        pos := pos + 1;
        node := if pos < |chain| then Some(chain[pos]) else None;
      }
      FindIs(chain, key, pos);
    }

    /** `get`: the value stored under `key`, or `null` (`None`). */
    method Get(key: Key) returns (r: Option<V>)
      requires Valid()
      ensures r == Lookup(State(), key)
    {
      var node, parent, slot, pos := GetNode(key);
      if node.None? {
        return None;
      }
      return Some(node.value.value);
    }

    /**
     * `set`: run the resize check, then overwrite the value of the node found,
     * or link a new node after the parent the walk stopped at, or make it the
     * head of the empty slot, and count it.
     */
    method Set(key: Key, value: V)
      requires Valid()
      modifies this, buckets
      ensures Valid()
      ensures State() == Place(Resized(old(State())), key, value)
      ensures buckets == old(buckets) || fresh(buckets)
      decreases if 4 * length > 3 * capacity then 3 else 1
    {
      ghost var t := State();
      Resize();
      ghost var u := State();
      assert u == Resized(t);
      ResizedKeepsInv(t);
      PlaceKeepsInv(u, key, value);
      var node, parent, slot, pos := GetNode(key);
      if node.Some? {
        buckets[slot] := buckets[slot][pos := HashNode(key, value)];
        assert State() == Place(u, key, value);
        return;
      }
      if parent.Some? {
        buckets[slot] := buckets[slot][..pos] + [HashNode(key, value)];
      } else {
        var hash := Hash(key);
        buckets[hash] := [HashNode(key, value)];
      }
      length := length + 1;
      assert State() == Place(u, key, value);
    }

    /**
     * `has`: `!!{ node, parent }` tests the pair object returned by `#getNode`,
     * which is never null, so the answer is true whatever the key.
     */
    method Has(key: Key) returns (r: bool)
      requires Valid()
      ensures r
    {
      var node, parent, slot, pos := GetNode(key);
      r := true;
    }

    /**
     * `remove`: when the walk finds the key, cut the chain there (null out the
     * parent's `next`, or the whole slot when the node is the head) and
     * decrement `length`.
     */
    method Remove(key: Key)
      requires Valid()
      modifies this, buckets
      ensures Valid()
      ensures buckets == old(buckets)
      ensures State() == Removed(old(State()), key)
    {
      ghost var t := State();
      RemovedKeepsInv(t, key);
      var node, parent, slot, pos := GetNode(key);
      if node.None? {
        return;
      }
      if parent.Some? {
        buckets[slot] := buckets[slot][..pos];
      } else {
        var hash := Hash(key);
        buckets[hash] := [];
      }
      length := length - 1;
    }

    /** `entries`: every reachable node, slots in index order, each chain head to tail. */
    method Entries() returns (nodes: Chain<V>)
      ensures nodes == EntriesOf(State())
    {
      nodes := [];
      var i := 0;
      while i < buckets.Length
        invariant 0 <= i <= buckets.Length
        invariant nodes == Flatten(buckets[..i])
      {
        var chain := buckets[i];
        var j := 0;
        while j < |chain|
          invariant 0 <= j <= |chain|
          invariant nodes == Flatten(buckets[..i]) + chain[..j]
        {
          nodes := nodes + [chain[j]];
          j := j + 1;
        }
        assert chain[..j] == chain;
        assert buckets[..i + 1][..i] == buckets[..i];
        i := i + 1;
      }
      assert buckets[..i] == buckets[..];
    }

    /** `keys`: the key of each entry of `entries()`, in the same order. */
    method Keys() returns (keys: seq<Key>)
      ensures |keys| == |EntriesOf(State())|
      ensures forall i :: 0 <= i < |keys| ==> keys[i] == EntriesOf(State())[i].key
    {
      var nodes := Entries();
      keys := seq(|nodes|, i requires 0 <= i < |nodes| => nodes[i].key);
    }

    /** `values`: the value of each entry of `entries()`, in the same order. */
    method Values() returns (values: seq<V>)
      ensures |values| == |EntriesOf(State())|
      ensures forall i :: 0 <= i < |values| ==> values[i] == EntriesOf(State())[i].value
    {
      var nodes := Entries();
      values := seq(|nodes|, i requires 0 <= i < |nodes| => nodes[i].value);
    }

    /** `clear`: `length` 0, 16 slots, a fresh array of empty slots. */
    method Clear()
      modifies this
      ensures Valid() && fresh(buckets)
      ensures State() == Empty(INITIAL_CAPACITY)
    {
      length := 0;
      capacity := INITIAL_CAPACITY;
      buckets := new Chain<V>[capacity](_ => []);
      assert buckets[..] == Empty<V>(INITIAL_CAPACITY).slots;
      InitialCapacityIsPowerOfTwo();
      EmptyInv<V>(INITIAL_CAPACITY);
    }
  }

  /**
   * Two keys that share slot 0 of a new map: after removing the first, the
   * second can no longer be found, `has` still answers true for it, and
   * `length` still counts it.
   */
  method RemoveDropsCollidedKey() returns (found: Option<int>, present: bool, length: int)
    ensures found == None && present && length == 1
  {
    var k0: Key := [0];
    var k16: Key := [16];
    var m := new HashMap<int>();
    ghost var e := m.State();
    assert !Due(e);
    m.Set(k0, 1);
    ghost var t1 := m.State();
    assert t1 == Place(e, k0, 1);
    assert k0[..0] == [];
    assert SlotOf(k0, INITIAL_CAPACITY) == 0;
    assert t1.length == 1;
    m.Set(k16, 2);
    RemoveHeadDropsCollision(1, 2);
    m.Remove(k0);
    found := m.Get(k16);
    present := m.Has(k16);
    length := m.length;
  }
}
