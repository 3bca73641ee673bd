/**
 * The state of a `HashMap` (hashmap.js) as a value, the effect of each of its
 * operations on that value, and what those effects preserve.
 *
 * The bucket array `#map` holds one singly linked chain of `HashNode`s per
 * slot.  Here a chain is the sequence of its nodes from head to tail: the
 * `next` link of a node is the position after it, `parent.next = new` is an
 * append after position `parent`, and `parent.next = null` cuts the chain
 * just after `parent`.
 */
module HashTable {
  import opened Hashing

  datatype Option<T> = None | Some(value: T)

  /** A chain node: its key and value; its `next` is the node after it in its chain. */
  datatype HashNode<V> = HashNode(key: Key, value: V)

  /** The nodes of one slot, head first. */
  type Chain<V> = seq<HashNode<V>>

  /** The fields `length`, `#capacity` and `#map` of a `HashMap`. */
  datatype Table<V> = Table(length: int, capacity: nat, slots: seq<Chain<V>>)

  /** The capacity of a new or cleared map. */
  const INITIAL_CAPACITY: nat := 16

  predicate PowerOfTwo(n: nat)
    decreases n
  {
    n == 1 || (n >= 2 && n % 2 == 0 && PowerOfTwo(n / 2))
  }

  /** One chain per slot. */
  predicate Shaped<V>(t: Table<V>)
  {
    t.capacity > 0 && |t.slots| == t.capacity
  }

  /**
   * The test `length / capacity > loadFactor` with `loadFactor == 0.75`.  The
   * capacity is a power of two, so the quotient is exact and the test is
   * this integer comparison.
   */
  predicate Due<V>(t: Table<V>)
  {
    4 * t.length > 3 * t.capacity
  }

  /** The nodes of all chains, slots in index order, each chain head to tail. */
  function Flatten<V>(slots: seq<Chain<V>>): Chain<V>
  {
    if |slots| == 0 then [] else Flatten(slots[..|slots| - 1]) + slots[|slots| - 1]
  }

  /** Every node reachable from the bucket array, in the order of `entries()`. */
  function EntriesOf<V>(t: Table<V>): Chain<V>
  {
    Flatten(t.slots)
  }

  ghost function KeySet<V>(c: Chain<V>): set<Key>
  {
    set n | n in c :: n.key
  }

  ghost predicate DistinctKeys<V>(c: Chain<V>)
  {
    forall i, j :: 0 <= i < j < |c| ==> c[i].key != c[j].key
  }

  /** Every node sits in the slot its key hashes to. */
  ghost predicate WellPlaced<V>(t: Table<V>)
  {
    Shaped(t) &&
    forall i, j :: 0 <= i < |t.slots| && 0 <= j < |t.slots[i]| ==> SlotOf(t.slots[i][j].key, t.capacity) == i
  }

  /**
   * What every reachable state of a `HashMap` satisfies.  `length` may exceed
   * the number of reachable nodes, because `remove` can drop the successors
   * of the node it removes while counting only one removal.  The last
   * conjunct bounds how far a `set` can overshoot the load factor; it is what
   * keeps the reinsertions of a resize from resizing again.
   */
  ghost predicate Inv<V>(t: Table<V>)
  {
    && WellPlaced(t)
    && t.capacity >= INITIAL_CAPACITY && PowerOfTwo(t.capacity)
    && (forall i :: 0 <= i < |t.slots| ==> DistinctKeys(t.slots[i]))
    && |EntriesOf(t)| <= t.length
    && 4 * t.length <= 3 * t.capacity + 4
  }

  // ---------------------------------------------------------------------------
  // The walk of `#getNode` and the read of `get`
  // ---------------------------------------------------------------------------

  /**
   * Where the walk of `#getNode` stops in `chain`: at the first node whose key
   * is `key`, or at the end of the chain.
   */
  function Find<V>(chain: Chain<V>, key: Key): (p: nat)
    ensures p <= |chain|
    ensures forall j :: 0 <= j < p ==> chain[j].key != key
    ensures p < |chain| ==> chain[p].key == key
  {
    if |chain| == 0 || chain[0].key == key then 0 else 1 + Find(chain[1..], key)
  }

  /** What `get(key)` returns: the value of the node found, or `null` (`None`). */
  function Lookup<V>(t: Table<V>, key: Key): (r: Option<V>)
    requires Shaped(t)
    ensures r.Some? ==> HashNode(key, r.value) in t.slots[SlotOf(key, t.capacity)]
  {
    var chain := t.slots[SlotOf(key, t.capacity)];
    var p := Find(chain, key);
    if p < |chain| then Some(chain[p].value) else None
  }

  // ---------------------------------------------------------------------------
  // The updates
  // ---------------------------------------------------------------------------

  /** A table of `capacity` empty slots and `length` 0. */
  function Empty<V>(capacity: nat): (t: Table<V>)
    requires capacity > 0
    ensures Shaped(t) && t.capacity == capacity && t.length == 0
  {
    Table(0, capacity, seq(capacity, _ => []))
  }

  /**
   * The part of `set(key, value)` after the resize check: overwrite the value
   * of the node found, else append a new node to the parent the walk stopped
   * at, else make it the head of the empty slot, and count it.
   */
  function Place<V>(t: Table<V>, key: Key, value: V): (r: Table<V>)
    requires Shaped(t)
    ensures Shaped(r) && r.capacity == t.capacity
    ensures r.length == t.length || r.length == t.length + 1
  {
    var s := SlotOf(key, t.capacity);
    var chain := t.slots[s];
    var p := Find(chain, key);
    if p < |chain| then
      t.(slots := t.slots[s := chain[p := HashNode(key, value)]])
    else if p > 0 then
      t.(length := t.length + 1, slots := t.slots[s := chain[..p] + [HashNode(key, value)]])
    else
      t.(length := t.length + 1, slots := t.slots[s := [HashNode(key, value)]])
  }

  /** `Place` applied to the nodes of `nodes`, first to last. */
  function PlaceAll<V>(t: Table<V>, nodes: Chain<V>): (r: Table<V>)
    requires Shaped(t)
    ensures Shaped(r) && r.capacity == t.capacity
    decreases |nodes|
  {
    if |nodes| == 0 then t
    else
      var last := nodes[|nodes| - 1];
      Place(PlaceAll(t, nodes[..|nodes| - 1]), last.key, last.value)
  }

  /**
   * The body of `#resize` once it fires: twice the slots, `length` 0, then every
   * reachable node reinserted in the order `entries()` lists them.
   */
  function Regrow<V>(t: Table<V>): (r: Table<V>)
    requires Shaped(t)
    ensures Shaped(r) && r.capacity == 2 * t.capacity
  {
    PlaceAll(Empty(2 * t.capacity), EntriesOf(t))
  }

  /** `#resize`: regrow exactly when the load factor is exceeded. */
  function Resized<V>(t: Table<V>): (r: Table<V>)
    requires Shaped(t)
    ensures Shaped(r)
    ensures Due(t) ==> r.capacity == 2 * t.capacity
    ensures !Due(t) ==> r == t
  {
    if Due(t) then Regrow(t) else t
  }

  /**
   * `remove(key)`: nothing when the walk finds no node; otherwise the chain is
   * cut before the node found (the slot emptied when it is the head, the
   * parent's `next` set to null otherwise) and `length` falls by one.
   */
  function Removed<V>(t: Table<V>, key: Key): (r: Table<V>)
    requires Shaped(t)
    ensures Shaped(r) && r.capacity == t.capacity
    ensures r.length == t.length || r.length == t.length - 1
  {
    var s := SlotOf(key, t.capacity);
    var chain := t.slots[s];
    var p := Find(chain, key);
    if p == |chain| then t
    else t.(length := t.length - 1, slots := t.slots[s := chain[..p]])
  }

  /** The state after a client's calls `set(k, v)` for each node of `nodes` in turn. */
  function SetAll<V>(t: Table<V>, nodes: Chain<V>): (r: Table<V>)
    requires Shaped(t)
    ensures Shaped(r)
    decreases |nodes|
  {
    if |nodes| == 0 then t
    else
      var last := nodes[|nodes| - 1];
      Place(Resized(SetAll(t, nodes[..|nodes| - 1])), last.key, last.value)
  }

  // ---------------------------------------------------------------------------
  // Facts about Find
  // ---------------------------------------------------------------------------

  /** The three properties of `Find` determine it. */
  lemma FindIs<V>(chain: Chain<V>, key: Key, p: nat)
    requires p <= |chain|
    requires forall j :: 0 <= j < p ==> chain[j].key != key
    requires p < |chain| ==> chain[p].key == key
    ensures Find(chain, key) == p
  {
  }

  /** The walk only looks at keys. */
  lemma FindSameKeys<V>(c: Chain<V>, d: Chain<V>, key: Key)
    requires |c| == |d|
    requires forall j :: 0 <= j < |c| ==> c[j].key == d[j].key
    ensures Find(c, key) == Find(d, key)
  {
    var p := Find(c, key);
    FindIs(d, key, p);
  }

  lemma FindAppend<V>(c: Chain<V>, n: HashNode<V>, key: Key)
    ensures Find(c + [n], key) == if Find(c, key) < |c| || n.key == key then Find(c, key) else |c| + 1
  {
    var p := Find(c, key);
    var d := c + [n];
    if p < |c| || n.key == key {
      FindIs(d, key, p);
    } else {
      FindIs(d, key, |c| + 1);
    }
  }

  lemma FindPrefix<V>(c: Chain<V>, m: nat, key: Key)
    requires m <= |c|
    ensures Find(c[..m], key) == if Find(c, key) < m then Find(c, key) else m
  {
    var p := Find(c, key);
    if p < m {
      FindIs(c[..m], key, p);
    } else {
      FindIs(c[..m], key, m);
    }
  }

  // ---------------------------------------------------------------------------
  // Facts about Flatten
  // ---------------------------------------------------------------------------

  lemma {:induction false} FlattenAppend<V>(a: seq<Chain<V>>, b: seq<Chain<V>>)
    ensures Flatten(a + b) == Flatten(a) + Flatten(b)
    decreases |b|
  {
    if |b| == 0 {
      assert a + b == a;
    } else {
      var b' := b[..|b| - 1];
      assert (a + b)[..|a + b| - 1] == a + b';
      FlattenAppend(a, b');
    }
  }

  /** The listing splits around any one slot. */
  lemma FlattenAt<V>(slots: seq<Chain<V>>, s: nat)
    requires s < |slots|
    ensures Flatten(slots) == Flatten(slots[..s]) + slots[s] + Flatten(slots[s + 1..])
  {
    var pre := slots[..s];
    var mid := slots[..s + 1];
    var post := slots[s + 1..];
    assert |mid| == s + 1 && mid[..s] == pre && mid[s] == slots[s];
    assert Flatten(mid) == Flatten(pre) + slots[s];
    assert slots == mid + post;
    FlattenAppend(mid, post);
  }

  lemma FlattenUpdate<V>(slots: seq<Chain<V>>, s: nat, c: Chain<V>)
    requires s < |slots|
    ensures Flatten(slots) == Flatten(slots[..s]) + slots[s] + Flatten(slots[s + 1..])
    ensures Flatten(slots[s := c]) == Flatten(slots[..s]) + c + Flatten(slots[s + 1..])
  {
    var u := slots[s := c];
    FlattenAt(slots, s);
    FlattenAt(u, s);
    assert u[..s] == slots[..s];
    assert u[s + 1..] == slots[s + 1..];
  }

  /** Cutting chain `s` after `p` nodes loses exactly the nodes from `p` on. */
  lemma FlattenCut<V>(slots: seq<Chain<V>>, s: nat, p: nat)
    requires s < |slots| && p <= |slots[s]|
    ensures var cut := Flatten(slots[s := slots[s][..p]]);
      && multiset(cut) == multiset(Flatten(slots)) - multiset(slots[s][p..])
      && |cut| == |Flatten(slots)| - (|slots[s]| - p)
  {
    var c := slots[s];
    FlattenUpdate(slots, s, c[..p]);
    var a := Flatten(slots[..s]);
    var b := Flatten(slots[s + 1..]);
    assert c == c[..p] + c[p..];
    var ma, mb, mc, md := multiset(a), multiset(b), multiset(c[..p]), multiset(c[p..]);
    assert multiset(Flatten(slots)) == ma + mc + md + mb;
    assert multiset(Flatten(slots[s := c[..p]])) == ma + mc + mb;
  }

  lemma {:induction false} FlattenMembers<V>(slots: seq<Chain<V>>, n: HashNode<V>)
    ensures n in Flatten(slots) <==> exists i :: 0 <= i < |slots| && n in slots[i]
    decreases |slots|
  {
    if |slots| > 0 {
      var init := slots[..|slots| - 1];
      FlattenMembers(init, n);
      if n in Flatten(slots) && n in Flatten(init) {
        var i :| 0 <= i < |init| && n in init[i];
        assert slots[i] == init[i];
      }
      if exists i :: 0 <= i < |slots| && n in slots[i] {
        var i :| 0 <= i < |slots| && n in slots[i];
        if i < |slots| - 1 {
          assert init[i] == slots[i];
        }
      }
    }
  }

  lemma {:induction false} FlattenAllEmpty<V>(slots: seq<Chain<V>>)
    requires forall i :: 0 <= i < |slots| ==> slots[i] == []
    ensures Flatten(slots) == []
    decreases |slots|
  {
    if |slots| > 0 {
      FlattenAllEmpty(slots[..|slots| - 1]);
    }
  }

  // ---------------------------------------------------------------------------
  // Reads
  // ---------------------------------------------------------------------------

  lemma {:induction false} PrefixDistinct<V>(t: Table<V>, m: nat)
    requires Inv(t) && m <= |t.slots|
    ensures DistinctKeys(Flatten(t.slots[..m]))
    ensures forall n :: n in Flatten(t.slots[..m]) ==> SlotOf(n.key, t.capacity) < m
    decreases m
  {
    if m > 0 {
      PrefixDistinct(t, m - 1);
      var a := Flatten(t.slots[..m - 1]);
      var b := t.slots[m - 1];
      assert t.slots[..m][..m - 1] == t.slots[..m - 1];
      var ab := Flatten(t.slots[..m]);
      assert ab == a + b;
      forall n | n in b
        ensures SlotOf(n.key, t.capacity) == m - 1
      {
        var j :| 0 <= j < |b| && b[j] == n;
      }
      forall i, j | 0 <= i < j < |ab|
        ensures ab[i].key != ab[j].key
      {
        if j < |a| {
          assert ab[i] == a[i] && ab[j] == a[j];
        } else if i >= |a| {
          assert ab[i] == b[i - |a|] && ab[j] == b[j - |a|];
        } else {
          assert ab[i] in a;
          assert ab[j] in b;
        }
      }
    }
  }

  /** Each key appears at most once in the whole table. */
  lemma EntriesDistinct<V>(t: Table<V>)
    requires Inv(t)
    ensures DistinctKeys(EntriesOf(t))
  {
    PrefixDistinct(t, |t.slots|);
    assert t.slots[..|t.slots|] == t.slots;
  }

  /** `get(key)` returns `value` exactly when a node `(key, value)` is reachable. */
  lemma LookupIffReachable<V>(t: Table<V>, key: Key, value: V)
    requires Inv(t)
    ensures Lookup(t, key) == Some(value) <==> HashNode(key, value) in EntriesOf(t)
  {
    var s := SlotOf(key, t.capacity);
    var c := t.slots[s];
    var p := Find(c, key);
    var n := HashNode(key, value);
    FlattenMembers(t.slots, n);
    if Lookup(t, key) == Some(value) {
      assert c[p] == n;
      assert n in t.slots[s];
    }
    if n in EntriesOf(t) {
      var i :| 0 <= i < |t.slots| && n in t.slots[i];
      var j :| 0 <= j < |t.slots[i]| && t.slots[i][j] == n;
      assert i == s;
      assert p <= j;
      if p < j {
        assert c[p].key == c[j].key;
      }
    }
  }

  /** A key that no reachable node carries reads as absent. */
  lemma NoKeyNoLookup<V>(t: Table<V>, key: Key)
    requires Inv(t)
    requires key !in KeySet(EntriesOf(t))
    ensures Lookup(t, key) == None
  {
    if Lookup(t, key).Some? {
      LookupIffReachable(t, key, Lookup(t, key).value);
    }
  }

  // ---------------------------------------------------------------------------
  // set
  // ---------------------------------------------------------------------------

  /**
   * On an absent key both insertion branches append: the walk ended at the
   * tail, so `parent.next = new` adds after the last node, and a new head is
   * placed only in an empty slot.
   */
  lemma PlaceAppends<V>(t: Table<V>, key: Key, value: V)
    requires Shaped(t) && Lookup(t, key) == None
    ensures var s := SlotOf(key, t.capacity); var r := Place(t, key, value);
      && r.length == t.length + 1
      && r.slots == t.slots[s := t.slots[s] + [HashNode(key, value)]]
      && multiset(EntriesOf(r)) == multiset(EntriesOf(t)) + multiset{HashNode(key, value)}
  {
    var s := SlotOf(key, t.capacity);
    var c := t.slots[s];
    var n := HashNode(key, value);
    var p := Find(c, key);
    assert p == |c|;
    if p > 0 {
      assert c[..p] == c;
    } else {
      assert [n] == c + [n];
    }
    FlattenUpdate(t.slots, s, c + [n]);
  }

  /**
   * On a present key `set` changes only that node's value: `length`, the
   * order of the listing and every other entry stay as they were.
   */
  lemma PlaceOverwrites<V>(t: Table<V>, key: Key, value: V)
    requires Inv(t) && Lookup(t, key).Some?
    ensures var r := Place(t, key, value);
      && r.length == t.length
      && |EntriesOf(r)| == |EntriesOf(t)|
      && forall i :: 0 <= i < |EntriesOf(t)| ==>
           EntriesOf(r)[i] == if EntriesOf(t)[i].key == key then HashNode(key, value) else EntriesOf(t)[i]
  {
    var s := SlotOf(key, t.capacity);
    var c := t.slots[s];
    var p := Find(c, key);
    var n := HashNode(key, value);
    var r := Place(t, key, value);
    FlattenUpdate(t.slots, s, c[p := n]);
    var a := Flatten(t.slots[..s]);
    var b := Flatten(t.slots[s + 1..]);
    var e := EntriesOf(t);
    var q := |a| + p;
    assert e == a + c + b;
    assert EntriesOf(r) == a + c[p := n] + b;
    assert EntriesOf(r) == e[q := n];
    assert e[q] == c[p];
    EntriesDistinct(t);
    forall i | 0 <= i < |e|
      ensures EntriesOf(r)[i] == if e[i].key == key then n else e[i]
    {
      if i < q {
        assert e[i].key != e[q].key;
      } else if i > q {
        assert e[q].key != e[i].key;
      }
    }
  }

  /** After a `Place`, `get(key)` returns the new value and every other key reads as before. */
  lemma PlaceLookup<V>(t: Table<V>, key: Key, value: V)
    requires Shaped(t)
    ensures Lookup(Place(t, key, value), key) == Some(value)
    ensures forall k :: k != key ==> Lookup(Place(t, key, value), k) == Lookup(t, k)
  {
    var s := SlotOf(key, t.capacity);
    var c := t.slots[s];
    var p := Find(c, key);
    var n := HashNode(key, value);
    var r := Place(t, key, value);
    var c' := r.slots[s];
    if p < |c| {
      assert c' == c[p := n];
      FindSameKeys(c, c', key);
    } else {
      assert c' == c + [n] by {
        if p > 0 {
          assert c[..p] == c;
        }
      }
      FindAppend(c, n, key);
    }
    forall k | k != key
      ensures Lookup(r, k) == Lookup(t, k)
    {
      if SlotOf(k, t.capacity) == s {
        if p < |c| {
          FindSameKeys(c, c', k);
        } else {
          FindAppend(c, n, k);
        }
      }
    }
  }

  /**
   * Replacing one chain by another that is well placed, has distinct keys and
   * keeps the count within `length` keeps the invariant.
   */
  lemma ReplaceChain<V>(t: Table<V>, s: nat, c: Chain<V>, length: int)
    requires Inv(t) && s < |t.slots|
    requires forall j :: 0 <= j < |c| ==> SlotOf(c[j].key, t.capacity) == s
    requires DistinctKeys(c)
    requires |EntriesOf(t)| - |t.slots[s]| + |c| <= length
    requires 4 * length <= 3 * t.capacity + 4
    ensures Inv(Table(length, t.capacity, t.slots[s := c]))
    ensures |EntriesOf(Table(length, t.capacity, t.slots[s := c]))| == |EntriesOf(t)| - |t.slots[s]| + |c|
  {
    FlattenUpdate(t.slots, s, c);
    var r := Table(length, t.capacity, t.slots[s := c]);
    forall i, j | 0 <= i < |r.slots| && 0 <= j < |r.slots[i]|
      ensures SlotOf(r.slots[i][j].key, r.capacity) == i
    {
      if i != s {
        assert r.slots[i] == t.slots[i];
      }
    }
    forall i | 0 <= i < |r.slots|
      ensures DistinctKeys(r.slots[i])
    {
      if i != s {
        assert r.slots[i] == t.slots[i];
      }
    }
  }

  /** `Place` keeps the invariant when the load factor was not exceeded. */
  lemma PlaceKeepsInv<V>(t: Table<V>, key: Key, value: V)
    requires Inv(t) && !Due(t)
    ensures Inv(Place(t, key, value))
  {
    var s := SlotOf(key, t.capacity);
    var c := t.slots[s];
    var p := Find(c, key);
    var n := HashNode(key, value);
    var r := Place(t, key, value);
    if p < |c| {
      var c' := c[p := n];
      assert r == Table(t.length, t.capacity, t.slots[s := c']);
      assert DistinctKeys(c') by {
        forall a, b | 0 <= a < b < |c'|
          ensures c'[a].key != c'[b].key
        {
          assert c'[a].key == c[a].key && c'[b].key == c[b].key;
        }
      }
      ReplaceChain(t, s, c', t.length);
    } else {
      PlaceAppends(t, key, value);
      var c' := c + [n];
      assert r == Table(t.length + 1, t.capacity, t.slots[s := c']);
      assert DistinctKeys(c') by {
        forall a, b | 0 <= a < b < |c'|
          ensures c'[a].key != c'[b].key
        {
          if b < |c| {
            assert c'[a] == c[a] && c'[b] == c[b];
          }
        }
      }
      ReplaceChain(t, s, c', t.length + 1);
    }
  }

  /**
   * Reinserting distinct keys that are all absent appends each of them: the
   * reachable nodes grow by exactly `nodes`, `length` by `|nodes|`, and each
   * key reads back its value.
   */
  lemma {:induction false} PlaceAllInserts<V>(t: Table<V>, nodes: Chain<V>)
    requires Inv(t) && DistinctKeys(nodes)
    requires forall i :: 0 <= i < |nodes| ==> Lookup(t, nodes[i].key) == None
    requires 4 * (t.length + |nodes|) <= 3 * t.capacity + 4
    ensures var r := PlaceAll(t, nodes);
      && Inv(r) && r.length == t.length + |nodes|
      && multiset(EntriesOf(r)) == multiset(EntriesOf(t)) + multiset(nodes)
      && (forall i :: 0 <= i < |nodes| ==> Lookup(r, nodes[i].key) == Some(nodes[i].value))
      && (forall k :: k !in KeySet(nodes) ==> Lookup(r, k) == Lookup(t, k))
    decreases |nodes|
  {
    if |nodes| > 0 {
      var init := nodes[..|nodes| - 1];
      var last := nodes[|nodes| - 1];
      assert nodes == init + [last];
      DistinctSnoc(init, last);
      KeySetSnoc(init, last);
      PlaceAllInserts(t, init);
      var m := PlaceAll(t, init);
      PlaceAllStep(t, m, init, last);
    }
  }

  /** The last step of `PlaceAllInserts`: one more absent key on top of `init`. */
  lemma PlaceAllStep<V>(t: Table<V>, m: Table<V>, init: Chain<V>, last: HashNode<V>)
    requires Inv(m) && Shaped(t) && m.capacity == t.capacity
    requires m.length == t.length + |init|
    requires 4 * (t.length + |init| + 1) <= 3 * t.capacity + 4
    requires last.key !in KeySet(init)
    requires Lookup(t, last.key) == None
    requires forall i :: 0 <= i < |init| ==> Lookup(m, init[i].key) == Some(init[i].value)
    requires forall k :: k !in KeySet(init) ==> Lookup(m, k) == Lookup(t, k)
    ensures var r := Place(m, last.key, last.value); var nodes := init + [last];
      && Inv(r) && r.length == t.length + |nodes|
      && multiset(EntriesOf(r)) == multiset(EntriesOf(m)) + multiset{last}
      && (forall i :: 0 <= i < |nodes| ==> Lookup(r, nodes[i].key) == Some(nodes[i].value))
      && (forall k :: k !in KeySet(init) && k != last.key ==> Lookup(r, k) == Lookup(t, k))
  {
    var nodes := init + [last];
    assert Lookup(m, last.key) == None;
    PlaceKeepsInv(m, last.key, last.value);
    PlaceAppends(m, last.key, last.value);
    PlaceLookup(m, last.key, last.value);
    var r := Place(m, last.key, last.value);
    forall i | 0 <= i < |nodes|
      ensures Lookup(r, nodes[i].key) == Some(nodes[i].value)
    {
      if i < |init| {
        assert nodes[i] == init[i];
        assert init[i] in init;
        assert nodes[i].key in KeySet(init);
      }
    }
  }

  lemma KeySetSnoc<V>(init: Chain<V>, last: HashNode<V>)
    ensures KeySet(init + [last]) == KeySet(init) + {last.key}
  {
    var nodes := init + [last];
    forall k | k in KeySet(nodes)
      ensures k in KeySet(init) + {last.key}
    {
      var x :| x in nodes && x.key == k;
      if x != last {
        assert x in init;
      }
    }
    forall k | k in KeySet(init)
      ensures k in KeySet(nodes)
    {
      var x :| x in init && x.key == k;
      assert x in nodes;
    }
    assert last in nodes;
  }

  lemma DistinctSnoc<V>(init: Chain<V>, last: HashNode<V>)
    requires DistinctKeys(init + [last])
    ensures DistinctKeys(init)
    ensures last.key !in KeySet(init)
  {
    var nodes := init + [last];
    forall a, b | 0 <= a < b < |init|
      ensures init[a].key != init[b].key
    {
      assert init[a] == nodes[a] && init[b] == nodes[b];
    }
    forall x | x in init
      ensures x.key != last.key
    {
      var i :| 0 <= i < |init| && init[i] == x;
      assert nodes[i] == x && nodes[|init|] == last;
    }
  }

  // ---------------------------------------------------------------------------
  // resize
  // ---------------------------------------------------------------------------

  lemma InitialCapacityIsPowerOfTwo()
    ensures PowerOfTwo(INITIAL_CAPACITY)
  {
    assert PowerOfTwo(1);
    assert PowerOfTwo(2);
    assert PowerOfTwo(4);
    assert PowerOfTwo(8);
  }

  /** A cleared table lists nothing and finds nothing. */
  lemma EmptyListsNothing<V>(capacity: nat)
    requires capacity > 0
    ensures EntriesOf(Empty<V>(capacity)) == []
    ensures forall k :: Lookup(Empty<V>(capacity), k) == None
  {
    FlattenAllEmpty(Empty<V>(capacity).slots);
  }

  lemma EmptyInv<V>(capacity: nat)
    requires capacity >= INITIAL_CAPACITY && PowerOfTwo(capacity)
    ensures Inv(Empty<V>(capacity))
  {
    EmptyListsNothing<V>(capacity);
  }

  /**
   * While a resize reinserts the nodes of `t`, every `set` it makes finds the
   * load factor not exceeded, so no resize runs inside another.
   */
  lemma RegrowNeverNests<V>(t: Table<V>, i: nat)
    requires Inv(t) && i <= |EntriesOf(t)|
    ensures var m := PlaceAll(Empty(2 * t.capacity), EntriesOf(t)[..i]);
      Inv(m) && m.length == i && !Due(m)
  {
    var es := EntriesOf(t);
    var e := Empty<V>(2 * t.capacity);
    assert PowerOfTwo(2 * t.capacity);
    EmptyInv<V>(2 * t.capacity);
    EmptyListsNothing<V>(2 * t.capacity);
    EntriesDistinct(t);
    var pre := es[..i];
    assert DistinctKeys(pre) by {
      forall a, b | 0 <= a < b < |pre|
        ensures pre[a].key != pre[b].key
      {
        assert pre[a] == es[a] && pre[b] == es[b];
      }
    }
    PlaceAllInserts(e, pre);
  }

  /**
   * A resize keeps the reachable nodes (as a multiset) and what `get` returns
   * for every key, doubles the capacity, and sets `length` to the number of
   * reachable nodes.
   */
  lemma RegrowPreserves<V>(t: Table<V>)
    requires Inv(t)
    ensures var r := Regrow(t);
      && Inv(r) && !Due(r)
      && r.capacity == 2 * t.capacity
      && r.length == |EntriesOf(t)| == |EntriesOf(r)|
      && multiset(EntriesOf(r)) == multiset(EntriesOf(t))
      && forall k :: Lookup(r, k) == Lookup(t, k)
  {
    var es := EntriesOf(t);
    var e := Empty<V>(2 * t.capacity);
    RegrowNeverNests(t, |es|);
    assert es[..|es|] == es;
    EntriesDistinct(t);
    EmptyListsNothing<V>(2 * t.capacity);
    EmptyInv<V>(2 * t.capacity);
    PlaceAllInserts(e, es);
    var r := Regrow(t);
    assert |EntriesOf(r)| == |multiset(EntriesOf(r))| == |es|;
    forall k
      ensures Lookup(r, k) == Lookup(t, k)
    {
      ReadsAsBefore(t, r, k);
    }
  }

  /** A table that reads back exactly the reachable nodes of `t` reads like `t`. */
  lemma ReadsAsBefore<V>(t: Table<V>, r: Table<V>, k: Key)
    requires Inv(t) && Shaped(r)
    requires forall i :: 0 <= i < |EntriesOf(t)| ==> Lookup(r, EntriesOf(t)[i].key) == Some(EntriesOf(t)[i].value)
    requires forall k :: k !in KeySet(EntriesOf(t)) ==> Lookup(r, k) == Lookup(Empty<V>(r.capacity), k)
    ensures Lookup(r, k) == Lookup(t, k)
  {
    var es := EntriesOf(t);
    if k in KeySet(es) {
      var x :| x in es && x.key == k;
      var i :| 0 <= i < |es| && es[i] == x;
      LookupIffReachable(t, k, x.value);
    } else {
      EmptyListsNothing<V>(r.capacity);
      NoKeyNoLookup(t, k);
    }
  }

  /** The resize check at the start of `set` keeps the invariant and every read. */
  lemma ResizedKeepsInv<V>(t: Table<V>)
    requires Inv(t)
    ensures var r := Resized(t);
      && Inv(r) && !Due(r)
      && (forall k :: Lookup(r, k) == Lookup(t, k))
      && multiset(EntriesOf(r)) == multiset(EntriesOf(t))
      && (Due(t) ==> r.capacity == 2 * t.capacity && r.length == |EntriesOf(t)|)
      && (!Due(t) ==> r == t)
  {
    if Due(t) {
      RegrowPreserves(t);
    }
  }

  /**
   * `set(key, value)` as a whole: afterwards `get(key)` returns `value` and
   * every other key reads as before.
   */
  lemma SetLookup<V>(t: Table<V>, key: Key, value: V)
    requires Inv(t)
    ensures var r := Place(Resized(t), key, value);
      && Inv(r)
      && Lookup(r, key) == Some(value)
      && forall k :: k != key ==> Lookup(r, k) == Lookup(t, k)
  {
    ResizedKeepsInv(t);
    PlaceKeepsInv(Resized(t), key, value);
    PlaceLookup(Resized(t), key, value);
  }

  /**
   * From a new map, the first thirteen `set`s of distinct keys leave 16 slots
   * (the thirteenth runs with `length` 12, and 12/16 is not above 0.75); the
   * fourteenth finds 13/16 above it and grows the table to 32 slots.
   */
  lemma GrowthThreshold<V>(nodes: Chain<V>)
    requires |nodes| == 14 && DistinctKeys(nodes)
    ensures SetAll(Empty(INITIAL_CAPACITY), nodes[..13]).capacity == INITIAL_CAPACITY
    ensures SetAll(Empty(INITIAL_CAPACITY), nodes).capacity == 2 * INITIAL_CAPACITY
  {
    var e := Empty<V>(INITIAL_CAPACITY);
    InitialCapacityIsPowerOfTwo();
    EmptyInv<V>(INITIAL_CAPACITY);
    EmptyListsNothing<V>(INITIAL_CAPACITY);
    SetAllBelowThreshold(nodes, 13);
    var m := SetAll(e, nodes[..13]);
    assert Due(m);
    assert nodes[..14] == nodes;
    assert nodes[..13] == nodes[..|nodes| - 1];
  }

  /** Helper of `GrowthThreshold`: up to 13 distinct keys are placed without a resize. */
  lemma {:induction false} SetAllBelowThreshold<V>(nodes: Chain<V>, i: nat)
    requires DistinctKeys(nodes) && i <= 13 && i <= |nodes|
    ensures var m := SetAll(Empty(INITIAL_CAPACITY), nodes[..i]);
      && m == PlaceAll(Empty(INITIAL_CAPACITY), nodes[..i])
      && m.length == i && m.capacity == INITIAL_CAPACITY && Inv(m)
    decreases i
  {
    var e := Empty<V>(INITIAL_CAPACITY);
    InitialCapacityIsPowerOfTwo();
    EmptyInv<V>(INITIAL_CAPACITY);
    EmptyListsNothing<V>(INITIAL_CAPACITY);
    var pre := nodes[..i];
    assert DistinctKeys(pre) by {
      forall a, b | 0 <= a < b < |pre|
        ensures pre[a].key != pre[b].key
      {
        assert pre[a] == nodes[a] && pre[b] == nodes[b];
      }
    }
    PlaceAllInserts(e, pre);
    if i > 0 {
      SetAllBelowThreshold(nodes, i - 1);
      assert pre[..i - 1] == nodes[..i - 1];
      var m := SetAll(e, nodes[..i - 1]);
      assert !Due(m);
    }
  }

  // ---------------------------------------------------------------------------
  // remove
  // ---------------------------------------------------------------------------

  /**
   * `remove(key)` on an absent key changes nothing; on a present key it
   * decrements `length` by one and drops the node found together with every
   * node after it in its chain.
   */
  lemma RemovedEntries<V>(t: Table<V>, key: Key)
    requires Shaped(t)
    ensures var s := SlotOf(key, t.capacity); var c := t.slots[s]; var p := Find(c, key);
      var r := Removed(t, key);
      && (Lookup(t, key) == None ==> r == t)
      && (Lookup(t, key).Some? ==>
            && r.length == t.length - 1
            && r.slots == t.slots[s := c[..p]]
            && multiset(EntriesOf(r)) == multiset(EntriesOf(t)) - multiset(c[p..])
            && |EntriesOf(r)| == |EntriesOf(t)| - (|c| - p))
  {
    var s := SlotOf(key, t.capacity);
    var c := t.slots[s];
    var p := Find(c, key);
    if p < |c| {
      FlattenCut(t.slots, s, p);
    }
  }

  /**
   * What `get(k)` returns after `remove(key)`: nothing for `key` and for every
   * key after it in the same chain, the old value for every other key.
   */
  lemma RemovedLookup<V>(t: Table<V>, key: Key, k: Key)
    requires Shaped(t)
    ensures var s := SlotOf(key, t.capacity); var c := t.slots[s];
      Lookup(Removed(t, key), k) ==
        if SlotOf(k, t.capacity) == s && Find(c, k) >= Find(c, key) then None else Lookup(t, k)
  {
    var s := SlotOf(key, t.capacity);
    var c := t.slots[s];
    var p := Find(c, key);
    if p < |c| && SlotOf(k, t.capacity) == s {
      FindPrefix(c, p, k);
    }
  }

  lemma RemovedKeepsInv<V>(t: Table<V>, key: Key)
    requires Inv(t)
    ensures Inv(Removed(t, key))
  {
    var s := SlotOf(key, t.capacity);
    var c := t.slots[s];
    var p := Find(c, key);
    if p < |c| {
      var c' := c[..p];
      assert DistinctKeys(c') by {
        forall a, b | 0 <= a < b < |c'|
          ensures c'[a].key != c'[b].key
        {
          assert c'[a] == c[a] && c'[b] == c[b];
        }
      }
      ReplaceChain(t, s, c', t.length - 1);
    }
  }

  /**
   * A whole `set(key, value)`, resize included, keeps `length` equal to the
   * number of reachable nodes when it was equal before.
   */
  lemma SetKeepsExactCount<V>(t: Table<V>, key: Key, value: V)
    requires Inv(t) && t.length == |EntriesOf(t)|
    ensures var r := Place(Resized(t), key, value); r.length == |EntriesOf(r)|
  {
    var u := Resized(t);
    ResizedKeepsInv(t);
    if Due(t) {
      RegrowPreserves(t);
    }
    if Lookup(u, key).Some? {
      PlaceOverwrites(u, key, value);
    } else {
      PlaceAppends(u, key, value);
      var r := Place(u, key, value);
      assert |EntriesOf(r)| == |multiset(EntriesOf(r))| == |multiset(EntriesOf(u))| + 1;
    }
  }

  /**
   * Starting from an exact count, `length` stays equal to the number of
   * reachable nodes after removing a present key exactly when that key was
   * the last node of its chain.
   */
  lemma RemoveKeepsCountIffTail<V>(t: Table<V>, key: Key)
    requires Inv(t) && t.length == |EntriesOf(t)| && Lookup(t, key).Some?
    ensures var c := t.slots[SlotOf(key, t.capacity)]; var r := Removed(t, key);
      r.length == |EntriesOf(r)| <==> Find(c, key) == |c| - 1
  {
    RemovedEntries(t, key);
  }

  /**
   * Two keys that collide in slot 0 of a new map: removing the head drops the
   * second key as well, while `length` still counts it.
   */
  lemma RemoveHeadDropsCollision<V>(a: V, b: V)
    ensures var k0: Key := [0]; var k16: Key := [16];
      var t := Place(Place(Empty(INITIAL_CAPACITY), k0, a), k16, b);
      var r := Removed(t, k0);
      && Lookup(t, k0) == Some(a) && Lookup(t, k16) == Some(b)
      && Lookup(r, k16) == None && r.length == 1 && EntriesOf(r) == []
  {
    var k0: Key := [0];
    var k16: Key := [16];
    assert k0[..0] == [] && k16[..0] == [];
    assert HashCode(k0) == 0 && HashCode(k16) == 16;
    assert SlotOf(k0, INITIAL_CAPACITY) == 0 && SlotOf(k16, INITIAL_CAPACITY) == 0;
    var e := Empty<V>(INITIAL_CAPACITY);
    var t1 := Place(e, k0, a);
    assert t1.slots[0] == [HashNode(k0, a)];
    var t := Place(t1, k16, b);
    PlaceLookup(t1, k16, b);
    PlaceLookup(e, k0, a);
    assert k0 != k16 by {
      assert k0[0] != k16[0];
    }
    assert Find(t1.slots[0], k16) == 1;
    assert t.slots[0] == [HashNode(k0, a), HashNode(k16, b)];
    assert Find(t.slots[0], k0) == 0;
    var r := Removed(t, k0);
    assert r.slots[0] == [];
    assert r.slots == e.slots;
    EmptyListsNothing<V>(INITIAL_CAPACITY);
    assert EntriesOf(r) == EntriesOf(e);
  }
}
