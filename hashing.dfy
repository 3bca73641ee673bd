/**
 * The multiplicative string hash of `HashMap.#hash` (hashmap.js).
 *
 * A JavaScript string is a sequence of UTF-16 code units and `charCodeAt`
 * yields one of them.  The accumulator is computed here in exact integer
 * arithmetic; the double-precision rounding of long keys is not modelled.
 */
module Hashing {

  /** A UTF-16 code unit, the value `charCodeAt` returns. */
  newtype CodeUnit = x: int | 0 <= x < 0x1_0000

  /** A key of the map: the code units of a JavaScript string. */
  type Key = seq<CodeUnit>

  const PRIME: nat := 31

  /** The accumulator `hash` after the loop over all of `key`. */
  function HashCode(key: Key): (h: nat)
    ensures |key| == 0 ==> h == 0
  {
    if |key| == 0 then 0 else PRIME * HashCode(key[..|key| - 1]) + key[|key| - 1] as int
  }

  /** One turn of the loop of `#hash`: appending a code unit to the key. */
  lemma HashCodeAppend(key: Key, c: CodeUnit)
    ensures HashCode(key + [c]) == PRIME * HashCode(key) + c as int
  {
    assert (key + [c])[..|key|] == key;
  }

  /** The slot `key` hashes to in a table of `capacity` slots. */
  function SlotOf(key: Key, capacity: nat): (slot: nat)
    requires capacity > 0
    ensures slot < capacity
  {
    HashCode(key) % capacity
  }
}
