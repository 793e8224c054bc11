/** The runtime's hashmap, seen from the reflection layer: an abstract
    table from keys to element bytes, created for one of three hashing
    algorithms. */
module Hashmaps {
  import opened Words
  import opened Errors
  import opened Types

  /** `hashmapAlgorithmBinary`, `hashmapAlgorithmString`,
      `hashmapAlgorithmInterface`, numbered as the runtime numbers them. */
  const AlgBinary: nat := 0
  const AlgString: nat := 1
  const AlgInterface: nat := 2

  /** A key as handed to the runtime: the bytes of a string, the raw bytes
      of a binary key, or an interface value. */
  datatype MapKey =
    | StringKey(text: seq<byte>)
    | BinaryKey(bytes: seq<byte>)
    | InterfaceKey(iface: Iface)

  datatype HashMap = HashMap(alg: nat, keySize: nat, valueSize: nat, hint: nat, entries: map<MapKey, seq<byte>>)

  /** `hashmapMake`: an empty table. */
  function Make(keySize: nat, valueSize: nat, hint: nat, alg: nat): (m: HashMap)
    ensures m.entries == map[] && m.alg == alg && m.keySize == keySize && m.valueSize == valueSize
  {
    HashMap(alg, keySize, valueSize, hint, map[])
  }

  /** `hashmap*Get`: the element bytes stored under k, if there are any. */
  function Get(m: HashMap, k: MapKey): Option<seq<byte>> {
    if k in m.entries then Some(m.entries[k]) else None
  }

  /** `hashmap*Set`. */
  function Put(m: HashMap, k: MapKey, elem: seq<byte>): HashMap {
    m.(entries := m.entries[k := elem])
  }

  /** `hashmap*Delete`. */
  function Delete(m: HashMap, k: MapKey): HashMap {
    m.(entries := m.entries - {k})
  }
}
