/** Maps: `MakeMapWithSize` picks the hashing algorithm from the key type,
    and `MapIndex` / `SetMapIndex` check types, turn the key into the form
    that algorithm hashes, and call the runtime's table. */
module Maps {
  import opened Words
  import opened Kinds
  import opened Errors
  import opened Types
  import opened Flags
  import opened Memory
  import opened Hashmaps
  import opened Values
  import opened Construct

  /** The algorithm `MakeMapWithSize` selects for a key type. */
  function AlgorithmFor(key: RType): (alg: nat)
    ensures alg == AlgString <==> key.kind == String
    ensures alg == AlgBinary <==> key.kind != String && key.binary
    ensures alg == AlgInterface <==> key.kind != String && !key.binary
  {
    if key.kind == String then AlgString
    else if key.binary then AlgBinary
    else AlgInterface
  }

  /** `MakeMapWithSize(typ, n)`. The runtime's allocator hands out the new
      table's address, passed here as `a`: non-nil and not in use. */
  function MakeMapWithSize(typ: RType, n: int, h: Heap, a: nat, w: WordSize): (r: Result<Outcome>)
    requires 0 < a < WordLimit(w) && a !in h.maps
    requires typ.kind == Map ==> typ.key.Some? && typ.elem.Some?
    ensures r.Ok? <==> typ.kind == Map && n >= 0
    ensures typ.kind != Map ==> r == Fail("MakeMap", typ.kind)
    ensures typ.kind == Map && n < 0 ==> r == Err(Panic("reflect.MakeMapWithSize: negative size hint"))
    ensures r.Ok? ==> && r.value.value == Value(Some(typ), a, JustExported)
                      && a in r.value.heap.maps
                      && r.value.heap == h.(maps := h.maps[a := r.value.heap.maps[a]])
    ensures r.Ok? ==> var m := r.value.heap.maps[a];
                      && m.entries == map[] && m.alg == AlgorithmFor(typ.key.value)
                      && m.keySize == typ.key.value.size && m.valueSize == typ.elem.value.size
  {
    if typ.kind != Map then Fail("MakeMap", typ.kind)
    else if n < 0 then Err(Panic("reflect.MakeMapWithSize: negative size hint"))
    else
      var key := typ.key.value;
      var val := typ.elem.value;
      var m := Make(key.size, val.size, ToUnsigned(n, w), AlgorithmFor(key));
      Ok(Outcome(Value(Some(typ), a, JustExported), h.(maps := h.maps[a := m])))
  }

  /** `MakeMap(typ)`: a size hint of 8. */
  function MakeMap(typ: RType, h: Heap, a: nat, w: WordSize): (r: Result<Outcome>)
    requires 0 < a < WordLimit(w) && a !in h.maps
    requires typ.kind == Map ==> typ.key.Some? && typ.elem.Some?
    ensures r.Ok? <==> typ.kind == Map
    ensures r.Ok? ==> a in r.value.heap.maps && r.value.heap.maps[a].hint == 8
  {
    MakeMapWithSize(typ, 8, h, a, w)
  }

  /** The key as the runtime receives it: the string itself for string
      keys, the key's bytes for binary keys, and `key.Interface()`
      otherwise, which refuses a key reached through an unexported field. */
  function KeyOf(key: Value, h: Heap, w: WordSize): (r: Result<MapKey>)
    requires key.typ.Some?
    ensures r.Err? <==> ValueKind(key) != String && !key.typ.value.binary && !IsExported(key)
    ensures r.Err? ==> r.error == Panic("(reflect.Value).Interface: unexported")
    ensures r.Ok? ==> (r.value.StringKey? <==> ValueKind(key) == String)
    ensures r.Ok? ==> (r.value.BinaryKey? <==> ValueKind(key) != String && key.typ.value.binary)
  {
    if ValueKind(key) == String then
      var s := ReadString(h.mem, key.word, w);
      Ok(StringKey(ReadBytes(h.mem, s.data, s.len)))
    else if key.typ.value.binary then
      Ok(BinaryKey(Contents(key, h, w)))
    else
      var i :- InterfaceOf(key, h, w);
      Ok(InterfaceKey(i))
  }

  /** The runtime's lookup in the table at p; a nil map holds nothing. */
  function Lookup(h: Heap, p: nat, k: MapKey): Option<seq<byte>> {
    if p in h.maps then Get(h.maps[p], k) else None
  }

  /** `Value.MapIndex(key)`. The element is read into a fresh object made
      by `New`; a hit returns that object through `Elem`, a miss returns
      `Value{}`. The map pointer and the key are read before the
      allocation, which does not touch existing memory. */
  function MapIndex(v: Value, key: Value, h: Heap, w: WordSize): (r: Result<Outcome>)
    requires ValueKind(v) == Map ==> v.typ.value.key.Some? && v.typ.value.elem.Some?
    ensures ValueKind(v) != Map ==> r == Fail("MapIndex", ValueKind(v))
    ensures ValueKind(v) == Map && key.typ != v.typ.value.key ==>
              r == Err(Panic("reflect.Value.MapIndex: incompatible types for key"))
    ensures ValueKind(v) == Map && key.typ == v.typ.value.key ==>
              (r.Err? <==> KeyOf(key, h, w).Err?)
    ensures r.Ok? ==> r.value.heap.maps == h.maps && r.value.heap.types == h.types && |h.mem| < |r.value.heap.mem|
    ensures r.Ok? ==> r.value.value == ZeroValue || r.value.value.typ == v.typ.value.elem
  {
    if ValueKind(v) != Map then Fail("MapIndex", ValueKind(v))
    else if key.typ != v.typ.value.key then Err(Panic("reflect.Value.MapIndex: incompatible types for key"))
    else
      var et := v.typ.value.elem.value;
      var p := PointerOf(v, h, w);
      var k :- KeyOf(key, h, w);
      var e := New(et, h, w);
      var found := Lookup(h, p, k);
      if found.None? then Ok(Outcome(ZeroValue, e.heap))
      else
        var mem := WriteBytes(e.heap.mem, e.value.word, found.value);
        Ok(Outcome(Value(Some(et), e.value.word, SetIndirect(JustExported)), e.heap.(mem := mem)))
  }

  /** `Value.SetMapIndex(key, elem)`: `elem == Value{}` deletes the key,
      anything else stores the element's bytes under it. */
  function SetMapIndex(v: Value, key: Value, elem: Value, h: Heap, w: WordSize): (r: Result<Heap>)
    requires ValueKind(v) == Map ==> v.typ.value.key.Some? && v.typ.value.elem.Some?
    ensures ValueKind(v) != Map ==> r == Fail("SetMapIndex", ValueKind(v))
    ensures ValueKind(v) == Map && key.typ != v.typ.value.key ==>
              r == Err(Panic("reflect.Value.SetMapIndex: incompatible types for key"))
    ensures ValueKind(v) == Map && key.typ == v.typ.value.key && elem != ZeroValue && elem.typ != v.typ.value.elem ==>
              r == Err(Panic("reflect.Value.SetMapIndex: incompatible types for value"))
    ensures r.Ok? <==> && ValueKind(v) == Map && key.typ == v.typ.value.key
                       && (elem == ZeroValue || elem.typ == v.typ.value.elem)
                       && KeyOf(key, h, w).Ok?
                       && (elem == ZeroValue || PointerOf(v, h, w) in h.maps)
    ensures r.Ok? ==> r.value == h.(maps := r.value.maps)
  {
    if ValueKind(v) != Map then Fail("SetMapIndex", ValueKind(v))
    else if key.typ != v.typ.value.key then Err(Panic("reflect.Value.SetMapIndex: incompatible types for key"))
    else
      var del := elem == ZeroValue;
      if !del && elem.typ != v.typ.value.elem then Err(Panic("reflect.Value.SetMapIndex: incompatible types for value"))
      else
        var k :- KeyOf(key, h, w);
        var p := PointerOf(v, h, w);
        if del then
          if p in h.maps then Ok(h.(maps := h.maps[p := Delete(h.maps[p], k)])) else Ok(h)
        else if p !in h.maps then Err(Panic("assignment to entry in nil map"))
        else Ok(h.(maps := h.maps[p := Put(h.maps[p], k, Contents(elem, h, w))]))
  }

  // ---------------------------------------------------------------------
  // What a table holds after SetMapIndex, as MapIndex reads it back.

  /** A map descriptor names its key and element types. */
  predicate MapTyped(v: Value) {
    ValueKind(v) == Map && v.typ.value.key.Some? && v.typ.value.elem.Some?
  }

  /** The key form depends on the key value and memory only. */
  lemma KeyOfFrame(key: Value, h1: Heap, h2: Heap, w: WordSize)
    requires key.typ.Some? && h1.mem == h2.mem && h1.types == h2.types
    ensures KeyOf(key, h1, w) == KeyOf(key, h2, w)
  {
  }

  /** The key form MapIndex and SetMapIndex hand the runtime is the one
      the table's algorithm, chosen by MakeMapWithSize, hashes. */
  lemma KeyMatchesAlgorithm(typ: RType, key: Value, h: Heap, w: WordSize)
    requires typ.kind == Map && typ.key.Some? && key.typ == typ.key
    requires KeyOf(key, h, w).Ok?
    ensures var k := KeyOf(key, h, w).value;
            && (k.StringKey? <==> AlgorithmFor(typ.key.value) == AlgString)
            && (k.BinaryKey? <==> AlgorithmFor(typ.key.value) == AlgBinary)
            && (k.InterfaceKey? <==> AlgorithmFor(typ.key.value) == AlgInterface)
  {
  }

  /** A freshly made map holds nothing: every lookup misses. */
  lemma MakeThenIndexMisses(typ: RType, n: int, h: Heap, a: nat, key: Value, w: WordSize)
    requires 0 < a < WordLimit(w) && a !in h.maps
    requires typ.kind == Map && typ.key.Some? && typ.elem.Some? && n >= 0
    requires key.typ == typ.key && KeyOf(key, h, w).Ok?
    ensures var o := MakeMapWithSize(typ, n, h, a, w).value;
            var r := MapIndex(o.value, key, o.heap, w);
            r.Ok? && r.value.value == ZeroValue
  {
    var o := MakeMapWithSize(typ, n, h, a, w).value;
    JustExportedBits();
    assert PointerOf(o.value, o.heap, w) == a;
    KeyOfFrame(key, h, o.heap, w);
  }

  /** What SetMapIndex does, as lookups see it: the entry for the key
      now holds the element's bytes, or nothing after a delete, and every
      other lookup is as it was. Memory and descriptors are untouched. */
  lemma SetMapIndexEffect(v: Value, key: Value, elem: Value, h: Heap, h2: Heap, w: WordSize)
    requires MapTyped(v) && SetMapIndex(v, key, elem, h, w) == Ok(h2)
    ensures KeyOf(key, h, w).Ok?
    ensures h2 == h.(maps := h2.maps)
    ensures var p := PointerOf(v, h, w);
            var k := KeyOf(key, h, w).value;
            && Lookup(h2, p, k) == (if elem == ZeroValue then None else Some(Contents(elem, h, w)))
            && forall q, k' :: q != p || k' != k ==> Lookup(h2, q, k') == Lookup(h, q, k')
  {
  }

  /** SetMapIndex then MapIndex with the same key gives back a value of
      the element's type holding the element's bytes. */
  lemma SetThenIndex(v: Value, key: Value, elem: Value, h: Heap, h2: Heap, w: WordSize)
    requires MapTyped(v) && elem != ZeroValue
    requires SetMapIndex(v, key, elem, h, w) == Ok(h2)
    ensures MapIndex(v, key, h2, w).Ok?
    ensures var o := MapIndex(v, key, h2, w).value;
            && o.value.typ == elem.typ && IsIndirect(o.value) && IsExported(o.value)
            && Contents(o.value, o.heap, w) == Contents(elem, h, w)
  {
    SetMapIndexEffect(v, key, elem, h, h2, w);
    KeyOfFrame(key, h, h2, w);
    var p := PointerOf(v, h, w);
    assert PointerOf(v, h2, w) == p;
    var bs := Contents(elem, h, w);
    var e := New(v.typ.value.elem.value, h2, w);
    ReadAfterWrite(e.heap.mem, e.value.word, bs);
  }

  /** SetMapIndex with `Value{}` deletes: the next lookup misses. */
  lemma DeleteThenIndex(v: Value, key: Value, h: Heap, h2: Heap, w: WordSize)
    requires MapTyped(v)
    requires SetMapIndex(v, key, ZeroValue, h, w) == Ok(h2)
    ensures MapIndex(v, key, h2, w).Ok? && MapIndex(v, key, h2, w).value.value == ZeroValue
  {
    SetMapIndexEffect(v, key, ZeroValue, h, h2, w);
    KeyOfFrame(key, h, h2, w);
    assert PointerOf(v, h2, w) == PointerOf(v, h, w);
  }

  /** SetMapIndex touches one entry of one table: MapIndex of another key
      reads the same element as before. */
  lemma SetThenIndexOther(v: Value, key: Value, elem: Value, h: Heap, h2: Heap, other: Value, w: WordSize)
    requires MapTyped(v) && SetMapIndex(v, key, elem, h, w) == Ok(h2)
    requires other.typ == key.typ && KeyOf(other, h, w).Ok? && KeyOf(other, h, w) != KeyOf(key, h, w)
    ensures MapIndex(v, other, h, w).Ok? && MapIndex(v, other, h2, w).Ok?
    ensures MapIndex(v, other, h2, w).value.value == MapIndex(v, other, h, w).value.value
    ensures MapIndex(v, other, h2, w).value.heap.mem == MapIndex(v, other, h, w).value.heap.mem
  {
    SetMapIndexEffect(v, key, elem, h, h2, w);
    KeyOfFrame(other, h, h2, w);
    var p := PointerOf(v, h, w);
    assert PointerOf(v, h2, w) == p;
    var k' := KeyOf(other, h, w).value;
    assert Lookup(h2, p, k') == Lookup(h, p, k');
  }
}
