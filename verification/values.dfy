/** The reflection `Value`: a type descriptor, one payload word and the
    capability flags, together with the memory the payload word may point
    into; the predicates on flags and the scalar readers. */
module Values {
  import opened Words
  import opened Kinds
  import opened Errors
  import opened Types
  import opened Flags
  import opened Memory
  import opened Hashmaps

  /** State of a channel, as `chanlen`/`chancap` report it. */
  datatype ChanState = ChanState(len: nat, cap: nat)

  /** Everything a Value's word can refer to: bytes, and the runtime
      objects behind map and channel pointers and descriptor addresses. */
  datatype Heap = Heap(
    mem: seq<byte>,
    types: map<nat, RType>,
    maps: map<nat, HashMap>,
    chans: map<nat, ChanState>)

  /** `Value{typecode, value, flags}`. `word` is the raw `unsafe.Pointer`:
      the value's own bits when it fits in a word and is not indirect, and
      the address of the value otherwise. */
  datatype Value = Value(typ: Option<RType>, word: nat, flags: Flags)

  /** What an operation that allocates returns: the new Value and the heap
      it lives in. */
  datatype Outcome = Outcome(value: Value, heap: Heap)

  /** `Value{}`: no type, nil payload, no flags. */
  const ZeroValue: Value := Value(None, 0, 0)

  function ValueKind(v: Value): Kind {
    KindOf(v.typ)
  }

  predicate IsIndirect(v: Value) {
    HasIndirect(v.flags)
  }

  predicate IsExported(v: Value) {
    HasExported(v.flags)
  }

  /** The value lives in memory at `word` rather than in `word` itself. */
  predicate InMemory(v: Value, w: WordSize) {
    IsIndirect(v) || SizeOf(v.typ) > w
  }

  /** The bytes of the value, whichever way it is held. */
  function Contents(v: Value, h: Heap, w: WordSize): (bs: seq<byte>)
    ensures |bs| == SizeOf(v.typ)
  {
    if InMemory(v, w) then ReadBytes(h.mem, v.word, SizeOf(v.typ))
    else ToBytes(v.word, SizeOf(v.typ))
  }

  /** A value held inline carries nothing above its own bytes, as every
      value the compiler or this package builds does. */
  predicate Tidy(v: Value, w: WordSize) {
    !InMemory(v, w) ==> v.word < Pow2(8 * SizeOf(v.typ))
  }

  /** The payload word is a machine word and, when it is an address, the
      value's bytes do not run past the top of the address space. */
  predicate WordSound(v: Value, w: WordSize) {
    v.word < WordLimit(w) && (InMemory(v, w) ==> v.word + SizeOf(v.typ) < WordLimit(w))
  }

  // ---------------------------------------------------------------------
  // Flag predicates.

  predicate IsValid(v: Value) {
    v.typ.Some?
  }

  predicate CanInterface(v: Value) {
    IsExported(v)
  }

  predicate CanAddr(v: Value) {
    BitAnd(v.flags, Indirect) == Indirect
  }

  predicate CanSet(v: Value) {
    BitAnd(v.flags, BitOr(Exported, Indirect)) == BitOr(Exported, Indirect)
  }

  /** A value can be set exactly when it is both addressable and exported. */
  lemma CanSetIff(v: Value)
    ensures CanSet(v) <==> IsIndirect(v) && IsExported(v)
    ensures CanAddr(v) <==> IsIndirect(v)
    ensures CanInterface(v) <==> IsExported(v)
  {
    FlagTable(v.flags);
  }

  // ---------------------------------------------------------------------
  // Interfaces.

  function ValueOf(i: Iface): (v: Value)
    ensures v.typ == i.typ && v.word == i.word && IsExported(v) && !IsIndirect(v)
  {
    JustExportedBits();
    Value(i.typ, i.word, JustExported)
  }

  /** The descriptor at a type-code address; address 0 and unknown
      addresses give the nil descriptor. */
  function TypeAt(h: Heap, a: nat): Option<RType> {
    if a != 0 && a in h.types then Some(h.types[a]) else None
  }

  /** `*(*interface{})(p)`: a type-code word followed by a payload word. */
  function ReadIface(h: Heap, a: nat, w: WordSize): Iface {
    Iface(TypeAt(h, ReadWord(h.mem, a, w)), ReadWord(h.mem, a + w, w))
  }

  /** `valueInterfaceUnsafe`: the interface holding the value, with an
      indirect small value loaded back into the payload word. */
  function InterfaceUnsafe(v: Value, h: Heap, w: WordSize): (i: Iface)
    ensures ValueKind(v) != Interface ==> i.typ == v.typ
    ensures ValueKind(v) != Interface && IsIndirect(v) && SizeOf(v.typ) <= w ==>
              i.word == LittleEndian(ReadBytes(h.mem, v.word, SizeOf(v.typ)))
    ensures ValueKind(v) != Interface && !IsIndirect(v) ==> i.word == v.word
  {
    if ValueKind(v) == Interface then ReadIface(h, v.word, w)
    else if IsIndirect(v) && SizeOf(v.typ) <= w then Iface(v.typ, Unbox(h.mem, v.word, SizeOf(v.typ), w))
    else Iface(v.typ, v.word)
  }

  /** `Value.Interface`: refused for values reached through unexported
      fields. */
  function InterfaceOf(v: Value, h: Heap, w: WordSize): (r: Result<Iface>)
    ensures r.Ok? <==> CanInterface(v)
    ensures r.Ok? ==> r.value == InterfaceUnsafe(v, h, w)
    ensures r.Err? ==> r.error == Panic("(reflect.Value).Interface: unexported")
  {
    if !IsExported(v) then Err(Panic("(reflect.Value).Interface: unexported"))
    else Ok(InterfaceUnsafe(v, h, w))
  }

  /** Round trip: turning an exported value into an interface and back
      gives a value of the same type with the same bytes. */
  lemma InterfaceRoundTrip(v: Value, h: Heap, w: WordSize)
    requires ValueKind(v) != Interface && IsExported(v)
    ensures InterfaceOf(v, h, w).Ok?
    ensures ValueOf(InterfaceOf(v, h, w).value).typ == v.typ
    ensures Contents(ValueOf(InterfaceOf(v, h, w).value), h, w) == Contents(v, h, w)
  {
    var u := ValueOf(InterfaceOf(v, h, w).value);
    var n := SizeOf(v.typ);
    if IsIndirect(v) && n <= w {
      LittleEndianRoundTrip(ReadBytes(h.mem, v.word, n));
    }
  }

  // ---------------------------------------------------------------------
  // Scalar readers.

  /** The number a signed two's-complement field of `bits` bits holds. */
  function Signed(u: nat, bits: nat): (x: int)
    requires 0 < bits && u < Pow2(bits)
    ensures -(Pow2(bits - 1) as int) <= x < Pow2(bits - 1)
    ensures x >= 0 <==> u < Pow2(bits - 1)
    ensures (x - u) % Pow2(bits) == 0
  {
    assert Pow2(bits) == 2 * Pow2(bits - 1);
    if u < Pow2(bits - 1) then
      DivModUnique(0, Pow2(bits), 0, 0);
      u
    else
      DivModUnique(-(Pow2(bits) as int), Pow2(bits), -1, 0);
      u - Pow2(bits)
  }

  /** Truncating a number that fits in `bits` signed bits to its low bits
      and sign-extending them gives the number back. */
  lemma SignedOfResidue(x: int, bits: nat)
    requires 0 < bits && -(Pow2(bits - 1) as int) <= x < Pow2(bits - 1)
    ensures Signed(x % Pow2(bits), bits) == x
  {
    assert Pow2(bits) == 2 * Pow2(bits - 1);
    ModWindow(x, Pow2(bits));
  }

  /** `int(u)` for a uintptr u: the word read as a signed W-byte number. */
  function GoInt(u: nat, w: WordSize): (x: int)
    ensures IsGoInt(x, w)
    ensures u < WordLimit(w) && u <= MaxInt(w) ==> x == u
  {
    var bits := 8 * w;
    assert WordLimit(w) == Pow2(bits) && MaxInt(w) + 1 == Pow2(bits - 1);
    ModWindow(u, WordLimit(w));
    Signed(u % WordLimit(w), bits)
  }

  /** A word read as a Go int is zero exactly when the word is zero. */
  lemma GoIntZero(u: nat, w: WordSize)
    requires u < WordLimit(w)
    ensures GoInt(u, w) == 0 <==> u == 0
  {
    if u > MaxInt(w) {
      var bits := 8 * w;
      assert WordLimit(w) == Pow2(bits) && MaxInt(w) + 1 == Pow2(bits - 1);
      DivModUnique(u, WordLimit(w), 0, u);
      assert GoInt(u, w) == Signed(u, bits);
    }
  }

  /** The width in bytes of the integer kinds' fixed layout. */
  function IntBytes(k: Kind, w: WordSize): (n: nat)
    requires IsSignedInt(k) || IsUnsignedInt(k)
    ensures 1 <= n <= 8
  {
    KindSize(k, w).value
  }

  /** The n low bytes of the value as a number: loaded from memory when the
      value is there, cut from the payload word otherwise. */
  function Bits(v: Value, h: Heap, n: nat, w: WordSize): (x: nat)
    ensures x < Pow2(8 * n)
  {
    if IsIndirect(v) || n > w then
      LittleEndianBound(ReadBytes(h.mem, v.word, n));
      LittleEndian(ReadBytes(h.mem, v.word, n))
    else
      v.word % Pow2(8 * n)
  }

  /** When the value's type has the kind's size, its bits are its bytes. */
  lemma BitsAreContents(v: Value, h: Heap, w: WordSize)
    requires SizeOf(v.typ) <= 8
    ensures Bits(v, h, SizeOf(v.typ), w) == LittleEndian(Contents(v, h, w))
  {
    var n := SizeOf(v.typ);
    if !InMemory(v, w) {
      LittleEndianOfBytes(v.word, n);
    }
  }

  function BoolOf(v: Value, h: Heap, w: WordSize): (r: Result<bool>)
    ensures r.Ok? <==> ValueKind(v) == Bool
    ensures r.Err? ==> r.error == KindError(ValueError("Bool", ValueKind(v)))
  {
    if ValueKind(v) != Bool then Fail("Bool", ValueKind(v))
    else if IsIndirect(v) then Ok(ReadBytes(h.mem, v.word, 1)[0] != 0)
    else Ok(v.word % WordLimit(w) != 0)
  }

  /** A bool is true exactly when its one byte is not zero, whether that
      byte is in memory or is the payload word. */
  lemma BoolOfContents(v: Value, h: Heap, w: WordSize)
    requires ValueKind(v) == Bool && SizeOf(v.typ) == 1 && Tidy(v, w)
    ensures BoolOf(v, h, w) == Ok(Contents(v, h, w)[0] != 0)
  {
    if IsIndirect(v) {
      assert Contents(v, h, w) == ReadBytes(h.mem, v.word, 1);
    } else {
      Pow2Byte(0);
      var x := v.word;
      assert x < 256;
      assert Contents(v, h, w) == ToBytes(x, 1);
      DivModUnique(x, 256, 0, x);
      DivModUnique(x, WordLimit(w), 0, x);
      assert BoolOf(v, h, w) == Ok(x != 0);
    }
  }

  /** `Value.Int`: the field of the kind's width, sign-extended. */
  function IntOf(v: Value, h: Heap, w: WordSize): (r: Result<int>)
    ensures r.Ok? <==> IsSignedInt(ValueKind(v))
    ensures r.Err? ==> r.error == KindError(ValueError("Int", ValueKind(v)))
  {
    if !IsSignedInt(ValueKind(v)) then Fail("Int", ValueKind(v))
    else
      var n := IntBytes(ValueKind(v), w);
      Ok(Signed(Bits(v, h, n, w), 8 * n))
  }

  /** `Int` gives a number in the kind's signed range that agrees with the
      loaded bits modulo the kind's width. */
  lemma IntOfBits(v: Value, h: Heap, w: WordSize)
    requires IsSignedInt(ValueKind(v))
    ensures var n := IntBytes(ValueKind(v), w);
            && -(Pow2(8 * n - 1) as int) <= IntOf(v, h, w).value < Pow2(8 * n - 1)
            && (IntOf(v, h, w).value - Bits(v, h, n, w)) % Pow2(8 * n) == 0
  {
  }

  /** `Value.Uint`: loaded from memory at the kind's width when indirect,
      otherwise the whole payload word, which is not cut to the width. */
  function UintOf(v: Value, h: Heap, w: WordSize): (r: Result<nat>)
    ensures r.Ok? <==> IsUnsignedInt(ValueKind(v))
    ensures r.Err? ==> r.error == KindError(ValueError("Uint", ValueKind(v)))
  {
    if !IsUnsignedInt(ValueKind(v)) then Fail("Uint", ValueKind(v))
    else
      var n := IntBytes(ValueKind(v), w);
      if IsIndirect(v) || n > w then Ok(Bits(v, h, n, w))
      else Ok(v.word % WordLimit(w))
  }

  /** `Uint` of a tidy value whose type has the kind's size is the number
      its bytes spell, in memory or inline; it is always below the word
      limit or the kind's limit. */
  lemma UintOfContents(v: Value, h: Heap, w: WordSize)
    requires IsUnsignedInt(ValueKind(v))
    ensures Tidy(v, w) && SizeOf(v.typ) == IntBytes(ValueKind(v), w) ==>
              UintOf(v, h, w) == Ok(LittleEndian(Contents(v, h, w)))
    ensures UintOf(v, h, w).value < WordLimit(w) || UintOf(v, h, w).value < Pow2(8 * IntBytes(ValueKind(v), w))
  {
    if Tidy(v, w) && SizeOf(v.typ) == IntBytes(ValueKind(v), w) && !InMemory(v, w) {
      UintInline(v, h, w);
    }
  }

  lemma UintInline(v: Value, h: Heap, w: WordSize)
    requires IsUnsignedInt(ValueKind(v)) && !InMemory(v, w) && Tidy(v, w)
    requires SizeOf(v.typ) == IntBytes(ValueKind(v), w)
    ensures UintOf(v, h, w) == Ok(LittleEndian(Contents(v, h, w)))
  {
    var n := SizeOf(v.typ);
    var x := v.word;
    assert x < Pow2(8 * n) && n <= w;
    Pow2Monotone(8 * n, 8 * w);
    NoWrap(x, w);
    assert UintOf(v, h, w) == Ok(x);
    assert Contents(v, h, w) == ToBytes(x, n);
    BytesRoundTrip(x, n);
  }

  /** `pointer()`: the pointer a Chan, Map, Ptr or UnsafePointer value
      holds, loaded through `word` when the value is indirect. */
  function PointerOf(v: Value, h: Heap, w: WordSize): (p: nat)
    ensures IsIndirect(v) ==> p < WordLimit(w)
    ensures !IsIndirect(v) ==> p == v.word
  {
    if IsIndirect(v) then ReadWord(h.mem, v.word, w) else v.word
  }

  /** An indirect pointer is the number whose bytes `word` points at. */
  lemma PointerBytes(v: Value, h: Heap, w: WordSize)
    requires IsIndirect(v)
    ensures ToBytes(PointerOf(v, h, w), w) == ReadBytes(h.mem, v.word, w)
  {
    ReadWordBytes(h.mem, v.word, w);
  }
}
