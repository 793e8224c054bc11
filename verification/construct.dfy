/** Building values from a type (Zero, New) and asking whether a value is
    its type's zero value (IsZero). */
module Construct {
  import opened Words
  import opened Kinds
  import opened Errors
  import opened Types
  import opened Flags
  import opened Memory
  import opened Values
  import opened Access

  /** `zerobufferLen`: the bytes of the shared read-only zero buffer. */
  const ZeroBufferLen: nat := 32

  /** `Zero(typ)`: nil when the value fits a word, the shared zero buffer
      when it fits that, and a fresh zeroed object otherwise. `zerobuffer`
      is the address of the buffer. */
  function Zero(typ: RType, h: Heap, zerobuffer: nat, w: WordSize): (r: Outcome)
    ensures r.value.typ == Some(typ) && r.value.flags == JustExported
    ensures h.mem <= r.heap.mem && r.heap == h.(mem := r.heap.mem)
    ensures typ.size <= w ==> r.value.word == 0 && !InMemory(r.value, w)
    ensures w < typ.size <= ZeroBufferLen ==> r.value.word == zerobuffer && r.heap == h
    ensures ZeroBufferLen < typ.size ==> r.value.word == |h.mem| + 1
  {
    JustExportedBits();
    if typ.size <= w then Outcome(Value(Some(typ), 0, JustExported), h)
    else if typ.size <= ZeroBufferLen then Outcome(Value(Some(typ), zerobuffer, JustExported), h)
    else
      var a := Alloc(h.mem, Zeros(typ.size));
      Outcome(Value(Some(typ), a.addr, JustExported), h.(mem := a.mem))
  }

  /** The bytes of `ToBytes(0, n)` are all zero. */
  lemma BytesOfZero(n: nat)
    ensures ToBytes(0, n) == Zeros(n)
  {
    BytesZero(0, n);
  }

  /** A zero value holds zero bytes, provided the shared buffer does, and
      it cannot be set, so the shared buffer is never written through it. */
  lemma ZeroContents(typ: RType, h: Heap, zerobuffer: nat, w: WordSize)
    requires ReadBytes(h.mem, zerobuffer, ZeroBufferLen) == Zeros(ZeroBufferLen)
    ensures var r := Zero(typ, h, zerobuffer, w);
            Contents(r.value, r.heap, w) == Zeros(typ.size) && !CanSet(r.value) && !CanAddr(r.value)
  {
    var r := Zero(typ, h, zerobuffer, w);
    JustExportedBits();
    CanSetIff(r.value);
    if typ.size <= w {
      BytesOfZero(typ.size);
    } else if typ.size <= ZeroBufferLen {
      ReadBytesWindow(h.mem, zerobuffer, ZeroBufferLen, 0, typ.size);
    }
  }

  /** `New(typ)`: a pointer to a fresh zeroed object of the type. */
  function New(typ: RType, h: Heap, w: WordSize): (r: Outcome)
    ensures r.value.typ == Some(PointerTo(typ, w)) && r.value.flags == JustExported
    ensures r.value.word == |h.mem| + 1 && h.mem <= r.heap.mem && r.heap == h.(mem := r.heap.mem)
    ensures |r.heap.mem| == r.value.word + typ.size
    ensures ReadBytes(r.heap.mem, r.value.word, typ.size) == Zeros(typ.size)
  {
    var a := Alloc(h.mem, Zeros(typ.size));
    Outcome(Value(Some(PointerTo(typ, w)), a.addr, JustExported), h.(mem := a.mem))
  }

  /** Following the pointer New returns gives a settable zero value of the
      type. */
  lemma NewElem(typ: RType, h: Heap, w: WordSize)
    ensures var r := New(typ, h, w);
            var e := Elem(r.value, r.heap, w);
            && e.Ok? && e.value.typ == Some(typ) && e.value.word == r.value.word
            && CanSet(e.value) && Contents(e.value, r.heap, w) == Zeros(typ.size)
  {
    JustExportedBits();
    var r := New(typ, h, w);
    var e := Elem(r.value, r.heap, w).value;
    CanSetIff(e);
  }

  // ---------------------------------------------------------------------
  // IsZero.

  /** The error IsZero reports for a value it cannot judge. */
  function NotJudged(k: Kind): Result<bool> {
    Fail("reflect.Value.IsZero", k)
  }

  /** `Value.IsZero`. */
  function IsZero(v: Value, h: Heap, w: WordSize): (r: Result<bool>)
    ensures v.typ.None? ==> r == NotJudged(Invalid)
    ensures r.Err? ==> r.error.KindError? && r.error.err.methodName == "reflect.Value.IsZero"
  {
    if v.typ.None? then NotJudged(Invalid) else IsZeroAt(v, v.typ.value, h, w)
  }

  /** IsZero of a value whose descriptor is t; the descriptor shrinks on
      every recursive call. Arrays and structs recurse into their parts;
      every other kind is judged by `LeafZero`. */
  function IsZeroAt(v: Value, t: RType, h: Heap, w: WordSize): (r: Result<bool>)
    requires v.typ == Some(t)
    ensures r.Err? ==> r.error.KindError? && r.error.err.methodName == "reflect.Value.IsZero"
    ensures r.Err? && t.kind != Array && t.kind != Struct ==> r == NotJudged(t.kind)
    decreases t, 2
  {
    if t.kind == Array then ElementsZero(v, t, h, 0, w)
    else if t.kind == Struct then FieldsZero(v, t, h, 0, w)
    else LeafZero(v, t, h, w)
  }

  /** IsZero of a value of a kind that has no parts: false, zero bits,
      nil, or an empty string; a kind IsZero does not list panics. */
  function LeafZero(v: Value, t: RType, h: Heap, w: WordSize): (r: Result<bool>)
    requires v.typ == Some(t) && t.kind != Array && t.kind != Struct
    ensures r.Err? <==> !(t.kind == Bool || IsSignedInt(t.kind) || IsUnsignedInt(t.kind)
                         || IsFloatOrComplex(t.kind) || IsNillable(t.kind) || t.kind == String)
    ensures r.Err? ==> r == NotJudged(t.kind)
  {
    var k := t.kind;
    if k == Bool then Ok(!BoolOf(v, h, w).value)
    else if IsSignedInt(k) then Ok(IntOf(v, h, w).value == 0)
    else if IsUnsignedInt(k) then Ok(UintOf(v, h, w).value == 0)
    else if IsFloatOrComplex(k) then Ok(Bits(v, h, KindSize(k, w).value, w) == 0)
    else if IsNillable(k) then Ok(IsNil(v, h, w).value)
    else if k == String then Ok(Len(v, h, w).value == 0)
    else NotJudged(k)
  }

  /** The array loop of IsZero, from element i on: false at the first
      element that is not zero. */
  function ElementsZero(v: Value, t: RType, h: Heap, i: nat, w: WordSize): (r: Result<bool>)
    requires v.typ == Some(t) && t.kind == Array
    ensures r.Err? ==> r.error.KindError? && r.error.err.methodName == "reflect.Value.IsZero"
    decreases t, 1, t.len - i
  {
    if i >= t.len then Ok(true)
    else if t.elem.None? then NotJudged(Invalid)
    else
      var e := Index(v, h, i, w).value;
      var z :- IsZeroAt(e, t.elem.value, h, w);
      if !z then Ok(false) else ElementsZero(v, t, h, i + 1, w)
  }

  /** The struct loop of IsZero, from field i on. */
  function FieldsZero(v: Value, t: RType, h: Heap, i: nat, w: WordSize): (r: Result<bool>)
    requires v.typ == Some(t) && t.kind == Struct
    ensures r.Err? ==> r.error.KindError? && r.error.err.methodName == "reflect.Value.IsZero"
    decreases t, 1, |t.fields| - i
  {
    if i >= |t.fields| then Ok(true)
    else
      var f := Field(v, h, i, w).value;
      assert t.fields[i] in t.fields;
      var z :- IsZeroAt(f, t.fields[i].typ, h, w);
      if !z then Ok(false) else FieldsZero(v, t, h, i + 1, w)
  }

  // ---------------------------------------------------------------------
  // Zero bytes make a zero value.

  predicate AllZero(bs: seq<byte>) {
    forall i :: 0 <= i < |bs| ==> bs[i] == 0
  }

  /** A value sound enough to be read: its words fit and it is tidy. */
  predicate Sound(v: Value, w: WordSize) {
    WordSound(v, w) && Tidy(v, w)
  }

  lemma InlineZero(v: Value, h: Heap, w: WordSize)
    requires !InMemory(v, w) && Tidy(v, w) && AllZero(Contents(v, h, w))
    ensures v.word == 0
  {
    var bs := ToBytes(v.word, SizeOf(v.typ));
    assert Contents(v, h, w) == bs;
    BytesRoundTrip(v.word, SizeOf(v.typ));
    LittleEndianZero(bs);
  }

  lemma ZeroBytesNumber(bs: seq<byte>)
    requires AllZero(bs)
    ensures LittleEndian(bs) == 0
  {
    LittleEndianZero(bs);
  }

  /** A word of zero bytes at a, inside a zero run at base. */
  lemma ZeroWord(mem: seq<byte>, base: nat, n: nat, off: nat, w: WordSize)
    requires AllZero(ReadBytes(mem, base, n)) && off + w <= n
    ensures ReadWord(mem, base + off, w) == 0
  {
    ReadBytesWindow(mem, base, n, off, w);
    BytesOfZero(w);
    assert ReadBytes(mem, base + off, w) == ToBytes(0, w);
    ReadWordOfBytes(mem, base + off, 0, w);
  }

  lemma SoundBelow(x: nat, n: nat, w: WordSize)
    requires n <= w && x < Pow2(8 * n)
    ensures x < WordLimit(w)
  {
    Pow2Monotone(8 * n, 8 * w);
  }

  /** A field of a sound struct is sound. */
  lemma FieldSound(v: Value, h: Heap, i: int, w: WordSize)
    requires ValueKind(v) == Struct && WordSound(v, w)
    requires 0 <= i < |StructOf(v).fields|
    requires StructOf(v).fields[i].offset + StructOf(v).fields[i].typ.size <= StructOf(v).size
    ensures Field(v, h, i, w).Ok? && Sound(Field(v, h, i, w).value, w)
  {
    var t := StructOf(v);
    var f := t.fields[i];
    var r := Field(v, h, i, w).value;
    if IsIndirect(v) || f.typ.size > w {
      assert AddWord(v.word, f.offset, w) == v.word + f.offset;
    } else if f.typ.size == 0 {
    } else if t.size > w {
      SoundBelow(r.word, f.typ.size, w);
    } else {
      SoundBelow(r.word, f.typ.size, w);
    }
  }

  /** An element of a sound array is sound. */
  lemma ElementSound(v: Value, h: Heap, off: nat, w: WordSize)
    requires ValueKind(v) == Array && WordSound(v, w) && v.typ.value.elem.Some?
    requires off + v.typ.value.elem.value.size <= v.typ.value.size
    requires v.typ.value.size == 0 ==> v.typ.value.elem.value.size == 0
    ensures Sound(ArrayElementAt(v, h, off, w), w)
  {
    var t := v.typ.value;
    var es := t.elem.value.size;
    var r := ArrayElementAt(v, h, off, w);
    if t.size == 0 {
    } else if es > w {
      assert AddWord(v.word, off, w) == v.word + off;
    } else if t.size > w || IsIndirect(v) {
      assert AddWord(v.word, off, w) == v.word + off;
      if !IsIndirect(v) {
        SoundBelow(r.word, es, w);
      }
    } else {
      SoundBelow(r.word, es, w);
    }
  }

  /** In-range array elements: the one Index gives is sound and its bytes
      are a slot of the array's bytes. */
  lemma ElementFacts(v: Value, t: RType, h: Heap, i: nat, w: WordSize)
    requires v.typ == Some(t) && t.kind == Array && WordSound(v, w)
    requires t.elem.Some? && t.size == Scale(t.len, t.elem.value.size) && i < t.len
    ensures Index(v, h, i, w).Ok?
    ensures Sound(Index(v, h, i, w).value, w)
    ensures Contents(Index(v, h, i, w).value, h, w) == Slot(Contents(v, h, w), t.elem.value.size, i)
  {
    var es := t.elem.value.size;
    ScaleIsProduct(t.len, es);
    SoundSize(v, w);
    ArrayOffset(i, t.len, es, t.size, w);
    ArrayIndexContents(v, h, i, w);
    assert t.size == 0 ==> es == 0 || t.len == 0;
    assert Index(v, h, i, w) == Ok(ArrayElementAt(v, h, es * i, w));
    ElementSound(v, h, es * i, w);
  }

  lemma SlotZero(bs: seq<byte>, es: nat, i: nat)
    requires AllZero(bs)
    ensures AllZero(Slot(bs, es, i))
  {
  }

  /** Every value whose bytes are all zero is a zero value, whatever its
      (well-formed) type. */
  lemma {:induction false} ZeroBytesAreZero(v: Value, t: RType, h: Heap, w: WordSize)
    requires v.typ == Some(t) && WellFormed(t, w) && Sound(v, w)
    requires AllZero(Contents(v, h, w))
    ensures IsZeroAt(v, t, h, w) == Ok(true)
    decreases t, 3
  {
    var k := t.kind;
    if k == Array {
      ArrayIsZero(v, t, h, w);
    } else if k == Struct {
      StructIsZero(v, t, h, w);
    } else {
      assert IsZeroAt(v, t, h, w) == LeafZero(v, t, h, w);
      ShapeSizes(t, w);
      if IsNillable(k) {
        NilKindIsZero(v, t, h, w);
      } else if k == String {
        StringIsZero(v, t, h, w);
      } else {
        ScalarIsZero(v, t, h, w);
      }
    }
  }

  lemma {:induction false} ArrayIsZero(v: Value, t: RType, h: Heap, w: WordSize)
    requires v.typ == Some(t) && t.kind == Array && WellFormed(t, w) && Sound(v, w)
    requires AllZero(Contents(v, h, w))
    ensures IsZeroAt(v, t, h, w) == Ok(true)
    decreases t, 2
  {
    ElementsAreZero(v, t, h, 0, w);
  }

  lemma {:induction false} StructIsZero(v: Value, t: RType, h: Heap, w: WordSize)
    requires v.typ == Some(t) && t.kind == Struct && WellFormed(t, w) && Sound(v, w)
    requires AllZero(Contents(v, h, w))
    ensures IsZeroAt(v, t, h, w) == Ok(true)
    decreases t, 2
  {
    assert FieldsOk(t.fields, t.size, w);
    FieldsAreZero(v, t, h, 0, w);
  }

  lemma NilKindIsZero(v: Value, t: RType, h: Heap, w: WordSize)
    requires v.typ == Some(t) && Sound(v, w) && IsNillable(t.kind)
    requires t.kind == Func || t.kind == Interface ==> t.size == 2 * w
    requires t.kind == Slice ==> t.size == 3 * w
    requires t.kind == Chan || t.kind == Map || t.kind == Pointer || t.kind == UnsafePointer ==> t.size == w
    requires AllZero(Contents(v, h, w))
    ensures LeafZero(v, t, h, w) == Ok(true)
  {
    NilIsZero(v, t, h, w);
    LeafNil(v, t, h, w);
  }

  lemma LeafNil(v: Value, t: RType, h: Heap, w: WordSize)
    requires v.typ == Some(t) && IsNillable(t.kind)
    ensures LeafZero(v, t, h, w) == Ok(IsNil(v, h, w).value)
  {
  }

  lemma StringIsZero(v: Value, t: RType, h: Heap, w: WordSize)
    requires v.typ == Some(t) && t.kind == String && t.size == 2 * w
    requires AllZero(Contents(v, h, w))
    ensures LeafZero(v, t, h, w) == Ok(true)
  {
    ZeroWord(h.mem, v.word, 2 * w, w, w);
    SliceLenString(v, h, w);
    LeafString(v, t, h, w);
  }

  lemma LeafString(v: Value, t: RType, h: Heap, w: WordSize)
    requires v.typ == Some(t) && t.kind == String
    ensures LeafZero(v, t, h, w) == Ok(Len(v, h, w).value == 0)
  {
  }

  /** The word IsNil looks at, read from the value's bytes: the code word
      (the second word) of a func, and the first word of every other
      nillable kind (the pointer, a slice's data, an interface's type). */
  function NilWord(v: Value, h: Heap, w: WordSize): (x: nat)
    requires IsNillable(ValueKind(v)) && ShapeOk(v.typ.value, w)
  {
    ShapeSizes(v.typ.value, w);
    var bs := Contents(v, h, w);
    if ValueKind(v) == Func then LittleEndian(bs[w..2 * w]) else LittleEndian(bs[..w])
  }

  /** A word inside a value held in memory is the word its bytes spell. */
  lemma WordOfContents(v: Value, h: Heap, off: nat, w: WordSize)
    requires InMemory(v, w) && off + w <= SizeOf(v.typ)
    ensures LittleEndian(Contents(v, h, w)[off..off + w]) == ReadWord(h.mem, v.word + off, w)
  {
    ReadBytesWindow(h.mem, v.word, SizeOf(v.typ), off, w);
  }

  /** NilWord is the word IsNil reads through the value's word. */
  lemma NilWordIsRead(v: Value, h: Heap, w: WordSize)
    requires v.typ.Some? && IsNillable(ValueKind(v)) && ShapeOk(v.typ.value, w) && Tidy(v, w)
    ensures ValueKind(v) == Func ==> NilWord(v, h, w) == ReadWord(h.mem, v.word + w, w)
    ensures ValueKind(v) == Slice || ValueKind(v) == Interface ==> NilWord(v, h, w) == ReadWord(h.mem, v.word, w)
    ensures ValueKind(v) == Chan || ValueKind(v) == Map || ValueKind(v) == Pointer || ValueKind(v) == UnsafePointer ==>
              NilWord(v, h, w) == PointerOf(v, h, w)
  {
    var k := ValueKind(v);
    ShapeSizes(v.typ.value, w);
    if k == Func {
      WordOfContents(v, h, w, w);
    } else if k == Slice || k == Interface || IsIndirect(v) {
      FirstWordOfContents(v, h, w);
    } else {
      InlineWordOfContents(v, h, w);
    }
  }

  lemma FirstWordOfContents(v: Value, h: Heap, w: WordSize)
    requires InMemory(v, w) && w <= SizeOf(v.typ)
    ensures LittleEndian(Contents(v, h, w)[..w]) == ReadWord(h.mem, v.word, w)
  {
    WordOfContents(v, h, 0, w);
    assert Contents(v, h, w)[..w] == Contents(v, h, w)[0..0 + w];
  }

  /** The bytes of a one-word value held inline spell its word. */
  lemma InlineWordOfContents(v: Value, h: Heap, w: WordSize)
    requires !InMemory(v, w) && SizeOf(v.typ) == w && Tidy(v, w)
    ensures LittleEndian(Contents(v, h, w)[..w]) == v.word
  {
    assert Contents(v, h, w)[..w] == ToBytes(v.word, w);
    BytesRoundTrip(v.word, w);
  }

  /** A nillable value is zero exactly when the word IsNil looks at is zero
      in its bytes, or when a func or slice has no header at all. */
  lemma NilIsZeroIff(v: Value, h: Heap, w: WordSize)
    requires v.typ.Some? && IsNillable(ValueKind(v)) && ShapeOk(v.typ.value, w) && Tidy(v, w)
    ensures IsZero(v, h, w)
              == Ok(NilWord(v, h, w) == 0 || ((ValueKind(v) == Func || ValueKind(v) == Slice) && v.word == 0))
  {
    LeafNil(v, v.typ.value, h, w);
    NilOfBytes(v, h, w);
  }

  /** IsNil in terms of the value's bytes. */
  lemma NilOfBytes(v: Value, h: Heap, w: WordSize)
    requires v.typ.Some? && IsNillable(ValueKind(v)) && ShapeOk(v.typ.value, w) && Tidy(v, w)
    ensures IsNil(v, h, w)
              == Ok(NilWord(v, h, w) == 0 || ((ValueKind(v) == Func || ValueKind(v) == Slice) && v.word == 0))
  {
    NilWordIsRead(v, h, w);
    NilOfWord(v, h, NilWord(v, h, w), w);
  }

  /** IsNil once the word it looks at is known to be c. */
  lemma NilOfWord(v: Value, h: Heap, c: nat, w: WordSize)
    requires IsNillable(ValueKind(v))
    requires ValueKind(v) == Func ==> c == ReadWord(h.mem, v.word + w, w)
    requires ValueKind(v) == Slice || ValueKind(v) == Interface ==> c == ReadWord(h.mem, v.word, w)
    requires ValueKind(v) == Chan || ValueKind(v) == Map || ValueKind(v) == Pointer || ValueKind(v) == UnsafePointer ==>
               c == PointerOf(v, h, w)
    ensures IsNil(v, h, w) == Ok(c == 0 || ((ValueKind(v) == Func || ValueKind(v) == Slice) && v.word == 0))
  {
    if (ValueKind(v) == Func || ValueKind(v) == Slice) && v.word == 0 {
      NilOfNoHeader(v, h, w);
    } else {
      NilOfHeader(v, h, c, w);
    }
  }

  /** A func or slice Value with a nil payload is nil. */
  lemma NilOfNoHeader(v: Value, h: Heap, w: WordSize)
    requires (ValueKind(v) == Func || ValueKind(v) == Slice) && v.word == 0
    ensures IsNil(v, h, w) == Ok(true)
  {
  }

  /** IsNil of a value whose header (if any) is present, once the word it
      looks at is known to be c. */
  lemma NilOfHeader(v: Value, h: Heap, c: nat, w: WordSize)
    requires IsNillable(ValueKind(v)) && ((ValueKind(v) == Func || ValueKind(v) == Slice) ==> v.word != 0)
    requires ValueKind(v) == Func ==> c == ReadWord(h.mem, v.word + w, w)
    requires ValueKind(v) == Slice || ValueKind(v) == Interface ==> c == ReadWord(h.mem, v.word, w)
    requires ValueKind(v) == Chan || ValueKind(v) == Map || ValueKind(v) == Pointer || ValueKind(v) == UnsafePointer ==>
               c == PointerOf(v, h, w)
    ensures IsNil(v, h, w) == Ok(c == 0)
  {
  }

  /** A string is zero exactly when the length word of its header, read
      from the value's bytes, is zero. */
  lemma StringIsZeroIff(v: Value, h: Heap, w: WordSize)
    requires ValueKind(v) == String && ShapeOk(v.typ.value, w)
    ensures IsZero(v, h, w) == Ok(LittleEndian(Contents(v, h, w)[w..2 * w]) == 0)
  {
    ShapeSizes(v.typ.value, w);
    WordOfContents(v, h, w, w);
    StringZeroOfLen(v, h, ReadString(h.mem, v.word, w).len, w);
  }

  /** IsZero of a string whose header length word is n. */
  lemma StringZeroOfLen(v: Value, h: Heap, n: nat, w: WordSize)
    requires ValueKind(v) == String && n == ReadString(h.mem, v.word, w).len
    ensures IsZero(v, h, w) == Ok(n == 0)
  {
    LeafString(v, v.typ.value, h, w);
    GoIntZero(n, w);
  }

  /** Bool, the integers, floats and complex numbers. */
  lemma ScalarIsZero(v: Value, t: RType, h: Heap, w: WordSize)
    requires v.typ == Some(t) && Tidy(v, w) && AllZero(Contents(v, h, w))
    requires t.kind == Bool || IsSignedInt(t.kind) || IsUnsignedInt(t.kind) || IsFloatOrComplex(t.kind)
    requires t.kind == Bool ==> t.size == 1
    requires t.kind != Bool ==> KindSize(t.kind, w).Some? && t.size == KindSize(t.kind, w).value
    ensures LeafZero(v, t, h, w) == Ok(true)
  {
    var k := t.kind;
    ZeroBytesNumber(Contents(v, h, w));
    if k == Bool {
      assert BoolOf(v, h, w) == Ok(false) by {
        if !IsIndirect(v) {
          InlineZero(v, h, w);
        }
      }
      assert LeafZero(v, t, h, w) == Ok(!BoolOf(v, h, w).value);
    } else if IsSignedInt(k) {
      assert IntOf(v, h, w) == Ok(0) by {
        BitsAreContents(v, h, w);
        assert Bits(v, h, IntBytes(k, w), w) == 0;
      }
      assert LeafZero(v, t, h, w) == Ok(IntOf(v, h, w).value == 0);
    } else if IsUnsignedInt(k) {
      assert UintOf(v, h, w) == Ok(0) by {
        UnsignedZero(v, t, h, w);
      }
      assert LeafZero(v, t, h, w) == Ok(UintOf(v, h, w).value == 0);
    } else {
      assert Bits(v, h, t.size, w) == 0 by {
        if t.size <= 8 {
          BitsAreContents(v, h, w);
        }
      }
      assert LeafZero(v, t, h, w) == Ok(Bits(v, h, KindSize(k, w).value, w) == 0);
    }
  }

  lemma UnsignedZero(v: Value, t: RType, h: Heap, w: WordSize)
    requires v.typ == Some(t) && Tidy(v, w) && AllZero(Contents(v, h, w)) && IsUnsignedInt(t.kind)
    requires t.size == IntBytes(t.kind, w)
    ensures UintOf(v, h, w) == Ok(0)
  {
    if IsIndirect(v) || t.size > w {
      ZeroBytesNumber(Contents(v, h, w));
      BitsAreContents(v, h, w);
    } else {
      InlineZero(v, h, w);
    }
  }

  lemma SliceLenString(v: Value, h: Heap, w: WordSize)
    requires ValueKind(v) == String && ReadWord(h.mem, v.word + w, w) == 0
    ensures Len(v, h, w) == Ok(0)
  {
  }

  /** The nillable kinds: a zero pointer word, or a zero data, code or type
      word inside the header. */
  lemma NilIsZero(v: Value, t: RType, h: Heap, w: WordSize)
    requires v.typ == Some(t) && Sound(v, w) && IsNillable(t.kind)
    requires t.kind == Func || t.kind == Interface ==> t.size == 2 * w
    requires t.kind == Slice ==> t.size == 3 * w
    requires t.kind == Chan || t.kind == Map || t.kind == Pointer || t.kind == UnsafePointer ==> t.size == w
    requires AllZero(Contents(v, h, w))
    ensures IsNil(v, h, w) == Ok(true)
  {
    var k := t.kind;
    if k == Func || k == Slice || k == Interface {
      HeaderNilIsZero(v, t, h, w);
    } else {
      PointerIsZero(v, h, w);
      NilOfZeroWord(v, h, w);
    }
  }

  /** Func, Slice and Interface values are headers in memory; their code,
      data or type word is zero. */
  lemma HeaderNilIsZero(v: Value, t: RType, h: Heap, w: WordSize)
    requires v.typ == Some(t) && (t.kind == Func || t.kind == Slice || t.kind == Interface)
    requires t.size == (if t.kind == Slice then 3 * w else 2 * w)
    requires AllZero(Contents(v, h, w))
    ensures IsNil(v, h, w) == Ok(true)
  {
    var bs := ReadBytes(h.mem, v.word, t.size);
    assert AllZero(bs);
    if t.kind == Func {
      ZeroWord(h.mem, v.word, t.size, w, w);
    } else {
      ZeroWord(h.mem, v.word, t.size, 0, w);
    }
    NilOfZeroWord(v, h, w);
  }

  /** IsNil holds once the word it looks at is zero: the pointer, the
      code word of a func, the data word of a slice, the type word of an
      interface. */
  lemma NilOfZeroWord(v: Value, h: Heap, w: WordSize)
    requires IsNillable(ValueKind(v))
    requires ValueKind(v) == Func ==> ReadWord(h.mem, v.word + w, w) == 0
    requires ValueKind(v) == Slice || ValueKind(v) == Interface ==> ReadWord(h.mem, v.word, w) == 0
    requires ValueKind(v) == Chan || ValueKind(v) == Map || ValueKind(v) == Pointer || ValueKind(v) == UnsafePointer ==> PointerOf(v, h, w) == 0
    ensures IsNil(v, h, w) == Ok(true)
  {
  }

  /** Chan, Map, Pointer and UnsafePointer: the pointer itself is zero. */
  lemma PointerIsZero(v: Value, h: Heap, w: WordSize)
    requires SizeOf(v.typ) == w && Tidy(v, w) && AllZero(Contents(v, h, w))
    ensures PointerOf(v, h, w) == 0
  {
    if IsIndirect(v) {
      IndirectNilPointer(v, h, w);
    } else {
      InlineZero(v, h, w);
    }
  }

  lemma IndirectNilPointer(v: Value, h: Heap, w: WordSize)
    requires IsIndirect(v) && SizeOf(v.typ) == w && AllZero(Contents(v, h, w))
    ensures PointerOf(v, h, w) == 0
  {
    var p := PointerOf(v, h, w);
    PointerBytes(v, h, w);
    assert ToBytes(p, w) == Contents(v, h, w);
    BytesRoundTrip(p, w);
    ZeroBytesNumber(ToBytes(p, w));
  }

  lemma {:induction false} ElementsAreZero(v: Value, t: RType, h: Heap, i: nat, w: WordSize)
    requires v.typ == Some(t) && t.kind == Array && WellFormed(t, w) && Sound(v, w)
    requires AllZero(Contents(v, h, w))
    ensures ElementsZero(v, t, h, i, w) == Ok(true)
    decreases t, 1, t.len - i
  {
    if i < t.len {
      var e := Index(v, h, i, w);
      assert e.Ok? && Sound(e.value, w) && AllZero(Contents(e.value, h, w)) by {
        ElementFacts(v, t, h, i, w);
        SlotZero(Contents(v, h, w), t.elem.value.size, i);
      }
      ZeroBytesAreZero(e.value, t.elem.value, h, w);
      ElementsAreZero(v, t, h, i + 1, w);
      ElementStep(v, t, h, i, w);
    }
  }

  /** A zero element passes the array loop on to the next one. */
  lemma ElementStep(v: Value, t: RType, h: Heap, i: nat, w: WordSize)
    requires v.typ == Some(t) && t.kind == Array && t.elem.Some? && i < t.len
    requires Index(v, h, i, w).Ok? && Index(v, h, i, w).value.typ == t.elem
    requires IsZeroAt(Index(v, h, i, w).value, t.elem.value, h, w) == Ok(true)
    ensures ElementsZero(v, t, h, i, w) == ElementsZero(v, t, h, i + 1, w)
  {
  }

  lemma {:induction false} FieldsAreZero(v: Value, t: RType, h: Heap, i: nat, w: WordSize)
    requires v.typ == Some(t) && t.kind == Struct && FieldsOk(t.fields, t.size, w) && Sound(v, w)
    requires AllZero(Contents(v, h, w))
    ensures FieldsZero(v, t, h, i, w) == Ok(true)
    decreases t, 1, |t.fields| - i
  {
    if i < |t.fields| {
      assert t.fields[i] in t.fields;
      var f := Field(v, h, i, w);
      var ft := t.fields[i].typ;
      FieldFacts(v, t, h, i, w);
      ZeroBytesAreZero(f.value, ft, h, w);
      FieldsAreZero(v, t, h, i + 1, w);
      FieldStep(v, t, h, i, w);
    }
  }

  /** A zero field passes the struct loop on to the next one. */
  lemma FieldStep(v: Value, t: RType, h: Heap, i: nat, w: WordSize)
    requires v.typ == Some(t) && t.kind == Struct && i < |t.fields|
    requires Field(v, h, i, w).Ok? && Field(v, h, i, w).value.typ == Some(t.fields[i].typ)
    requires IsZeroAt(Field(v, h, i, w).value, t.fields[i].typ, h, w) == Ok(true)
    ensures FieldsZero(v, t, h, i, w) == FieldsZero(v, t, h, i + 1, w)
  {
  }

  /** In-range struct fields: the one Field gives is sound, well formed and
      made of zero bytes when the struct is. */
  lemma FieldFacts(v: Value, t: RType, h: Heap, i: nat, w: WordSize)
    requires v.typ == Some(t) && t.kind == Struct && FieldsOk(t.fields, t.size, w) && Sound(v, w)
    requires i < |t.fields|
    ensures Field(v, h, i, w).Ok? && Sound(Field(v, h, i, w).value, w) && WellFormed(t.fields[i].typ, w)
    ensures AllZero(Contents(v, h, w)) ==> AllZero(Contents(Field(v, h, i, w).value, h, w))
  {
    FieldOk(t.fields, t.size, i, w);
    FieldContents(v, h, i, w);
    FieldSound(v, h, i, w);
    var bs := Contents(v, h, w);
    var f := t.fields[i];
    if AllZero(bs) {
      AllZeroWindow(bs, f.offset, f.offset + f.typ.size);
    }
  }

  lemma AllZeroWindow(bs: seq<byte>, a: nat, b: nat)
    requires AllZero(bs) && a <= b <= |bs|
    ensures AllZero(bs[a..b])
  {
  }

  /** `Zero(typ).IsZero()` holds for every well-formed type, provided the
      shared buffer holds zeros and the objects fit the address space. */
  lemma ZeroIsZero(typ: RType, h: Heap, zerobuffer: nat, w: WordSize)
    requires WellFormed(typ, w)
    requires ReadBytes(h.mem, zerobuffer, ZeroBufferLen) == Zeros(ZeroBufferLen)
    requires zerobuffer + ZeroBufferLen < WordLimit(w) && |h.mem| + 1 + typ.size < WordLimit(w)
    ensures var r := Zero(typ, h, zerobuffer, w);
            IsZero(r.value, r.heap, w) == Ok(true)
  {
    var r := Zero(typ, h, zerobuffer, w);
    ZeroContents(typ, h, zerobuffer, w);
    JustExportedBits();
    if typ.size <= w {
      assert Pow2(8 * typ.size) >= 1;
    }
    assert Sound(r.value, w);
    ZeroBytesAreZero(r.value, typ, r.heap, w);
  }
}
