/** The setters: each checks that the value is addressable, then stores
    the new contents at the address the value holds. */
module Setters {
  import opened Words
  import opened Kinds
  import opened Errors
  import opened Types
  import opened Flags
  import opened Memory
  import opened Values
  import opened Access

  /** `rawType.AssignableTo`, which is not part of this model: the setter
      receives it as a parameter. */
  type Assignable = (Option<RType>, Option<RType>) -> bool

  /** `checkAddressable`. */
  function CheckAddressable(v: Value): (r: Result<()>)
    ensures r.Ok? <==> CanAddr(v)
    ensures r.Err? ==> r.error == Panic("reflect: value is not addressable")
  {
    CanSetIff(v);
    if !IsIndirect(v) then Err(Panic("reflect: value is not addressable")) else Ok(())
  }

  /** Storing `bs` at the address v holds. */
  function Store(v: Value, h: Heap, bs: seq<byte>): (r: Heap)
    ensures |r.mem| == |h.mem| && r == h.(mem := r.mem)
  {
    h.(mem := WriteBytes(h.mem, v.word, bs))
  }

  /** The object v points at lies inside the heap, as every object the
      program can reach does. */
  predicate Holds(v: Value, h: Heap, n: nat) {
    0 < v.word && v.word + n <= |h.mem|
  }

  lemma StoreThenLoad(v: Value, h: Heap, bs: seq<byte>)
    requires Holds(v, h, |bs|)
    ensures ReadBytes(Store(v, h, bs).mem, v.word, |bs|) == bs
  {
    ReadAfterWrite(h.mem, v.word, bs);
  }

  // ---------------------------------------------------------------------
  // Set.

  /** The `size` bytes Set copies out of x: the payload word itself when
      x is small and held inline, the memory it points at otherwise. */
  function SourceBytes(x: Value, h: Heap, size: nat, w: WordSize): (bs: seq<byte>)
    ensures |bs| == size
    ensures SizeOf(x.typ) == size ==> bs == Contents(x, h, w)
  {
    if size <= w && !IsIndirect(x) then ToBytes(x.word, size) else ReadBytes(h.mem, x.word, size)
  }

  /** `Value.Set`: copies v's size of bytes from x into the object v
      addresses. Only addressability is checked, not exportedness. */
  function Set(v: Value, x: Value, h: Heap, w: WordSize, assignable: Assignable): (r: Result<Heap>)
    ensures r.Ok? <==> CanAddr(v) && assignable(v.typ, x.typ)
    ensures !CanAddr(v) ==> r == Err(Panic("reflect: value is not addressable"))
    ensures CanAddr(v) && !assignable(v.typ, x.typ) ==> r == Err(Panic("reflect: cannot set"))
    ensures r.Ok? ==> r.value == h.(mem := r.value.mem) && |r.value.mem| == |h.mem|
  {
    var _ :- CheckAddressable(v);
    if !assignable(v.typ, x.typ) then Err(Panic("reflect: cannot set"))
    else Ok(Store(v, h, SourceBytes(x, h, SizeOf(v.typ), w)))
  }

  /** After a successful Set between values of the same size, v holds
      what x held. */
  lemma SetThenContents(v: Value, x: Value, h: Heap, w: WordSize, assignable: Assignable)
    requires Set(v, x, h, w, assignable).Ok?
    requires Holds(v, h, SizeOf(v.typ)) && SizeOf(x.typ) == SizeOf(v.typ)
    ensures Contents(v, Set(v, x, h, w, assignable).value, w) == Contents(x, h, w)
  {
    CanSetIff(v);
    StoreThenLoad(v, h, SourceBytes(x, h, SizeOf(v.typ), w));
  }

  /** Set changes nothing outside the object v addresses. */
  lemma SetFrame(v: Value, x: Value, h: Heap, w: WordSize, assignable: Assignable, a: nat, n: nat)
    requires Set(v, x, h, w, assignable).Ok?
    requires a + n <= v.word || v.word + SizeOf(v.typ) <= a
    ensures ReadBytes(Set(v, x, h, w, assignable).value.mem, a, n) == ReadBytes(h.mem, a, n)
  {
    ReadBesideWrite(h.mem, v.word, SourceBytes(x, h, SizeOf(v.typ), w), a, n);
  }

  // ---------------------------------------------------------------------
  // Typed setters.

  function SetBool(v: Value, x: bool, h: Heap): (r: Result<Heap>)
    ensures r.Ok? <==> CanAddr(v) && ValueKind(v) == Bool
    ensures !CanAddr(v) ==> r == Err(Panic("reflect: value is not addressable"))
    ensures CanAddr(v) && ValueKind(v) != Bool ==> r == Fail("SetBool", ValueKind(v))
    ensures r.Ok? ==> r.value == h.(mem := r.value.mem) && |r.value.mem| == |h.mem|
  {
    var _ :- CheckAddressable(v);
    if ValueKind(v) != Bool then Fail("SetBool", ValueKind(v))
    else Ok(Store(v, h, [if x then 1 else 0]))
  }

  lemma SetBoolThenBool(v: Value, x: bool, h: Heap, w: WordSize)
    requires SetBool(v, x, h).Ok? && Holds(v, h, 1)
    ensures BoolOf(v, SetBool(v, x, h).value, w) == Ok(x)
  {
    CanSetIff(v);
    StoreThenLoad(v, h, [if x then 1 else 0]);
  }

  predicate IsInt64(x: int) {
    -0x8000_0000_0000_0000 <= x < 0x8000_0000_0000_0000
  }

  /** `Value.SetInt`: x is cut to the kind's width, two's complement. */
  function SetInt(v: Value, x: int, h: Heap, w: WordSize): (r: Result<Heap>)
    requires IsInt64(x)
    ensures r.Ok? <==> CanAddr(v) && IsSignedInt(ValueKind(v))
    ensures !CanAddr(v) ==> r == Err(Panic("reflect: value is not addressable"))
    ensures CanAddr(v) && !IsSignedInt(ValueKind(v)) ==> r == Fail("SetInt", ValueKind(v))
    ensures r.Ok? ==> r.value == h.(mem := r.value.mem) && |r.value.mem| == |h.mem|
  {
    var _ :- CheckAddressable(v);
    if !IsSignedInt(ValueKind(v)) then Fail("SetInt", ValueKind(v))
    else
      var n := IntBytes(ValueKind(v), w);
      Ok(Store(v, h, ToBytes(x % Pow2(8 * n), n)))
  }

  /** Int reads back what SetInt stored: x itself when it fits the kind,
      otherwise its low bits sign-extended. */
  lemma SetIntThenInt(v: Value, x: int, h: Heap, w: WordSize)
    requires IsInt64(x) && SetInt(v, x, h, w).Ok?
    requires Holds(v, h, IntBytes(ValueKind(v), w))
    ensures var n := IntBytes(ValueKind(v), w);
            IntOf(v, SetInt(v, x, h, w).value, w) == Ok(Signed(x % Pow2(8 * n), 8 * n))
    ensures var n := IntBytes(ValueKind(v), w);
            -(Pow2(8 * n - 1) as int) <= x < Pow2(8 * n - 1) ==> IntOf(v, SetInt(v, x, h, w).value, w) == Ok(x)
  {
    var n := IntBytes(ValueKind(v), w);
    CanSetIff(v);
    StoreThenLoad(v, h, ToBytes(x % Pow2(8 * n), n));
    BytesRoundTrip(x % Pow2(8 * n), n);
    if -(Pow2(8 * n - 1) as int) <= x < Pow2(8 * n - 1) {
      SignedOfResidue(x, 8 * n);
    }
  }

  /** `Value.SetUint`: x is cut to the kind's width. */
  function SetUint(v: Value, x: nat, h: Heap, w: WordSize): (r: Result<Heap>)
    requires x < 0x1_0000_0000_0000_0000
    ensures r.Ok? <==> CanAddr(v) && IsUnsignedInt(ValueKind(v))
    ensures !CanAddr(v) ==> r == Err(Panic("reflect: value is not addressable"))
    ensures CanAddr(v) && !IsUnsignedInt(ValueKind(v)) ==> r == Fail("SetUint", ValueKind(v))
    ensures r.Ok? ==> r.value == h.(mem := r.value.mem) && |r.value.mem| == |h.mem|
  {
    var _ :- CheckAddressable(v);
    if !IsUnsignedInt(ValueKind(v)) then Fail("SetUint", ValueKind(v))
    else Ok(Store(v, h, ToBytes(x, IntBytes(ValueKind(v), w))))
  }

  lemma SetUintThenUint(v: Value, x: nat, h: Heap, w: WordSize)
    requires x < 0x1_0000_0000_0000_0000 && SetUint(v, x, h, w).Ok?
    requires Holds(v, h, IntBytes(ValueKind(v), w))
    ensures UintOf(v, SetUint(v, x, h, w).value, w) == Ok(x % Pow2(8 * IntBytes(ValueKind(v), w)))
  {
    var n := IntBytes(ValueKind(v), w);
    CanSetIff(v);
    StoreThenLoad(v, h, ToBytes(x, n));
    LittleEndianOfBytes(x, n);
  }

  /** `Value.SetString`: stores the string's header. */
  function SetString(v: Value, x: StringHeader, h: Heap, w: WordSize): (r: Result<Heap>)
    ensures r.Ok? <==> CanAddr(v) && ValueKind(v) == String
    ensures !CanAddr(v) ==> r == Err(Panic("reflect: value is not addressable"))
    ensures CanAddr(v) && ValueKind(v) != String ==> r == Fail("SetString", ValueKind(v))
    ensures r.Ok? ==> r.value == h.(mem := r.value.mem) && |r.value.mem| == |h.mem|
  {
    var _ :- CheckAddressable(v);
    if ValueKind(v) != String then Fail("SetString", ValueKind(v))
    else Ok(Store(v, h, StringBytes(x, w)))
  }

  lemma SetStringThenString(v: Value, x: StringHeader, h: Heap, w: WordSize)
    requires SetString(v, x, h, w).Ok? && StringFits(x, w) && Holds(v, h, 2 * w)
    ensures ReadString(SetString(v, x, h, w).value.mem, v.word, w) == x
  {
    StoreThenLoad(v, h, StringBytes(x, w));
    ReadStringBytes(SetString(v, x, h, w).value.mem, v.word, x, w);
  }

  predicate IsByteSlice(t: Option<RType>) {
    KindOf(t) == Slice && KindOf(t.value.elem) == Uint8
  }

  /** `Value.SetBytes`: stores the slice's header. */
  function SetBytes(v: Value, x: SliceHeader, h: Heap, w: WordSize): (r: Result<Heap>)
    ensures r.Ok? <==> CanAddr(v) && IsByteSlice(v.typ)
    ensures !CanAddr(v) ==> r == Err(Panic("reflect: value is not addressable"))
    ensures CanAddr(v) && !IsByteSlice(v.typ) ==> r == Err(Panic("reflect.Value.SetBytes called on not []byte"))
    ensures r.Ok? ==> r.value == h.(mem := r.value.mem) && |r.value.mem| == |h.mem|
  {
    var _ :- CheckAddressable(v);
    if ValueKind(v) != Slice || KindOf(v.typ.value.elem) != Uint8 then
      Err(Panic("reflect.Value.SetBytes called on not []byte"))
    else Ok(Store(v, h, SliceBytes(x, w)))
  }

  /** Bytes returns the header SetBytes stored. */
  lemma SetBytesThenBytes(v: Value, x: SliceHeader, h: Heap, w: WordSize)
    requires SetBytes(v, x, h, w).Ok? && SliceFits(x, w) && Holds(v, h, 3 * w)
    ensures Bytes(v, SetBytes(v, x, h, w).value, w) == Ok(x)
  {
    StoreThenLoad(v, h, SliceBytes(x, w));
    ReadSliceBytes(SetBytes(v, x, h, w).value.mem, v.word, x, w);
  }
}
