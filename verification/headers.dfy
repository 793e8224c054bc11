/** Slice and string header bookkeeping: re-slicing, length changes,
    slice construction and growth, appending and copying. Every header
    built here is a fresh allocation, as `&hdr` escapes to the heap. */
module Headers {
  import opened Words
  import opened Kinds
  import opened Errors
  import opened Types
  import opened Flags
  import opened Memory
  import opened Values
  import opened Access
  import opened Setters

  /** The heap with a new header object allocated, and its address. */
  function StoreSlice(h: Heap, hdr: SliceHeader, w: WordSize): (r: Allocation)
    ensures ReadBytes(r.mem, r.addr, 3 * w) == SliceBytes(hdr, w) && h.mem <= r.mem && 0 < r.addr
  {
    Alloc(h.mem, SliceBytes(hdr, w))
  }

  function StoreString(h: Heap, hdr: StringHeader, w: WordSize): (r: Allocation)
    ensures ReadBytes(r.mem, r.addr, 2 * w) == StringBytes(hdr, w) && h.mem <= r.mem && 0 < r.addr
  {
    Alloc(h.mem, StringBytes(hdr, w))
  }

  function ElemSize(v: Value): nat
    requires v.typ.Some?
  {
    SizeOf(v.typ.value.elem)
  }

  // ---------------------------------------------------------------------
  // Slice and Slice3.

  /** Re-slicing a slice header `hdr` to `[i:j:k]` (indexes already
      unsigned), with `bound` the limit k may not exceed; a fresh header is
      allocated and the result carries type `typ` and flags `f`. */
  function Reslice(h: Heap, hdr: SliceHeader, typ: Option<RType>, f: Flags,
                   i: nat, j: nat, k: nat, bound: nat, off: nat, w: WordSize): (r: Result<Outcome>)
    requires SliceFits(hdr, w) && k < WordLimit(w)
    ensures r.Ok? <==> i <= j <= k <= bound
    ensures r.Err? ==> r.error == SliceBounds
    ensures r.Ok? ==> r.value.value.typ == typ && r.value.value.flags == f
    ensures r.Ok? ==> h.mem <= r.value.heap.mem && r.value.heap == h.(mem := r.value.heap.mem)
    ensures r.Ok? ==> ReadSlice(r.value.heap.mem, r.value.value.word, w)
                        == SliceHeader(AddWord(hdr.data, off, w), j - i, k - i)
  {
    if j < i || k < j || bound < k then Err(SliceBounds)
    else
      var nh := SliceHeader(AddWord(hdr.data, off, w), j - i, k - i);
      var a := StoreSlice(h, nh, w);
      ReadSliceBytes(a.mem, a.addr, nh, w);
      Ok(Outcome(Value(typ, a.addr, f), h.(mem := a.mem)))
  }

  /** Re-slicing a string header to `[i:j]`. */
  function Restring(h: Heap, str: StringHeader, typ: Option<RType>, f: Flags,
                    i: nat, j: nat, w: WordSize): (r: Result<Outcome>)
    requires StringFits(str, w)
    ensures r.Ok? <==> i <= j <= str.len
    ensures r.Err? ==> r.error == SliceBounds
    ensures r.Ok? ==> r.value.value.typ == typ && r.value.value.flags == f
    ensures r.Ok? ==> h.mem <= r.value.heap.mem && r.value.heap == h.(mem := r.value.heap.mem)
    ensures r.Ok? ==> ReadString(r.value.heap.mem, r.value.value.word, w)
                        == StringHeader(AddWord(str.data, i, w), j - i)
  {
    if j < i || str.len < j then Err(SliceBounds)
    else
      var nh := StringHeader(AddWord(str.data, i, w), j - i);
      var a := StoreString(h, nh, w);
      ReadStringBytes(a.mem, a.addr, nh, w);
      Ok(Outcome(Value(typ, a.addr, f), h.(mem := a.mem)))
  }

  /** `Value.Slice(i, j)`, indexes compared as uintptr. Arrays are not
      supported and fail like every other kind. */
  function SliceRange(v: Value, h: Heap, i: int, j: int, w: WordSize): (r: Result<Outcome>)
    ensures ValueKind(v) == Slice ==>
              (r.Ok? <==> ToUnsigned(i, w) <= ToUnsigned(j, w) <= ReadSlice(h.mem, v.word, w).cap)
    ensures ValueKind(v) == String ==>
              (r.Ok? <==> ToUnsigned(i, w) <= ToUnsigned(j, w) <= ReadString(h.mem, v.word, w).len)
    ensures (ValueKind(v) == Slice || ValueKind(v) == String) && r.Err? ==> r.error == SliceBounds
    ensures ValueKind(v) != Slice && ValueKind(v) != String ==> r == Fail("Slice", ValueKind(v))
    ensures r.Ok? ==> r.value.value.typ == v.typ && r.value.value.flags == v.flags
    ensures r.Ok? ==> h.mem <= r.value.heap.mem && r.value.heap == h.(mem := r.value.heap.mem)
    ensures r.Ok? && ValueKind(v) == Slice ==>
              var hdr := ReadSlice(h.mem, v.word, w);
              var ui := ToUnsigned(i, w);
              ReadSlice(r.value.heap.mem, r.value.value.word, w)
                == SliceHeader(AddWord(hdr.data, Scale(ui, ElemSize(v)), w), ToUnsigned(j, w) - ui, hdr.cap - ui)
    ensures r.Ok? && ValueKind(v) == String ==>
              var str := ReadString(h.mem, v.word, w);
              var ui := ToUnsigned(i, w);
              ReadString(r.value.heap.mem, r.value.value.word, w)
                == StringHeader(AddWord(str.data, ui, w), ToUnsigned(j, w) - ui)
  {
    if ValueKind(v) == Slice then
      var hdr := ReadSlice(h.mem, v.word, w);
      Reslice(h, hdr, v.typ, v.flags, ToUnsigned(i, w), ToUnsigned(j, w), hdr.cap, hdr.cap, Scale(ToUnsigned(i, w), ElemSize(v)), w)
    else if ValueKind(v) == String then
      Restring(h, ReadString(h.mem, v.word, w), v.typ, v.flags, ToUnsigned(i, w), ToUnsigned(j, w), w)
    else Fail("Slice", ValueKind(v))
  }

  /** For Go ints and a capacity that is itself a non-negative int, the
      unsigned comparisons of Slice are exactly `0 <= i <= j <= cap`. */
  lemma SliceBoundsSigned(v: Value, h: Heap, i: int, j: int, w: WordSize)
    requires ValueKind(v) == Slice && IsGoInt(i, w) && IsGoInt(j, w)
    requires ReadSlice(h.mem, v.word, w).cap <= MaxInt(w)
    ensures SliceRange(v, h, i, j, w).Ok? <==> 0 <= i <= j <= ReadSlice(h.mem, v.word, w).cap
  {
  }

  /** After slicing, the new header holds length j - i and capacity
      cap - i, which is what Len and Cap then report (SliceLenAndCap). */
  lemma SliceLenCap(v: Value, h: Heap, i: int, j: int, w: WordSize)
    requires ValueKind(v) == Slice && 0 <= i <= j <= ReadSlice(h.mem, v.word, w).cap
    requires ReadSlice(h.mem, v.word, w).cap <= MaxInt(w)
    ensures SliceRange(v, h, i, j, w).Ok?
    ensures ValueKind(SliceRange(v, h, i, j, w).value.value) == Slice
    ensures var r := SliceRange(v, h, i, j, w).value;
            var got := ReadSlice(r.heap.mem, r.value.word, w);
            got.len == j - i && got.cap == ReadSlice(h.mem, v.word, w).cap - i
  {
    assert ToUnsigned(i, w) == i && ToUnsigned(j, w) == j;
  }

  /** Len and Cap of the slice `v.Slice(i, j)` are j - i and cap - i. */
  lemma SliceThenLenCap(v: Value, h: Heap, i: int, j: int, w: WordSize)
    requires ValueKind(v) == Slice && 0 <= i <= j <= ReadSlice(h.mem, v.word, w).cap
    requires ReadSlice(h.mem, v.word, w).cap <= MaxInt(w)
    ensures SliceRange(v, h, i, j, w).Ok?
    ensures var r := SliceRange(v, h, i, j, w).value;
            && Len(r.value, r.heap, w) == Ok(j - i)
            && Cap(r.value, r.heap, w) == Ok(ReadSlice(h.mem, v.word, w).cap - i)
  {
    SliceLenCap(v, h, i, j, w);
    var r := SliceRange(v, h, i, j, w).value;
    var got := ReadSlice(r.heap.mem, r.value.word, w);
    SliceLenAndCap(r.value, r.heap, w);
    assert GoInt(got.len, w) == j - i;
    assert GoInt(got.cap, w) == ReadSlice(h.mem, v.word, w).cap - i;
  }

  /** Len and Cap of a slice read its header's words as Go ints. */
  lemma SliceLenAndCap(v: Value, h: Heap, w: WordSize)
    requires ValueKind(v) == Slice
    ensures Len(v, h, w) == Ok(GoInt(ReadSlice(h.mem, v.word, w).len, w))
    ensures Cap(v, h, w) == Ok(GoInt(ReadSlice(h.mem, v.word, w).cap, w))
  {
  }

  /** `Value.Slice3(i, j, k)` as the source has it: k is bounded by the
      slice's length rather than its capacity. */
  function Slice3AsWritten(v: Value, h: Heap, i: int, j: int, k: int, w: WordSize): (r: Result<Outcome>)
    ensures r.Ok? <==> ValueKind(v) == Slice
                       && ToUnsigned(i, w) <= ToUnsigned(j, w) <= ToUnsigned(k, w) <= ReadSlice(h.mem, v.word, w).len
  {
    Slice3With(v, h, i, j, k, ReadSlice(h.mem, v.word, w).len, w)
  }

  /** `Value.Slice3(i, j, k)` bounded by the capacity, as a three-index
      slice expression is. */
  function Slice3(v: Value, h: Heap, i: int, j: int, k: int, w: WordSize): (r: Result<Outcome>)
    ensures r.Ok? <==> ValueKind(v) == Slice
                       && ToUnsigned(i, w) <= ToUnsigned(j, w) <= ToUnsigned(k, w) <= ReadSlice(h.mem, v.word, w).cap
    ensures ValueKind(v) == Slice && r.Err? ==> r.error == SliceBounds
    ensures ValueKind(v) != Slice ==> r == Err(Panic("unimplemented: (reflect.Value).Slice3()"))
    ensures r.Ok? ==> r.value.value.typ == v.typ && r.value.value.flags == v.flags && h.mem <= r.value.heap.mem
    ensures r.Ok? ==>
              var hdr := ReadSlice(h.mem, v.word, w);
              var ui := ToUnsigned(i, w);
              ReadSlice(r.value.heap.mem, r.value.value.word, w)
                == SliceHeader(AddWord(hdr.data, Scale(ui, ElemSize(v)), w), ToUnsigned(j, w) - ui, ToUnsigned(k, w) - ui)
  {
    Slice3With(v, h, i, j, k, ReadSlice(h.mem, v.word, w).cap, w)
  }

  /** Slice3 with the bound on k passed in. */
  function Slice3With(v: Value, h: Heap, i: int, j: int, k: int, bound: nat, w: WordSize): (r: Result<Outcome>)
    ensures r.Ok? <==> ValueKind(v) == Slice && ToUnsigned(i, w) <= ToUnsigned(j, w) <= ToUnsigned(k, w) <= bound
    ensures ValueKind(v) == Slice && r.Err? ==> r.error == SliceBounds
    ensures ValueKind(v) != Slice ==> r == Err(Panic("unimplemented: (reflect.Value).Slice3()"))
    ensures r.Ok? ==> r.value.value.typ == v.typ && r.value.value.flags == v.flags && h.mem <= r.value.heap.mem
    ensures r.Ok? ==>
              var hdr := ReadSlice(h.mem, v.word, w);
              var ui := ToUnsigned(i, w);
              ReadSlice(r.value.heap.mem, r.value.value.word, w)
                == SliceHeader(AddWord(hdr.data, Scale(ui, ElemSize(v)), w), ToUnsigned(j, w) - ui, ToUnsigned(k, w) - ui)
  {
    if ValueKind(v) == Slice then
      var hdr := ReadSlice(h.mem, v.word, w);
      Reslice(h, hdr, v.typ, v.flags, ToUnsigned(i, w), ToUnsigned(j, w), ToUnsigned(k, w), bound, Scale(ToUnsigned(i, w), ElemSize(v)), w)
    else Err(Panic("unimplemented: (reflect.Value).Slice3()"))
  }

  /** The source's Slice3 refuses `s[0:1:3]` on a slice of length 1 and
      capacity 4, which a three-index slice expression accepts; on every
      input it accepts, it agrees with the corrected Slice3. */
  lemma Slice3AsWrittenRejectsCapacity(v: Value, h: Heap, w: WordSize)
    requires ValueKind(v) == Slice && ReadSlice(h.mem, v.word, w) == SliceHeader(ReadSlice(h.mem, v.word, w).data, 1, 4)
    ensures Slice3AsWritten(v, h, 0, 1, 3, w).Err?
    ensures Slice3(v, h, 0, 1, 3, w).Ok?
  {
  }

  lemma Slice3AsWrittenSound(v: Value, h: Heap, i: int, j: int, k: int, w: WordSize)
    requires ValueKind(v) == Slice && ReadSlice(h.mem, v.word, w).len <= ReadSlice(h.mem, v.word, w).cap
    requires Slice3AsWritten(v, h, i, j, k, w).Ok?
    ensures Slice3AsWritten(v, h, i, j, k, w) == Slice3(v, h, i, j, k, w)
  {
  }

  // ---------------------------------------------------------------------
  // SetLen.

  /** `Value.SetLen`: rewrites the length word of the header v addresses.
      Neither addressability nor exportedness is checked. */
  function SetLen(v: Value, h: Heap, n: int, w: WordSize): (r: Result<Heap>)
    ensures r.Ok? <==> ValueKind(v) == Slice && GoInt(ToUnsigned(n, w), w) == n
                       && ToUnsigned(n, w) <= ReadSlice(h.mem, v.word, w).cap
    ensures ValueKind(v) != Slice ==> r == Fail("reflect.Value.SetLen", ValueKind(v))
    ensures ValueKind(v) == Slice && r.Err? ==> r.error == Panic("reflect.Value.SetLen: slice length out of range")
    ensures r.Ok? ==> r.value == h.(mem := r.value.mem) && |r.value.mem| == |h.mem|
  {
    if ValueKind(v) != Slice then Fail("reflect.Value.SetLen", ValueKind(v))
    else
      var hdr := ReadSlice(h.mem, v.word, w);
      var un := ToUnsigned(n, w);
      if GoInt(un, w) != n || un > hdr.cap then Err(Panic("reflect.Value.SetLen: slice length out of range"))
      else Ok(h.(mem := WriteBytes(h.mem, AddWord(v.word, w, w), ToBytes(un, w))))
  }

  /** On Go ints and a non-negative capacity, SetLen accepts exactly the
      lengths from 0 to the capacity. */
  lemma SetLenSigned(v: Value, h: Heap, n: int, w: WordSize)
    requires ValueKind(v) == Slice && IsGoInt(n, w) && ReadSlice(h.mem, v.word, w).cap <= MaxInt(w)
    ensures SetLen(v, h, n, w).Ok? <==> 0 <= n <= ReadSlice(h.mem, v.word, w).cap
  {
    var un := ToUnsigned(n, w);
    if n < 0 {
      assert un > MaxInt(w);
    } else {
      assert un == n && GoInt(un, w) == n;
    }
  }

  /** SetLen changes the header's length and nothing else in it. */
  lemma SetLenHeader(v: Value, h: Heap, n: int, w: WordSize)
    requires SetLen(v, h, n, w).Ok?
    requires 0 < v.word && v.word + 3 * w <= |h.mem| && v.word + 3 * w < WordLimit(w)
    ensures ReadSlice(SetLen(v, h, n, w).value.mem, v.word, w)
              == ReadSlice(h.mem, v.word, w).(len := ToUnsigned(n, w))
  {
    var mem := h.mem;
    var m := SetLen(v, h, n, w).value.mem;
    var bs := ToBytes(ToUnsigned(n, w), w);
    assert m == WriteBytes(mem, v.word + w, bs);
    ReadBesideWrite(mem, v.word + w, bs, v.word, w);
    SameWord(mem, m, v.word, w);
    ReadAfterWrite(mem, v.word + w, bs);
    ReadWordOfBytes(m, v.word + w, ToUnsigned(n, w), w);
    ReadBesideWrite(mem, v.word + w, bs, v.word + 2 * w, w);
    SameWord(mem, m, v.word + 2 * w, w);
  }

  /** After a successful SetLen(n), Len reports n and Cap is unchanged. */
  lemma SetLenThenLen(v: Value, h: Heap, n: int, w: WordSize)
    requires SetLen(v, h, n, w).Ok?
    requires 0 < v.word && v.word + 3 * w <= |h.mem| && v.word + 3 * w < WordLimit(w)
    ensures Len(v, SetLen(v, h, n, w).value, w) == Ok(n)
    ensures Cap(v, SetLen(v, h, n, w).value, w) == Cap(v, h, w)
  {
    SetLenHeader(v, h, n, w);
    var h2 := SetLen(v, h, n, w).value;
    SliceLenAndCap(v, h2, w);
    SliceLenAndCap(v, h, w);
  }

  /** Words over equal bytes are equal. */
  lemma SameWord(m1: seq<byte>, m2: seq<byte>, a: nat, w: WordSize)
    requires ReadBytes(m1, a, w) == ReadBytes(m2, a, w)
    ensures ReadWord(m1, a, w) == ReadWord(m2, a, w)
  {
    ReadWordBytes(m1, a, w);
    ReadWordOfBytes(m2, a, ReadWord(m1, a, w), w);
  }

  // ---------------------------------------------------------------------
  // MakeSlice.

  /** The largest capacity MakeSlice allows for elements of es bytes. */
  function MaxCap(es: nat, w: WordSize): (m: nat)
    ensures m * es <= MaxInt(w)
    ensures m <= MaxInt(w)
  {
    var top := MaxInt(w);
    if es > 1 then
      DivMulLe(top, es);
      top / es
    else if es == 1 then top
    else
      assert top * es == 0;
      top
  }

  /** `MakeSlice(typ, len, cap)`: a fresh zeroed array of cap elements and
      a fresh header over it, exported and not addressable. */
  function MakeSlice(typ: RType, len: int, cap: int, h: Heap, w: WordSize): (r: Result<Outcome>)
    ensures r.Ok? <==> typ.kind == Slice && ToUnsigned(len, w) <= ToUnsigned(cap, w) <= MaxCap(SizeOf(typ.elem), w)
    ensures typ.kind != Slice ==> r == Err(Panic("reflect.MakeSlice of non-slice type"))
    ensures typ.kind == Slice && r.Err? ==> r.error == SliceBounds
    ensures r.Ok? ==> r.value.value.typ == Some(typ) && r.value.value.flags == JustExported
    ensures r.Ok? ==> h.mem <= r.value.heap.mem && r.value.heap == h.(mem := r.value.heap.mem)
  {
    if typ.kind != Slice then Err(Panic("reflect.MakeSlice of non-slice type"))
    else
      var ulen, ucap := ToUnsigned(len, w), ToUnsigned(cap, w);
      var es := SizeOf(typ.elem);
      if ulen > ucap || ucap > MaxCap(es, w) then Err(SliceBounds)
      else
        var data := Alloc(h.mem, Zeros(Scale(ucap, es)));
        var a := Alloc(data.mem, SliceBytes(SliceHeader(data.addr, ulen, ucap), w));
        Ok(Outcome(Value(Some(typ), a.addr, JustExported), h.(mem := a.mem)))
  }

  /** On Go ints, MakeSlice accepts exactly `0 <= len <= cap <= MaxCap`. */
  lemma MakeSliceSigned(typ: RType, len: int, cap: int, h: Heap, w: WordSize)
    requires typ.kind == Slice && IsGoInt(len, w) && IsGoInt(cap, w)
    ensures MakeSlice(typ, len, cap, h, w).Ok? <==> 0 <= len <= cap <= MaxCap(SizeOf(typ.elem), w)
  {
  }

  /** The byte size of the array MakeSlice allocates does not overflow. */
  lemma MakeSliceSize(typ: RType, len: int, cap: int, h: Heap, w: WordSize)
    requires MakeSlice(typ, len, cap, h, w).Ok?
    ensures ToUnsigned(cap, w) * SizeOf(typ.elem) <= MaxInt(w)
  {
    var es := SizeOf(typ.elem);
    MulLe(ToUnsigned(cap, w), MaxCap(es, w), es);
  }

  /** The slice MakeSlice returns has the requested length and capacity and
      a zeroed backing array, provided the heap stays inside the address
      space. */
  lemma MakeSliceHeader(typ: RType, len: int, cap: int, h: Heap, w: WordSize)
    requires MakeSlice(typ, len, cap, h, w).Ok? && IsGoInt(len, w) && IsGoInt(cap, w)
    requires |h.mem| + 1 + cap * SizeOf(typ.elem) < WordLimit(w)
    ensures var r := MakeSlice(typ, len, cap, h, w).value;
            var hdr := ReadSlice(r.heap.mem, r.value.word, w);
            && hdr == SliceHeader(|h.mem| + 1, len, cap)
            && ReadBytes(r.heap.mem, hdr.data, cap * SizeOf(typ.elem)) == Zeros(cap * SizeOf(typ.elem))
            && Len(r.value, r.heap, w) == Ok(len) && Cap(r.value, r.heap, w) == Ok(cap)
  {
    var es := SizeOf(typ.elem);
    MakeSliceSigned(typ, len, cap, h, w);
    assert ToUnsigned(len, w) == len && ToUnsigned(cap, w) == cap;
    ScaleIsProduct(cap, es);
    var data := Alloc(h.mem, Zeros(cap * es));
    var nh := SliceHeader(data.addr, len, cap);
    var a := Alloc(data.mem, SliceBytes(nh, w));
    var r := MakeSlice(typ, len, cap, h, w).value;
    assert r.heap.mem == a.mem && r.value.word == a.addr;
    ReadSliceBytes(a.mem, a.addr, nh, w);
    AllocKeeps(data.mem, SliceBytes(nh, w), data.addr, cap * es);
    SliceLenAndCap(r.value, r.heap, w);
  }

  /** Every element `Index(k)`, k < len, of a slice MakeSlice returns is
      settable, has the element type, and holds the zero value's bytes. */
  lemma MakeSliceElementsZero(typ: RType, len: int, cap: int, h: Heap, k: int, w: WordSize)
    requires MakeSlice(typ, len, cap, h, w).Ok? && IsGoInt(len, w) && IsGoInt(cap, w)
    requires |h.mem| + 1 + cap * SizeOf(typ.elem) < WordLimit(w)
    requires 0 <= k < len
    ensures var r := MakeSlice(typ, len, cap, h, w).value;
            var e := Index(r.value, r.heap, k, w);
            && e.Ok? && e.value.typ == typ.elem && CanSet(e.value)
            && Contents(e.value, r.heap, w) == Zeros(SizeOf(typ.elem))
  {
    MakeSliceHeader(typ, len, cap, h, w);
    var r := MakeSlice(typ, len, cap, h, w).value;
    JustExportedBits();
    ScaleIsProduct(cap, SizeOf(typ.elem));
    var e := ZeroSliceElement(r.value, r.heap, SliceHeader(|h.mem| + 1, len, cap), k, w);
    assert Index(r.value, r.heap, k, w) == SliceElement(r.value, r.heap, k, w);
  }

  /** An element of an exported slice with header hdr whose backing array,
      up to its capacity, reads as zeros. */
  lemma ZeroSliceElement(v: Value, h: Heap, hdr: SliceHeader, k: int, w: WordSize) returns (e: Value)
    requires ValueKind(v) == Slice && IsExported(v) && ReadSlice(h.mem, v.word, w) == hdr
    requires 0 <= k < hdr.len <= hdr.cap
    requires var size := Scale(hdr.cap, SizeOf(v.typ.value.elem));
             hdr.data + size < WordLimit(w) && ReadBytes(h.mem, hdr.data, size) == Zeros(size)
    ensures SliceElement(v, h, k, w) == Ok(e)
    ensures e.typ == v.typ.value.elem && CanSet(e) && Contents(e, h, w) == Zeros(SizeOf(e.typ))
  {
    var es := SizeOf(v.typ.value.elem);
    SlotFits(k, hdr.cap, es);
    ScaleIsProduct(hdr.cap, es);
    SliceElementAt(v, h, hdr, k, w);
    e := SliceElement(v, h, k, w).value;
    ZeroWindow(h.mem, hdr.data, Scale(hdr.cap, es), Scale(k, es), es);
  }

  /** Element k of an exported slice lies Scale(k, es) bytes into the
      backing array, when that array ends inside the address space. */
  lemma SliceElementAt(v: Value, h: Heap, hdr: SliceHeader, k: int, w: WordSize)
    requires ValueKind(v) == Slice && IsExported(v) && ReadSlice(h.mem, v.word, w) == hdr
    requires 0 <= k < hdr.len
    requires hdr.data + Scale(k, SizeOf(v.typ.value.elem)) < WordLimit(w)
    ensures SliceElement(v, h, k, w).Ok?
    ensures var e := SliceElement(v, h, k, w).value;
            && e.typ == v.typ.value.elem && CanSet(e) && IsIndirect(e)
            && e.word == hdr.data + Scale(k, SizeOf(v.typ.value.elem))
  {
    assert ToUnsigned(k, w) == k;
    CanSetIff(SliceElement(v, h, k, w).value);
  }

  /** Element k of n elements of es bytes ends inside them, in Scale's terms. */
  lemma ScaleSlot(k: nat, n: nat, es: nat)
    requires k < n
    ensures Scale(k, es) + es <= Scale(n, es)
  {
    SlotFits(k, n, es);
    ScaleIsProduct(n, es);
  }

  /** Element k of cap elements of es bytes ends inside them. */
  lemma SlotFits(k: nat, cap: nat, es: nat)
    requires k < cap
    ensures Scale(k, es) + es <= cap * es
  {
    ScaleIsProduct(k, es);
    MulLe(k + 1, cap, es);
  }

  /** A window of a run of zero bytes is zero. */
  lemma ZeroWindow(mem: seq<byte>, a: nat, n: nat, off: nat, size: nat)
    requires ReadBytes(mem, a, n) == Zeros(n) && off + size <= n
    ensures ReadBytes(mem, a + off, size) == Zeros(size)
  {
    ReadBytesWindow(mem, a, n, off, size);
    assert Zeros(n)[off..off + size] == Zeros(size);
  }

  // ---------------------------------------------------------------------
  // extendSlice, Append and AppendSlice.

  /** What a runtime slice routine hands back: a header and the memory
      after it has allocated and copied. */
  datatype Grown = Grown(hdr: SliceHeader, mem: seq<byte>)

  /** `runtime.sliceGrow(buf, oldLen, oldCap, newCap, elemSize)`, which is
      not part of this model: given the memory too, as a parameter. */
  type Grower = (seq<byte>, nat, nat, nat, nat, nat) -> Grown

  /** `runtime.sliceAppend(srcBuf, elemsBuf, srcLen, srcCap, elemsLen,
      elemSize)`, likewise a parameter. */
  type Appender = (seq<byte>, nat, nat, nat, nat, nat, nat) -> Grown

  /** A header the runtime returns, stored as uintptr words. */
  function AsWords(hdr: SliceHeader, w: WordSize): (r: SliceHeader)
    ensures SliceFits(r, w)
    ensures SliceFits(hdr, w) ==> r == hdr
  {
    SliceHeader(ToUnsigned(hdr.data, w), ToUnsigned(hdr.len, w), ToUnsigned(hdr.cap, w))
  }

  /** The header extendSlice starts from: zero when v holds no header. */
  function OldHeader(v: Value, h: Heap, w: WordSize): (hdr: SliceHeader)
    ensures SliceFits(hdr, w)
  {
    if v.word != 0 then ReadSlice(h.mem, v.word, w) else SliceHeader(0, 0, 0)
  }

  /** Whether extendSlice must grow: the new length, wrapped, exceeds the
      capacity. */
  predicate MustGrow(prev: SliceHeader, n: int, w: WordSize) {
    AddWord(prev.len, ToUnsigned(n, w), w) > prev.cap
  }

  /** `(*Value).extendSlice(n)`: room for n more elements, reusing the
      backing array when it has the room and growing it otherwise; the
      value then addresses a fresh header. */
  function ExtendSlice(v: Value, h: Heap, n: int, w: WordSize, grow: Grower): (r: Result<Outcome>)
    ensures r.Ok? <==> ValueKind(v) == Slice
    ensures r.Err? ==> r == Fail("extendSlice", ValueKind(v))
    ensures r.Ok? ==> r.value.value.typ == v.typ && r.value.value.flags == v.flags
    ensures r.Ok? ==> r.value.heap == h.(mem := r.value.heap.mem)
    ensures r.Ok? && !MustGrow(OldHeader(v, h, w), n, w) ==>
              var prev := OldHeader(v, h, w);
              && h.mem <= r.value.heap.mem && r.value.value.word == |h.mem| + 1
              && ReadSlice(r.value.heap.mem, r.value.value.word, w)
                   == SliceHeader(prev.data, AddWord(prev.len, ToUnsigned(n, w), w), prev.cap)
    ensures r.Ok? && MustGrow(OldHeader(v, h, w), n, w) ==>
              var prev := OldHeader(v, h, w);
              var g := grow(h.mem, prev.data, prev.len, prev.cap, AddWord(prev.cap, ToUnsigned(n, w), w), ElemSize(v));
              var ng := AsWords(g.hdr, w);
              && g.mem <= r.value.heap.mem
              && ReadSlice(r.value.heap.mem, r.value.value.word, w)
                   == SliceHeader(ng.data, AddWord(ng.len, ToUnsigned(n, w), w), ng.cap)
  {
    if ValueKind(v) != Slice then Fail("extendSlice", ValueKind(v))
    else
      var prev := OldHeader(v, h, w);
      var un := ToUnsigned(n, w);
      var base :=
        if MustGrow(prev, n, w) then
          var g := grow(h.mem, prev.data, prev.len, prev.cap, AddWord(prev.cap, un, w), ElemSize(v));
          Grown(AsWords(g.hdr, w), g.mem)
        else Grown(prev, h.mem);
      var nh := SliceHeader(base.hdr.data, AddWord(base.hdr.len, un, w), base.hdr.cap);
      var a := Alloc(base.mem, SliceBytes(nh, w));
      ReadSliceBytes(a.mem, a.addr, nh, w);
      Ok(Outcome(Value(v.typ, a.addr, v.flags), h.(mem := a.mem)))
  }

  /** When the room is there, extending by n adds n to the length and keeps
      the backing array and capacity; when it is not, and the runtime keeps
      the length it was given, the length still grows by exactly n. */
  lemma ExtendSliceLength(v: Value, h: Heap, n: int, w: WordSize, grow: Grower)
    requires ValueKind(v) == Slice && 0 <= n
    requires OldHeader(v, h, w).len + n <= MaxInt(w)
    ensures var r := ExtendSlice(v, h, n, w, grow).value;
            var prev := OldHeader(v, h, w);
            var nh := ReadSlice(r.heap.mem, r.value.word, w);
            && (prev.len + n <= prev.cap ==> nh == SliceHeader(prev.data, prev.len + n, prev.cap))
            && (prev.len + n > prev.cap
                && grow(h.mem, prev.data, prev.len, prev.cap, AddWord(prev.cap, n, w), ElemSize(v)).hdr.len == prev.len
                ==> nh.len == prev.len + n)
  {
    var prev := OldHeader(v, h, w);
    assert ToUnsigned(n, w) == n;
    assert AddWord(prev.len, n, w) == prev.len + n;
  }

  /** Writes xs[k..] into slots oldLen + k onwards of slice s. Index on a
      slice is its slice branch, SliceElement. The index is computed as a
      Go int, but it is read as a uintptr, so its wrap-around changes
      nothing. */
  function AppendLoop(s: Value, h: Heap, oldLen: int, xs: seq<Value>, k: nat, w: WordSize,
                      assignable: Assignable): (r: Result<Outcome>)
    requires ValueKind(s) == Slice && k <= |xs|
    ensures r.Ok? ==> r.value.value == s && r.value.heap == h.(mem := r.value.heap.mem)
    ensures r.Ok? ==> forall m :: k <= m < |xs| ==> assignable(s.typ.value.elem, xs[m].typ)
    decreases |xs| - k
  {
    if k == |xs| then Ok(Outcome(s, h))
    else
      var e :- SliceElement(s, h, oldLen + k, w);
      var h' :- Set(e, xs[k], h, w, assignable);
      AppendLoop(s, h', oldLen, xs, k + 1, w, assignable)
  }

  /** `Append(v, xs...)`: extends v by |xs| and sets each new element. */
  function Append(v: Value, xs: seq<Value>, h: Heap, w: WordSize, grow: Grower, assignable: Assignable): (r: Result<Outcome>)
    ensures ValueKind(v) != Slice ==> r == Fail("Append", ValueKind(v))
    ensures r.Ok? ==> ValueKind(v) == Slice
                      && r.value.value == ExtendSlice(v, h, |xs|, w, grow).value.value
                      && forall m :: 0 <= m < |xs| ==> assignable(v.typ.value.elem, xs[m].typ)
    ensures ValueKind(v) == Slice && xs == [] ==> r == ExtendSlice(v, h, 0, w, grow)
  {
    if ValueKind(v) != Slice then Fail("Append", ValueKind(v))
    else
      var oldLen := GoInt(ReadSlice(h.mem, v.word, w).len, w);
      var ext := ExtendSlice(v, h, |xs|, w, grow).value;
      AppendLoop(ext.value, ext.heap, oldLen, xs, 0, w, assignable)
  }

  /** When the backing array has room for xs and lies below the heap's
      end, Append succeeds exactly when every value is assignable to the
      element type. */
  lemma AppendSucceeds(v: Value, xs: seq<Value>, h: Heap, w: WordSize, grow: Grower, assignable: Assignable)
    requires ValueKind(v) == Slice
    requires var prev := OldHeader(v, h, w);
             && prev.len + |xs| <= prev.cap && prev.len + |xs| <= MaxInt(w)
             && prev.data + prev.cap * SizeOf(v.typ.value.elem) <= |h.mem|
    requires |h.mem| + 1 < WordLimit(w)
    ensures Append(v, xs, h, w, grow, assignable).Ok? <==>
              forall m :: 0 <= m < |xs| ==> assignable(v.typ.value.elem, xs[m].typ)
  {
    AppendInPlace(v, xs, h, w, grow, assignable);
  }

  /** In the same case, the slice Append returns has length len + |xs| over
      the same backing array and capacity, in the heap it returns. */
  lemma AppendLength(v: Value, xs: seq<Value>, h: Heap, w: WordSize, grow: Grower, assignable: Assignable)
    requires ValueKind(v) == Slice
    requires var prev := OldHeader(v, h, w);
             && prev.len + |xs| <= prev.cap && prev.len + |xs| <= MaxInt(w)
             && prev.data + prev.cap * SizeOf(v.typ.value.elem) <= |h.mem|
    requires |h.mem| + 1 < WordLimit(w)
    requires Append(v, xs, h, w, grow, assignable).Ok?
    ensures var r := Append(v, xs, h, w, grow, assignable).value;
            var prev := OldHeader(v, h, w);
            ReadSlice(r.heap.mem, r.value.word, w) == SliceHeader(prev.data, prev.len + |xs|, prev.cap)
  {
    AppendInPlace(v, xs, h, w, grow, assignable);
  }

  lemma AppendInPlace(v: Value, xs: seq<Value>, h: Heap, w: WordSize, grow: Grower, assignable: Assignable)
    requires ValueKind(v) == Slice
    requires var prev := OldHeader(v, h, w);
             && prev.len + |xs| <= prev.cap && prev.len + |xs| <= MaxInt(w)
             && prev.data + prev.cap * SizeOf(v.typ.value.elem) <= |h.mem|
    requires |h.mem| + 1 < WordLimit(w)
    ensures var r := Append(v, xs, h, w, grow, assignable);
            var prev := OldHeader(v, h, w);
            && (r.Ok? <==> forall m :: 0 <= m < |xs| ==> assignable(v.typ.value.elem, xs[m].typ))
            && (r.Ok? ==> ReadSlice(r.value.heap.mem, r.value.value.word, w) == SliceHeader(prev.data, prev.len + |xs|, prev.cap))
  {
    var hdr := ExtendInPlace(v, xs, h, w, grow);
    var ext := ExtendSlice(v, h, |xs|, w, grow).value;
    if xs == [] {
      assert Append(v, xs, h, w, grow, assignable) == Ok(ext);
    } else {
      var oldLen := GoInt(ReadSlice(h.mem, v.word, w).len, w);
      assert Append(v, xs, h, w, grow, assignable) == AppendLoop(ext.value, ext.heap, oldLen, xs, 0, w, assignable);
      AppendLoopSucceeds(ext.value, ext.heap, hdr, oldLen, xs, 0, w, assignable);
      AppendLoopKeepsHeader(ext.value, ext.heap, hdr, oldLen, xs, 0, w, assignable);
      if Append(v, xs, h, w, grow, assignable).Ok? {
        var r := Append(v, xs, h, w, grow, assignable).value;
        SameAboveReads(r.heap.mem, ext.heap.mem, ext.value.word, 3 * w);
        SameSlice(r.heap.mem, ext.heap.mem, ext.value.word, w);
      }
    }
  }

  /** Without growth, extendSlice(|xs|) writes a fresh header past the end
      of the heap, over the same backing array, which lies below it. */
  lemma ExtendInPlace(v: Value, xs: seq<Value>, h: Heap, w: WordSize, grow: Grower) returns (hdr: SliceHeader)
    requires ValueKind(v) == Slice
    requires var prev := OldHeader(v, h, w);
             && prev.len + |xs| <= prev.cap && prev.len + |xs| <= MaxInt(w)
             && prev.data + prev.cap * SizeOf(v.typ.value.elem) <= |h.mem|
    requires |h.mem| + 1 < WordLimit(w)
    ensures var prev := OldHeader(v, h, w);
            hdr == SliceHeader(prev.data, prev.len + |xs|, prev.cap)
    ensures var ext := ExtendSlice(v, h, |xs|, w, grow).value;
            var oldLen := GoInt(ReadSlice(h.mem, v.word, w).len, w);
            && ext.value.word <= |ext.heap.mem|
            && ReadSlice(ext.heap.mem, ext.value.word, w) == hdr
            && (xs != [] ==> InPlace(ext.value, ext.heap, hdr, oldLen, |xs|, w))
  {
    var prev := OldHeader(v, h, w);
    hdr := SliceHeader(prev.data, prev.len + |xs|, prev.cap);
    ExtendHeader(v, h, |xs|, w, grow);
    if xs != [] {
      var ext := ExtendSlice(v, h, |xs|, w, grow).value;
      PrevLen(v, h, w);
      InPlaceBelow(ext.value, ext.heap, hdr, prev.len, |xs|, w);
    }
  }

  /** Without growth, extendSlice(n) leaves a slice of the same type whose
      header, length len + n over the same array, is the last thing in
      the heap. */
  lemma ExtendHeader(v: Value, h: Heap, n: nat, w: WordSize, grow: Grower)
    requires ValueKind(v) == Slice
    requires var prev := OldHeader(v, h, w);
             prev.len + n <= prev.cap && prev.len + n <= MaxInt(w)
    ensures var r := ExtendSlice(v, h, n, w, grow).value;
            var prev := OldHeader(v, h, w);
            && r.value.typ == v.typ && r.value.word == |h.mem| + 1
            && r.value.word + 3 * w == |r.heap.mem|
            && ReadSlice(r.heap.mem, r.value.word, w) == SliceHeader(prev.data, prev.len + n, prev.cap)
  {
    var prev := OldHeader(v, h, w);
    ExtendSliceLength(v, h, n, w, grow);
    assert ToUnsigned(n, w) == n;
    assert !MustGrow(prev, n, w);
    ExtendSliceEnd(v, h, n, w, grow);
  }

  /** A non-nil slice's length, read as a Go int, is its header's length
      when that fits. */
  lemma PrevLen(v: Value, h: Heap, w: WordSize)
    requires v.word != 0 && OldHeader(v, h, w).len <= MaxInt(w)
    ensures GoInt(ReadSlice(h.mem, v.word, w).len, w) == OldHeader(v, h, w).len
  {
  }

  /** A slice whose backing array ends below its own header admits the
      in-place stores at oldLen .. oldLen + n - 1. */
  lemma InPlaceBelow(s: Value, m: Heap, hdr: SliceHeader, oldLen: int, n: nat, w: WordSize)
    requires ValueKind(s) == Slice && ReadSlice(m.mem, s.word, w) == hdr
    requires 0 <= oldLen && oldLen + n <= hdr.len <= hdr.cap
    requires hdr.data + hdr.cap * SizeOf(s.typ.value.elem) < s.word < WordLimit(w)
    ensures InPlace(s, m, hdr, oldLen, n, w)
  {
    MulLe(hdr.len, hdr.cap, SizeOf(s.typ.value.elem));
    ScaleIsProduct(hdr.len, SizeOf(s.typ.value.elem));
  }

  /** Without growth, the fresh header extendSlice writes is the last
      thing in the heap. */
  lemma ExtendSliceEnd(v: Value, h: Heap, n: int, w: WordSize, grow: Grower)
    requires ValueKind(v) == Slice && !MustGrow(OldHeader(v, h, w), n, w)
    ensures var r := ExtendSlice(v, h, n, w, grow).value;
            r.value.word + 3 * w == |r.heap.mem|
  {
  }

  /** The stores of AppendLoop at oldLen .. oldLen + n - 1 all fall inside
      the slice s's header hdr, whose backing array ends below the header. */
  predicate InPlace(s: Value, h: Heap, hdr: SliceHeader, oldLen: int, n: nat, w: WordSize)
  {
    && ValueKind(s) == Slice && ReadSlice(h.mem, s.word, w) == hdr
    && 0 <= oldLen && oldLen + n <= hdr.len
    && hdr.data + Scale(hdr.len, SizeOf(s.typ.value.elem)) < s.word < WordLimit(w)
  }

  /** Each store of AppendLoop succeeds exactly when its value is
      assignable, as long as the stores land below the header s addresses. */
  lemma {:induction false} AppendLoopSucceeds(s: Value, h: Heap, hdr: SliceHeader, oldLen: int, xs: seq<Value>, k: nat,
                                              w: WordSize, assignable: Assignable)
    requires k <= |xs| && InPlace(s, h, hdr, oldLen, |xs|, w)
    ensures AppendLoop(s, h, oldLen, xs, k, w, assignable).Ok? <==>
              forall m :: k <= m < |xs| ==> assignable(s.typ.value.elem, xs[m].typ)
    decreases |xs| - k
  {
    if k < |xs| {
      var h2 := AppendLoopStep(s, h, hdr, oldLen, xs, k, w, assignable);
      AppendLoopSucceeds(s, h2, hdr, oldLen, xs, k + 1, w, assignable);
      SucceedsFromNext(s, h, h2, oldLen, xs, k, w, assignable);
    }
  }

  /** The Ok-iff of step k from the Ok-iff of step k + 1. */
  lemma SucceedsFromNext(s: Value, h: Heap, h2: Heap, oldLen: int, xs: seq<Value>, k: nat, w: WordSize, assignable: Assignable)
    requires ValueKind(s) == Slice && k < |xs|
    requires !assignable(s.typ.value.elem, xs[k].typ) ==> AppendLoop(s, h, oldLen, xs, k, w, assignable).Err?
    requires assignable(s.typ.value.elem, xs[k].typ) ==>
               AppendLoop(s, h, oldLen, xs, k, w, assignable) == AppendLoop(s, h2, oldLen, xs, k + 1, w, assignable)
    requires AppendLoop(s, h2, oldLen, xs, k + 1, w, assignable).Ok? <==>
               forall m :: k + 1 <= m < |xs| ==> assignable(s.typ.value.elem, xs[m].typ)
    ensures AppendLoop(s, h, oldLen, xs, k, w, assignable).Ok? <==>
              forall m :: k <= m < |xs| ==> assignable(s.typ.value.elem, xs[m].typ)
  {
  }

  /** The stores of AppendLoop land in the backing array, below the header
      s addresses, so the header's bytes survive them. */
  lemma {:induction false} AppendLoopKeepsHeader(s: Value, h: Heap, hdr: SliceHeader, oldLen: int, xs: seq<Value>, k: nat,
                                                 w: WordSize, assignable: Assignable)
    requires k <= |xs| && InPlace(s, h, hdr, oldLen, |xs|, w)
    requires s.word <= |h.mem|
    ensures var r := AppendLoop(s, h, oldLen, xs, k, w, assignable);
            r.Ok? ==> SameAbove(r.value.heap.mem, h.mem, s.word)
    decreases |xs| - k
  {
    if k < |xs| {
      var h2 := AppendLoopStep(s, h, hdr, oldLen, xs, k, w, assignable);
      AppendLoopKeepsHeader(s, h2, hdr, oldLen, xs, k + 1, w, assignable);
    }
  }

  /** Step k of AppendLoop, whose stores land below the header: it fails
      when xs[k] is not assignable, and otherwise leaves a heap h2 that keeps
      the header (and every byte from it up) and carries on from there. */
  lemma AppendLoopStep(s: Value, h: Heap, hdr: SliceHeader, oldLen: int, xs: seq<Value>, k: nat,
                       w: WordSize, assignable: Assignable) returns (h2: Heap)
    requires k < |xs| && InPlace(s, h, hdr, oldLen, |xs|, w)
    ensures InPlace(s, h2, hdr, oldLen, |xs|, w)
    ensures s.word <= |h.mem| ==> SameAbove(h2.mem, h.mem, s.word)
    ensures !assignable(s.typ.value.elem, xs[k].typ) ==> AppendLoop(s, h, oldLen, xs, k, w, assignable).Err?
    ensures assignable(s.typ.value.elem, xs[k].typ) ==>
              AppendLoop(s, h, oldLen, xs, k, w, assignable) == AppendLoop(s, h2, oldLen, xs, k + 1, w, assignable)
  {
    if s.word <= |h.mem| {
      h2 := AppendStepFrame(s, h, hdr, oldLen, |xs|, xs[k], oldLen + k, w, assignable);
    } else {
      h2 := AppendStep(s, h, hdr, oldLen, |xs|, xs[k], oldLen + k, w, assignable);
    }
    AppendLoopHandsOn(s, h, h2, oldLen, xs, k, w, assignable);
  }

  /** Once step k's Index has succeeded and its store, when it succeeds,
      leaves h2: the loop fails with the store, and otherwise carries on
      from h2. */
  lemma AppendLoopHandsOn(s: Value, h: Heap, h2: Heap, oldLen: int, xs: seq<Value>, k: nat,
                          w: WordSize, assignable: Assignable)
    requires ValueKind(s) == Slice && k < |xs| && SliceElement(s, h, oldLen + k, w).Ok?
    requires var r := Set(SliceElement(s, h, oldLen + k, w).value, xs[k], h, w, assignable);
             && (r.Ok? <==> assignable(s.typ.value.elem, xs[k].typ))
             && (r.Ok? ==> h2 == r.value)
    ensures !assignable(s.typ.value.elem, xs[k].typ) ==> AppendLoop(s, h, oldLen, xs, k, w, assignable).Err?
    ensures assignable(s.typ.value.elem, xs[k].typ) ==>
              AppendLoop(s, h, oldLen, xs, k, w, assignable) == AppendLoop(s, h2, oldLen, xs, k + 1, w, assignable)
  {
    AppendLoopUnfold(s, h, h2, oldLen, xs, k, w, assignable);
  }

  /** One store of AppendLoop: it succeeds exactly when x is assignable to
      the element type, and the heap h2 it leaves keeps the header. */
  lemma AppendStep(s: Value, h: Heap, hdr: SliceHeader, oldLen: int, n: nat, x: Value, i: int,
                   w: WordSize, assignable: Assignable) returns (h2: Heap)
    requires InPlace(s, h, hdr, oldLen, n, w) && oldLen <= i < oldLen + n
    ensures SliceElement(s, h, i, w).Ok?
    ensures var r := Set(SliceElement(s, h, i, w).value, x, h, w, assignable);
            && (r.Ok? <==> assignable(s.typ.value.elem, x.typ))
            && (r.Ok? ==> h2 == r.value) && (r.Err? ==> h2 == h)
    ensures InPlace(s, h2, hdr, oldLen, n, w)
  {
    AppendSlot(s, h, hdr, i, w);
    var e := SliceElement(s, h, i, w).value;
    var r := Set(e, x, h, w, assignable);
    if r.Ok? {
      h2 := r.value;
      SetKeepsHeader(e, x, h, s.word, w, assignable);
      InPlaceMoves(s, h, h2, hdr, oldLen, n, w);
    } else {
      h2 := h;
    }
  }

  /** The same store, which also leaves every byte from the header up as
      it was. */
  lemma AppendStepFrame(s: Value, h: Heap, hdr: SliceHeader, oldLen: int, n: nat, x: Value, i: int,
                        w: WordSize, assignable: Assignable) returns (h2: Heap)
    requires InPlace(s, h, hdr, oldLen, n, w) && oldLen <= i < oldLen + n && s.word <= |h.mem|
    ensures SliceElement(s, h, i, w).Ok?
    ensures var r := Set(SliceElement(s, h, i, w).value, x, h, w, assignable);
            && (r.Ok? <==> assignable(s.typ.value.elem, x.typ))
            && (r.Ok? ==> h2 == r.value) && (r.Err? ==> h2 == h)
    ensures InPlace(s, h2, hdr, oldLen, n, w) && SameAbove(h2.mem, h.mem, s.word)
  {
    h2 := AppendStep(s, h, hdr, oldLen, n, x, i, w, assignable);
    var e := SliceElement(s, h, i, w).value;
    if Set(e, x, h, w, assignable).Ok? {
      AppendSlot(s, h, hdr, i, w);
      SetKeepsAbove(e, x, h, s.word, w, assignable);
    }
  }

  /** InPlace depends on the heap only through the header s addresses. */
  lemma InPlaceMoves(s: Value, h: Heap, h2: Heap, hdr: SliceHeader, oldLen: int, n: nat, w: WordSize)
    requires InPlace(s, h, hdr, oldLen, n, w) && ReadSlice(h2.mem, s.word, w) == hdr
    ensures InPlace(s, h2, hdr, oldLen, n, w)
  {
  }

  /** One step of AppendLoop once its Index has succeeded: a failed store
      fails the loop, and a store that leaves h2 hands the rest of the loop
      to h2. */
  lemma AppendLoopUnfold(s: Value, h: Heap, h2: Heap, oldLen: int, xs: seq<Value>, k: nat, w: WordSize, assignable: Assignable)
    requires ValueKind(s) == Slice && k < |xs| && SliceElement(s, h, oldLen + k, w).Ok?
    requires var r := Set(SliceElement(s, h, oldLen + k, w).value, xs[k], h, w, assignable);
             r.Ok? ==> h2 == r.value
    ensures var r := Set(SliceElement(s, h, oldLen + k, w).value, xs[k], h, w, assignable);
            && (r.Ok? ==> AppendLoop(s, h, oldLen, xs, k, w, assignable) == AppendLoop(s, h2, oldLen, xs, k + 1, w, assignable))
            && (r.Err? ==> AppendLoop(s, h, oldLen, xs, k, w, assignable).Err?)
  {
  }

  /** Slot i of a slice whose backing array ends below its header is an
      addressable element that ends below the header too. */
  lemma AppendSlot(s: Value, h: Heap, hdr: SliceHeader, i: int, w: WordSize)
    requires ValueKind(s) == Slice && ReadSlice(h.mem, s.word, w) == hdr
    requires 0 <= i < hdr.len
    requires hdr.data + Scale(hdr.len, SizeOf(s.typ.value.elem)) < s.word < WordLimit(w)
    ensures SliceElement(s, h, i, w).Ok?
    ensures var e := SliceElement(s, h, i, w).value;
            && CanAddr(e) && e.typ == s.typ.value.elem
            && e.word + SizeOf(e.typ) <= s.word
  {
    var es := SizeOf(s.typ.value.elem);
    assert ToUnsigned(i, w) == i;
    ScaleSlot(i, hdr.len, es);
    var e := SliceElement(s, h, i, w).value;
    assert e.word == hdr.data + Scale(i, es);
    CanSetIff(e);
  }

  /** A Set that ends below address a leaves the header at a as it was. */
  lemma SetKeepsHeader(e: Value, x: Value, h: Heap, a: nat, w: WordSize, assignable: Assignable)
    requires Set(e, x, h, w, assignable).Ok? && e.word + SizeOf(e.typ) <= a
    ensures ReadSlice(Set(e, x, h, w, assignable).value.mem, a, w) == ReadSlice(h.mem, a, w)
  {
    SetFrame(e, x, h, w, assignable, a, 3 * w);
    SameSlice(h.mem, Set(e, x, h, w, assignable).value.mem, a, w);
  }

  /** m1 and m2 have the same length and agree from address a up. */
  predicate SameAbove(m1: seq<byte>, m2: seq<byte>, a: nat)
  {
    |m1| == |m2| && a <= |m1| && m1[a..] == m2[a..]
  }

  /** A Set that ends below address a leaves every byte from a up as it
      was. */
  lemma SetKeepsAbove(e: Value, x: Value, h: Heap, a: nat, w: WordSize, assignable: Assignable)
    requires Set(e, x, h, w, assignable).Ok? && e.word + SizeOf(e.typ) <= a <= |h.mem| && 0 < a
    ensures SameAbove(Set(e, x, h, w, assignable).value.mem, h.mem, a)
  {
    var m := Set(e, x, h, w, assignable).value.mem;
    SetFrame(e, x, h, w, assignable, a, |h.mem| - a);
    ReadBytesSuffix(m, a);
    ReadBytesSuffix(h.mem, a);
  }

  /** Reading from a to the end of memory, past address 0, gives the
      suffix itself. */
  lemma ReadBytesSuffix(m: seq<byte>, a: nat)
    requires 0 < a <= |m|
    ensures ReadBytes(m, a, |m| - a) == m[a..]
  {
    forall i | 0 <= i < |m| - a
      ensures ReadBytes(m, a, |m| - a)[i] == m[a..][i]
    {
      assert ReadBytes(m, a, |m| - a)[i] == ReadByte(m, a + i);
    }
  }

  /** Memories that agree from a up read the same bytes there. */
  lemma SameAboveReads(m1: seq<byte>, m2: seq<byte>, a: nat, n: nat)
    requires SameAbove(m1, m2, a)
    ensures ReadBytes(m1, a, n) == ReadBytes(m2, a, n)
  {
    forall i | 0 <= i < n
      ensures ReadBytes(m1, a, n)[i] == ReadBytes(m2, a, n)[i]
    {
      assert ReadBytes(m1, a, n)[i] == ReadByte(m1, a + i);
      assert ReadBytes(m2, a, n)[i] == ReadByte(m2, a + i);
      if a + i < |m1| {
        assert m1[a + i] == m1[a..][i] == m2[a..][i] == m2[a + i];
      }
    }
  }

  /** Headers over equal bytes are equal. */
  lemma SameSlice(m1: seq<byte>, m2: seq<byte>, a: nat, w: WordSize)
    requires ReadBytes(m1, a, 3 * w) == ReadBytes(m2, a, 3 * w)
    ensures ReadSlice(m1, a, w) == ReadSlice(m2, a, w)
  {
    ReadBytesWindow(m1, a, 3 * w, 0, w);
    ReadBytesWindow(m2, a, 3 * w, 0, w);
    SameWord(m1, m2, a, w);
    ReadBytesWindow(m1, a, 3 * w, w, w);
    ReadBytesWindow(m2, a, 3 * w, w, w);
    SameWord(m1, m2, a + w, w);
    ReadBytesWindow(m1, a, 3 * w, 2 * w, w);
    ReadBytesWindow(m2, a, 3 * w, 2 * w, w);
    SameWord(m1, m2, a + 2 * w, w);
  }

  /** `AppendSlice(s, t)`: both must be exported slices of one type. */
  function AppendSlice(s: Value, t: Value, h: Heap, w: WordSize, append: Appender): (r: Result<Outcome>)
    ensures r.Ok? <==> ValueKind(s) == Slice && s.typ == t.typ && IsExported(s) && IsExported(t)
    ensures ValueKind(s) != Slice || ValueKind(t) != Slice || s.typ != t.typ ==>
              r == Err(Panic("reflect.AppendSlice: invalid types"))
    ensures ValueKind(s) == Slice && s.typ == t.typ && !(IsExported(s) && IsExported(t)) ==>
              r == Err(Panic("reflect.AppendSlice: unexported"))
    ensures r.Ok? ==>
              var ss, ts := ReadSlice(h.mem, s.word, w), ReadSlice(h.mem, t.word, w);
              var g := append(h.mem, ss.data, ts.data, ss.len, ss.cap, ts.len, ElemSize(s));
              && r.value.value.typ == s.typ && r.value.value.flags == JustExported
              && g.mem <= r.value.heap.mem && r.value.heap == h.(mem := r.value.heap.mem)
              && ReadSlice(r.value.heap.mem, r.value.value.word, w) == AsWords(g.hdr, w)
  {
    if ValueKind(s) != Slice || ValueKind(t) != Slice || s.typ != t.typ then
      Err(Panic("reflect.AppendSlice: invalid types"))
    else if !IsExported(s) || !IsExported(t) then
      Err(Panic("reflect.AppendSlice: unexported"))
    else
      var ss, ts := ReadSlice(h.mem, s.word, w), ReadSlice(h.mem, t.word, w);
      var g := append(h.mem, ss.data, ts.data, ss.len, ss.cap, ts.len, ElemSize(s));
      var nh := AsWords(g.hdr, w);
      var a := Alloc(g.mem, SliceBytes(nh, w));
      ReadSliceBytes(a.mem, a.addr, nh, w);
      Ok(Outcome(Value(s.typ, a.addr, JustExported), h.(mem := a.mem)))
  }

  // ---------------------------------------------------------------------
  // Copy.

  /** A buffer's address and element count, as `buflen` returns them. */
  datatype Buffer = Buffer(data: nat, len: nat)

  /** The call `runtime.sliceCopy(dst, src, dstLen, srcLen, elemSize)`
      Copy ends in; sliceCopy itself is not part of this model. */
  datatype CopyCall = CopyCall(dst: Buffer, src: Buffer, elemSize: nat)

  predicate SliceOrArray(k: Kind) {
    k == Slice || k == Array
  }

  /** Copy's type check: slices or arrays of one element type, or a string
      into a slice or array of bytes. */
  predicate CopyCompatible(dst: Option<RType>, src: Option<RType>) {
    || (SliceOrArray(KindOf(dst)) && SliceOrArray(KindOf(src)) && dst.value.elem == src.value.elem)
    || (SliceOrArray(KindOf(dst)) && KindOf(dst.value.elem) == Uint8 && KindOf(src) == String)
  }

  /** `buflen`: the data pointer and length of a slice, string or
      addressable array. */
  function BufLen(v: Value, h: Heap, w: WordSize): (r: Result<Buffer>)
    ensures r.Ok? <==> (ValueKind(v) == Slice || ValueKind(v) == String) || (ValueKind(v) == Array && IsIndirect(v))
    ensures ValueKind(v) == Array && !IsIndirect(v) ==> r == Err(Panic("reflect.Copy: unaddressable array value"))
    ensures !Indexable(ValueKind(v)) ==> r == Err(Panic("reflect.Copy: not slice or array or string"))
    ensures r.Ok? && ValueKind(v) == Slice ==>
              r.value == Buffer(ReadSlice(h.mem, v.word, w).data, ReadSlice(h.mem, v.word, w).len)
    ensures r.Ok? && ValueKind(v) == String ==>
              r.value == Buffer(ReadString(h.mem, v.word, w).data, ReadString(h.mem, v.word, w).len)
    ensures r.Ok? && ValueKind(v) == Array ==> r.value == Buffer(v.word, ToUnsigned(v.typ.value.len, w))
  {
    var k := ValueKind(v);
    if k == Slice then
      var hdr := ReadSlice(h.mem, v.word, w);
      Ok(Buffer(hdr.data, hdr.len))
    else if k == Array then
      if IsIndirect(v) then Ok(Buffer(v.word, ToUnsigned(v.typ.value.len, w)))
      else Err(Panic("reflect.Copy: unaddressable array value"))
    else if k == String then
      var str := ReadString(h.mem, v.word, w);
      Ok(Buffer(str.data, str.len))
    else Err(Panic("reflect.Copy: not slice or array or string"))
  }

  /** `Copy(dst, src)`, up to the sliceCopy call: the type check, then the
      two buffers. `typeName` stands for `rawType.String`. */
  function Copy(dst: Value, src: Value, h: Heap, w: WordSize, typeName: Option<RType> -> string): (r: Result<CopyCall>)
    ensures r.Ok? <==> CopyCompatible(dst.typ, src.typ)
                       && (ValueKind(dst) == Array ==> IsIndirect(dst))
                       && (ValueKind(src) == Array ==> IsIndirect(src))
    ensures !CopyCompatible(dst.typ, src.typ) ==>
              r == Err(Panic("Copy: type mismatch: " + typeName(dst.typ) + "/" + typeName(src.typ)))
    ensures r.Ok? ==> r == Ok(CopyCall(BufLen(dst, h, w).value, BufLen(src, h, w).value, ElemSize(dst)))
  {
    if !CopyCompatible(dst.typ, src.typ) then
      Err(Panic("Copy: type mismatch: " + typeName(dst.typ) + "/" + typeName(src.typ)))
    else
      var d :- BufLen(dst, h, w);
      var s :- BufLen(src, h, w);
      Ok(CopyCall(d, s, ElemSize(dst)))
  }

  /** Once the types are compatible, buflen's kind panic cannot happen:
      the only way Copy fails after its type check is an unaddressable
      array. */
  lemma CopyFailsOnlyOnInlineArrays(dst: Value, src: Value, h: Heap, w: WordSize, typeName: Option<RType> -> string)
    requires CopyCompatible(dst.typ, src.typ) && Copy(dst, src, h, w, typeName).Err?
    ensures Copy(dst, src, h, w, typeName) == Err(Panic("reflect.Copy: unaddressable array value"))
  {
  }
}
