/** Moving from a Value to the values inside it (struct fields, array,
    slice and string elements, pointees, interface contents) and back to
    its address, with the flag bookkeeping each step does. */
module Access {
  import opened Words
  import opened Kinds
  import opened Errors
  import opened Types
  import opened Flags
  import opened Memory
  import opened Values

  function StructOf(v: Value): RType
    requires ValueKind(v) == Struct
  {
    v.typ.value
  }

  /** `Value.Field(i)`. Out-of-range indexes are refused by the descriptor's
      `rawField`. */
  function Field(v: Value, h: Heap, i: int, w: WordSize): (r: Result<Value>)
    ensures r.Ok? <==> ValueKind(v) == Struct && 0 <= i < |StructOf(v).fields|
    ensures ValueKind(v) != Struct ==> r == Fail("Field", ValueKind(v))
    ensures ValueKind(v) == Struct && r.Err? ==> r.error == FieldRange
    ensures r.Ok? ==> r.value.typ == Some(StructOf(v).fields[i].typ)
    ensures r.Ok? ==> (IsExported(r.value) <==> IsExported(v) && StructOf(v).fields[i].pkgPath == "")
    ensures r.Ok? ==> (IsIndirect(r.value) <==> IsIndirect(v))
  {
    if ValueKind(v) != Struct then Fail("Field", ValueKind(v))
    else if !(0 <= i < |StructOf(v).fields|) then Err(FieldRange)
    else
      var t := StructOf(v);
      var f := t.fields[i];
      var flags := if f.pkgPath != "" then ClearExported(v.flags) else v.flags;
      if IsIndirect(v) || f.typ.size > w then
        Ok(Value(Some(f.typ), AddWord(v.word, f.offset, w), flags))
      else if f.typ.size == 0 then
        Ok(Value(Some(f.typ), 0, flags))
      else if t.size > w then
        Ok(Value(Some(f.typ), LoadValue(h.mem, AddWord(v.word, f.offset, w), f.typ.size, w), ClearIndirect(flags)))
      else
        Ok(Value(Some(f.typ), MaskAndShift(v.word, f.offset, f.typ.size, w), flags))
  }

  /** Three ways a value inside another is held; in each, its bytes are the
      window of its parent's bytes at its offset. First: both in memory. */
  lemma WindowInMemory(v: Value, h: Heap, r: Value, off: nat, w: WordSize)
    requires v.typ.Some? && r.typ.Some? && off + r.typ.value.size <= v.typ.value.size
    requires InMemory(v, w) && InMemory(r, w) && r.word == v.word + off
    ensures Contents(r, h, w) == Contents(v, h, w)[off..off + r.typ.value.size]
  {
    ReadBytesWindow(h.mem, v.word, v.typ.value.size, off, r.typ.value.size);
  }

  /** Second: the parent in memory, the part loaded into its payload word. */
  lemma WindowLoaded(v: Value, h: Heap, r: Value, off: nat, w: WordSize)
    requires v.typ.Some? && r.typ.Some? && off + r.typ.value.size <= v.typ.value.size
    requires InMemory(v, w) && !InMemory(r, w)
    requires r.typ.value.size <= w && r.word == LoadValue(h.mem, v.word + off, r.typ.value.size, w)
    ensures Contents(r, h, w) == Contents(v, h, w)[off..off + r.typ.value.size]
  {
    LoadValueReads(h.mem, v.word + off, r.typ.value.size, w);
    ReadBytesWindow(h.mem, v.word, v.typ.value.size, off, r.typ.value.size);
    LittleEndianRoundTrip(ReadBytes(h.mem, v.word + off, r.typ.value.size));
  }

  /** Third: both held in their payload words. */
  lemma WindowMasked(v: Value, h: Heap, r: Value, off: nat, w: WordSize)
    requires v.typ.Some? && r.typ.Some? && off + r.typ.value.size <= v.typ.value.size
    requires !InMemory(v, w) && !InMemory(r, w) && v.word < WordLimit(w)
    requires r.word == MaskAndShift(v.word, off, r.typ.value.size, w)
    ensures Contents(r, h, w) == Contents(v, h, w)[off..off + r.typ.value.size]
  {
    var n := v.typ.value.size;
    var k := r.typ.value.size;
    var bs := ToBytes(v.word, w);
    var win := bs[off..off + k];
    assert r.word == LittleEndian(win) by {
      MaskAndShiftWindow(v.word, off, k, w);
    }
    assert Contents(r, h, w) == win by {
      LittleEndianRoundTrip(win);
    }
    assert Contents(v, h, w)[off..off + k] == win by {
      BytesPrefix(v.word, w, n);
      assert ToBytes(v.word, n)[off..off + k] == bs[..n][off..off + k];
    }
  }

  /** A field's bytes are the parent struct's bytes at the field's offset. */
  lemma FieldContents(v: Value, h: Heap, i: int, w: WordSize)
    requires ValueKind(v) == Struct && WordSound(v, w)
    requires 0 <= i < |StructOf(v).fields|
    requires StructOf(v).fields[i].offset + StructOf(v).fields[i].typ.size <= StructOf(v).size
    ensures Field(v, h, i, w).Ok?
    ensures var f := StructOf(v).fields[i];
            Contents(Field(v, h, i, w).value, h, w) == Contents(v, h, w)[f.offset..f.offset + f.typ.size]
  {
    var f := StructOf(v).fields[i];
    if IsIndirect(v) || f.typ.size > w || f.typ.size == 0 {
      FieldContentsAddressed(v, h, i, w);
    } else if StructOf(v).size > w {
      FieldContentsLoaded(v, h, i, w);
    } else {
      FieldContentsMasked(v, h, i, w);
    }
  }

  /** FieldContents for a field that stays in memory, or has no bytes. */
  lemma FieldContentsAddressed(v: Value, h: Heap, i: int, w: WordSize)
    requires ValueKind(v) == Struct && WordSound(v, w)
    requires 0 <= i < |StructOf(v).fields|
    requires StructOf(v).fields[i].offset + StructOf(v).fields[i].typ.size <= StructOf(v).size
    requires var sz := StructOf(v).fields[i].typ.size; IsIndirect(v) || sz > w || sz == 0
    ensures Field(v, h, i, w).Ok?
    ensures var f := StructOf(v).fields[i];
            Contents(Field(v, h, i, w).value, h, w) == Contents(v, h, w)[f.offset..f.offset + f.typ.size]
  {
    var t := StructOf(v);
    var f := t.fields[i];
    var flags := if f.pkgPath != "" then ClearExported(v.flags) else v.flags;
    assert HasIndirect(flags) == IsIndirect(v);
    var window := Contents(v, h, w)[f.offset..f.offset + f.typ.size];
    if IsIndirect(v) || f.typ.size > w {
      var r := Value(Some(f.typ), AddWord(v.word, f.offset, w), flags);
      assert Field(v, h, i, w) == Ok(r);
      assert Contents(r, h, w) == window by {
        assert AddWord(v.word, f.offset, w) == v.word + f.offset;
        WindowInMemory(v, h, r, f.offset, w);
      }
    } else {
      var r := Value(Some(f.typ), 0, flags);
      assert Field(v, h, i, w) == Ok(r);
      assert Contents(r, h, w) == window by {
        assert |Contents(r, h, w)| == 0;
      }
    }
  }

  /** FieldContents for a small field of a direct struct held in memory:
      the field is loaded into its own payload word. */
  lemma FieldContentsLoaded(v: Value, h: Heap, i: int, w: WordSize)
    requires ValueKind(v) == Struct && WordSound(v, w) && !IsIndirect(v) && StructOf(v).size > w
    requires 0 <= i < |StructOf(v).fields|
    requires StructOf(v).fields[i].offset + StructOf(v).fields[i].typ.size <= StructOf(v).size
    requires 0 < StructOf(v).fields[i].typ.size <= w
    ensures Field(v, h, i, w).Ok?
    ensures var f := StructOf(v).fields[i];
            Contents(Field(v, h, i, w).value, h, w) == Contents(v, h, w)[f.offset..f.offset + f.typ.size]
  {
    var t := StructOf(v);
    var f := t.fields[i];
    var flags := if f.pkgPath != "" then ClearExported(v.flags) else v.flags;
    var a := v.word + f.offset;
    var r := Value(Some(f.typ), LoadValue(h.mem, a, f.typ.size, w), ClearIndirect(flags));
    assert AddWord(v.word, f.offset, w) == a;
    assert Field(v, h, i, w) == Ok(r);
    assert !InMemory(r, w) by {
      assert !IsIndirect(r);
    }
    WindowLoaded(v, h, r, f.offset, w);
  }

  /** FieldContents for a field of a struct that fits a word: the field is
      cut from the struct's payload word. */
  lemma FieldContentsMasked(v: Value, h: Heap, i: int, w: WordSize)
    requires ValueKind(v) == Struct && WordSound(v, w) && !IsIndirect(v) && StructOf(v).size <= w
    requires 0 <= i < |StructOf(v).fields|
    requires StructOf(v).fields[i].offset + StructOf(v).fields[i].typ.size <= StructOf(v).size
    requires 0 < StructOf(v).fields[i].typ.size
    ensures Field(v, h, i, w).Ok?
    ensures var f := StructOf(v).fields[i];
            Contents(Field(v, h, i, w).value, h, w) == Contents(v, h, w)[f.offset..f.offset + f.typ.size]
  {
    var t := StructOf(v);
    var f := t.fields[i];
    var flags := if f.pkgPath != "" then ClearExported(v.flags) else v.flags;
    assert HasIndirect(flags) == IsIndirect(v);
    var r := Value(Some(f.typ), MaskAndShift(v.word, f.offset, f.typ.size, w), flags);
    assert Field(v, h, i, w) == Ok(r);
    WindowMasked(v, h, r, f.offset, w);
  }

  // ---------------------------------------------------------------------
  // Index.

  /** The array branch of `Value.Index`, for any index. */
  function ArrayElement(v: Value, h: Heap, i: int, w: WordSize): (e: Value)
    requires ValueKind(v) == Array
    ensures e.typ == v.typ.value.elem && e.flags == v.flags
  {
    ArrayElementAt(v, h, (SizeOf(v.typ.value.elem) * ToUnsigned(i, w)) % WordLimit(w), w)
  }

  /** The element at byte offset `off` (the uintptr `elemSize*uintptr(i)`). */
  function ArrayElementAt(v: Value, h: Heap, off: nat, w: WordSize): (e: Value)
    requires ValueKind(v) == Array
    ensures e.typ == v.typ.value.elem && e.flags == v.flags
  {
    var t := v.typ.value;
    var es := SizeOf(t.elem);
    if t.size == 0 then
      Value(t.elem, 0, v.flags)
    else if es > w then
      Value(t.elem, AddWord(v.word, off, w), v.flags)
    else if t.size > w || IsIndirect(v) then
      var addr := AddWord(v.word, off, w);
      Value(t.elem, if IsIndirect(v) then addr else LoadValue(h.mem, addr, es, w), v.flags)
    else
      Value(t.elem, MaskAndShift(v.word, off, es, w), v.flags)
  }

  /** An element inside the array is the window of the array's bytes at its
      offset. */
  lemma ArrayElementWindow(v: Value, h: Heap, off: nat, w: WordSize)
    requires ValueKind(v) == Array && WordSound(v, w) && v.typ.value.elem.Some?
    requires off + v.typ.value.elem.value.size <= v.typ.value.size
    requires v.typ.value.size == 0 ==> v.typ.value.elem.value.size == 0
    ensures Contents(ArrayElementAt(v, h, off, w), h, w) == Contents(v, h, w)[off..off + v.typ.value.elem.value.size]
  {
    var t := v.typ.value;
    var es := t.elem.value.size;
    var r := ArrayElementAt(v, h, off, w);
    if t.size == 0 {
    } else if es > w {
      assert AddWord(v.word, off, w) == v.word + off;
      WindowInMemory(v, h, r, off, w);
    } else if t.size > w || IsIndirect(v) {
      assert AddWord(v.word, off, w) == v.word + off;
      if IsIndirect(v) {
        WindowInMemory(v, h, r, off, w);
      } else {
        WindowLoaded(v, h, r, off, w);
      }
    } else {
      WindowMasked(v, h, r, off, w);
    }
  }

  /** The slice and string branches of `Value.Index`. */
  function SliceElement(v: Value, h: Heap, i: int, w: WordSize): (r: Result<Value>)
    requires ValueKind(v) == Slice
    ensures r.Ok? <==> ToUnsigned(i, w) < ReadSlice(h.mem, v.word, w).len
    ensures r.Ok? ==> r.value.typ == v.typ.value.elem && IsIndirect(r.value)
                      && (IsExported(r.value) <==> IsExported(v))
    ensures r.Ok? ==> r.value.word == AddWord(ReadSlice(h.mem, v.word, w).data, Scale(ToUnsigned(i, w), SizeOf(v.typ.value.elem)), w)
  {
    var hdr := ReadSlice(h.mem, v.word, w);
    if ToUnsigned(i, w) >= hdr.len then Err(Panic("reflect: slice index out of range"))
    else
      var elem := v.typ.value.elem;
      Ok(Value(elem, AddWord(hdr.data, Scale(ToUnsigned(i, w), SizeOf(elem)), w), SetIndirect(v.flags)))
  }

  function StringElement(v: Value, h: Heap, i: int, w: WordSize): (r: Result<Value>)
    requires ValueKind(v) == String
    ensures r.Ok? <==> ToUnsigned(i, w) < ReadString(h.mem, v.word, w).len
    ensures r.Ok? ==> r.value.typ == Some(Uint8Type) && !IsIndirect(r.value)
                      && (IsExported(r.value) <==> IsExported(v))
                      && r.value.word == ReadByte(h.mem, AddWord(ReadString(h.mem, v.word, w).data, ToUnsigned(i, w), w))
  {
    var s := ReadString(h.mem, v.word, w);
    if ToUnsigned(i, w) >= s.len then Err(Panic("reflect: string index out of range"))
    else Ok(Value(Some(Uint8Type), ReadByte(h.mem, AddWord(s.data, ToUnsigned(i, w), w)), KeepExported(v.flags)))
  }

  /** `Value.Index` as the source has it: the array branch takes any index,
      in range or not. */
  function IndexAsWritten(v: Value, h: Heap, i: int, w: WordSize): (r: Result<Value>)
    ensures ValueKind(v) == Array ==> r.Ok?
    ensures !Indexable(ValueKind(v)) ==> r == Fail("Index", ValueKind(v))
  {
    if ValueKind(v) == Slice then SliceElement(v, h, i, w)
    else if ValueKind(v) == String then StringElement(v, h, i, w)
    else if ValueKind(v) == Array then Ok(ArrayElement(v, h, i, w))
    else Fail("Index", ValueKind(v))
  }

  /** The number of elements Index accepts: the header's length for slices
      and strings, the type's length for arrays. */
  function IndexBound(v: Value, h: Heap, w: WordSize): nat {
    if ValueKind(v) == Slice then ReadSlice(h.mem, v.word, w).len
    else if ValueKind(v) == String then ReadString(h.mem, v.word, w).len
    else if ValueKind(v) == Array then v.typ.value.len
    else 0
  }

  predicate Indexable(k: Kind) {
    k == Slice || k == String || k == Array
  }

  /** `Value.Index` with the bounds check the array branch lacks, as the
      slice and string branches have it. */
  function Index(v: Value, h: Heap, i: int, w: WordSize): (r: Result<Value>)
    ensures r.Ok? <==> Indexable(ValueKind(v)) && ToUnsigned(i, w) < IndexBound(v, h, w)
    ensures !Indexable(ValueKind(v)) ==> r == Fail("Index", ValueKind(v))
    ensures r.Ok? && ValueKind(v) != String ==> r.value.typ == v.typ.value.elem
    ensures r.Ok? ==> (IsExported(r.value) <==> IsExported(v))
    ensures r.Ok? && ValueKind(v) == Slice ==>
              IsIndirect(r.value)
              && r.value.word == AddWord(ReadSlice(h.mem, v.word, w).data, Scale(ToUnsigned(i, w), SizeOf(v.typ.value.elem)), w)
    ensures r.Ok? && ValueKind(v) == Array ==> r.value.flags == v.flags
    ensures r.Ok? && ValueKind(v) == String ==>
              r.value.typ == Some(Uint8Type) && !CanSet(r.value) && !CanAddr(r.value)
              && r.value.word == ReadByte(h.mem, AddWord(ReadString(h.mem, v.word, w).data, ToUnsigned(i, w), w))
  {
    if ValueKind(v) == Slice then SliceElement(v, h, i, w)
    else if ValueKind(v) == String then
      var r := StringElement(v, h, i, w);
      if r.Ok? then
        CanSetIff(r.value);
        r
      else r
    else if ValueKind(v) == Array then
      if ToUnsigned(i, w) >= v.typ.value.len then Err(Panic("reflect: array index out of range"))
      else Ok(ArrayElement(v, h, i, w))
    else Fail("Index", ValueKind(v))
  }

  /** Element i of a run of elements of es bytes each. */
  function Slot(bs: seq<byte>, es: nat, i: nat): seq<byte> {
    if es * i + es <= |bs| then bs[es * i..es * i + es] else []
  }

  /** Where element i of an array starts, and that it ends inside the array. */
  lemma ArrayOffset(i: int, len: nat, es: nat, size: nat, w: WordSize)
    requires 0 <= i < len && size == len * es && size < WordLimit(w)
    ensures es * i + es <= size
    ensures (es * ToUnsigned(i, w)) % WordLimit(w) == es * i
  {
    MulLe(i + 1, len, es);
    assert (i + 1) * es == es * i + es;
    if es > 0 {
      MulLe(1, es, i);
    }
    NoWrap(es * i, w);
  }

  lemma SoundSize(v: Value, w: WordSize)
    requires WordSound(v, w)
    ensures SizeOf(v.typ) < WordLimit(w)
  {
  }

  /** The bytes of an array element are the array's bytes at the element's
      offset. */
  lemma ArrayIndexContents(v: Value, h: Heap, i: int, w: WordSize)
    requires ValueKind(v) == Array && WordSound(v, w)
    requires v.typ.value.elem.Some? && v.typ.value.size == v.typ.value.len * v.typ.value.elem.value.size
    requires 0 <= i < v.typ.value.len
    ensures Index(v, h, i, w).Ok?
    ensures Contents(Index(v, h, i, w).value, h, w) == Slot(Contents(v, h, w), v.typ.value.elem.value.size, i)
  {
    var t := v.typ.value;
    var es := t.elem.value.size;
    SoundSize(v, w);
    ArrayOffset(i, t.len, es, t.size, w);
    var off := es * i;
    assert t.size == 0 ==> es == 0 || t.len == 0;
    var whole := Contents(v, h, w);
    assert Slot(whole, es, i) == whole[off..off + es];
    assert Index(v, h, i, w) == Ok(ArrayElementAt(v, h, off, w));
    ArrayElementWindow(v, h, off, w);
  }

  /** Apart from the array bounds check, Index is the source's Index. */
  lemma IndexAgrees(v: Value, h: Heap, i: int, w: WordSize)
    requires ValueKind(v) != Array || ToUnsigned(i, w) < v.typ.value.len
    ensures Index(v, h, i, w) == IndexAsWritten(v, h, i, w)
  {
  }

  /** `[1]uint8`, used to show the missing bounds check. */
  const OneByteArray: RType := RType(Array, 1, Some(Uint8Type), None, 1, [], true, "")

  /** The source's Index hands out element 1 of a one-element array held
      in memory at address 1 (and element -1) instead of panicking: element
      1 is a settable uint8 at address 2, the byte past the array. The
      corrected Index refuses both. */
  lemma IndexAsWrittenOutOfRange()
    ensures var v := Value(Some(OneByteArray), 1, SetIndirect(JustExported));
            var h := Heap([0, 7, 9], map[], map[], map[]);
            && Tidy(v, 8) && Contents(v, h, 8) == [7]
            && IndexAsWritten(v, h, 1, 8) == Ok(Value(Some(Uint8Type), 2, v.flags))
            && CanSet(IndexAsWritten(v, h, 1, 8).value)
            && Contents(IndexAsWritten(v, h, 1, 8).value, h, 8) == [9]
            && IndexAsWritten(v, h, -1, 8).Ok?
            && Index(v, h, 1, 8) == Err(Panic("reflect: array index out of range"))
            && Index(v, h, -1, 8) == Err(Panic("reflect: array index out of range"))
  {
    var v := Value(Some(OneByteArray), 1, SetIndirect(JustExported));
    var h := Heap([0, 7, 9], map[], map[], map[]);
    JustExportedBits();
    assert ReadBytes(h.mem, 1, 1) == [7];
    assert IndexAsWritten(v, h, 1, 8) == Ok(Value(Some(Uint8Type), 2, v.flags)) by {
      assert ToUnsigned(1, 8) == 1;
      NoWrap(1, 8);
      NoWrap(2, 8);
      assert ArrayElement(v, h, 1, 8) == ArrayElementAt(v, h, 1, 8);
    }
    CanSetIff(IndexAsWritten(v, h, 1, 8).value);
    assert ReadBytes(h.mem, 2, 1) == [9];
    assert ToUnsigned(-1, 8) >= 1;
  }

  // ---------------------------------------------------------------------
  // Pointers and interfaces.

  /** `Value.Elem`: the pointee of a non-nil pointer (addressable), or the
      value inside an interface (not addressable). */
  function Elem(v: Value, h: Heap, w: WordSize): (r: Result<Value>)
    ensures r.Ok? <==> ValueKind(v) == Pointer || ValueKind(v) == Interface
    ensures r.Err? ==> r.error == KindError(ValueError("Elem", ValueKind(v)))
    ensures r.Ok? && ValueKind(v) == Pointer && PointerOf(v, h, w) == 0 ==> r.value == ZeroValue
    ensures r.Ok? && ValueKind(v) == Pointer && PointerOf(v, h, w) != 0 ==>
              && r.value.typ == v.typ.value.elem && r.value.word == PointerOf(v, h, w)
              && IsIndirect(r.value) && (IsExported(r.value) <==> IsExported(v))
    ensures r.Ok? && ValueKind(v) == Interface ==>
              && Iface(r.value.typ, r.value.word) == ReadIface(h, v.word, w)
              && !IsIndirect(r.value) && (IsExported(r.value) <==> IsExported(v))
  {
    if ValueKind(v) == Pointer then
      var p := PointerOf(v, h, w);
      if p == 0 then Ok(ZeroValue)
      else Ok(Value(v.typ.value.elem, p, SetIndirect(v.flags)))
    else if ValueKind(v) == Interface then
      var i := ReadIface(h, v.word, w);
      Ok(Value(i.typ, i.word, ClearIndirect(v.flags)))
    else Fail("Elem", ValueKind(v))
  }

  /** `Value.Addr`: a pointer to an addressable value. The nil descriptor is
      left nil. */
  function Addr(v: Value, w: WordSize): (r: Result<Value>)
    ensures r.Ok? <==> CanAddr(v)
    ensures r.Err? ==> r.error == Panic("reflect.Value.Addr of unaddressable value")
    ensures r.Ok? ==> && r.value.word == v.word && !IsIndirect(r.value)
                      && (IsExported(r.value) <==> IsExported(v))
                      && (v.typ.Some? ==> r.value.typ == Some(PointerTo(v.typ.value, w)))
  {
    CanSetIff(v);
    if !CanAddr(v) then Err(Panic("reflect.Value.Addr of unaddressable value"))
    else Ok(Value(if v.typ.Some? then Some(PointerTo(v.typ.value, w)) else None, v.word, ToggleIndirect(v.flags)))
  }

  /** Taking the address of a value and following it gives the value back. */
  lemma ElemOfAddr(v: Value, h: Heap, w: WordSize)
    requires CanAddr(v) && v.typ.Some? && v.word != 0
    ensures Addr(v, w).Ok? && Elem(Addr(v, w).value, h, w) == Ok(v)
  {
    CanSetIff(v);
    var p := Addr(v, w).value;
    assert ValueKind(p) == Pointer && !IsIndirect(p);
    var e := Elem(p, h, w).value;
    FlagsEqual(e.flags, v.flags);
  }

  /** `Value.IsNil`. */
  function IsNil(v: Value, h: Heap, w: WordSize): (r: Result<bool>)
    ensures r.Ok? <==> IsNillable(ValueKind(v))
    ensures r.Err? ==> r.error == KindError(ValueError("IsNil", ValueKind(v)))
  {
    var k := ValueKind(v);
    if k == Chan || k == Map || k == Pointer || k == UnsafePointer then Ok(PointerOf(v, h, w) == 0)
    else if k == Func then Ok(v.word == 0 || ReadWord(h.mem, v.word + w, w) == 0)
    else if k == Slice then Ok(v.word == 0 || ReadSlice(h.mem, v.word, w).data == 0)
    else if k == Interface then Ok(ReadWord(h.mem, v.word, w) == 0)
    else Fail("IsNil", k)
  }

  /** `Value.UnsafePointer`: the pointer held by a pointer-like value, the
      data pointer of a slice, the context (else the code) of a func. */
  function UnsafePointerOf(v: Value, h: Heap, w: WordSize): (r: Result<nat>)
    ensures r.Ok? <==> (ValueKind(v) == Chan || ValueKind(v) == Map || ValueKind(v) == Pointer || ValueKind(v) == UnsafePointer || ValueKind(v) == Slice || ValueKind(v) == Func)
    ensures r.Err? ==> r.error == KindError(ValueError("UnsafePointer", ValueKind(v)))
    ensures r.Ok? && (ValueKind(v) == Chan || ValueKind(v) == Map || ValueKind(v) == Pointer || ValueKind(v) == UnsafePointer) ==> r.value == PointerOf(v, h, w)
    ensures r.Ok? && ValueKind(v) == Slice ==> r.value == ReadSlice(h.mem, v.word, w).data
    ensures r.Ok? && ValueKind(v) == Func ==>
              r.value == (if ReadWord(h.mem, v.word, w) != 0 then ReadWord(h.mem, v.word, w) else ReadWord(h.mem, v.word + w, w))
  {
    var k := ValueKind(v);
    if k == Chan || k == Map || k == Pointer || k == UnsafePointer then Ok(PointerOf(v, h, w))
    else if k == Slice then Ok(ReadSlice(h.mem, v.word, w).data)
    else if k == Func then
      var context := ReadWord(h.mem, v.word, w);
      Ok(if context != 0 then context else ReadWord(h.mem, v.word + w, w))
    else Fail("UnsafePointer", k)
  }

  /** A zero `UnsafePointer` means `IsNil`. The converse holds for the
      pointer-like kinds and for a slice whose header address is not nil;
      a func is nil when its code is, whatever its context, so a nil func
      can still have a non-zero `UnsafePointer` (UnsafePointerOfNilFunc). */
  lemma UnsafePointerNil(v: Value, h: Heap, w: WordSize)
    requires UnsafePointerOf(v, h, w).Ok?
    ensures UnsafePointerOf(v, h, w) == Ok(0) ==> IsNil(v, h, w) == Ok(true)
    ensures ValueKind(v) != Func && (ValueKind(v) == Slice ==> v.word != 0) ==>
              (IsNil(v, h, w) == Ok(true) ==> UnsafePointerOf(v, h, w) == Ok(0))
  {
  }

  /** A func type of a 64-bit target, for the example below. */
  const FuncType: RType := RType(Func, 8, None, None, 0, [], false, "")

  /** A func whose code is nil but whose context is not: `IsNil` says true,
      and `UnsafePointer` returns the non-zero context. */
  lemma UnsafePointerOfNilFunc()
    ensures var v := Value(Some(FuncType), 1, JustExported);
            var h := Heap([0, 5, 0, 0, 0, 0, 0, 0, 0], map[], map[], map[]);
            IsNil(v, h, 8) == Ok(true) && UnsafePointerOf(v, h, 8).Ok? && UnsafePointerOf(v, h, 8).value != 0
  {
    var h := Heap([0, 5, 0, 0, 0, 0, 0, 0, 0], map[], map[], map[]);
    var context := ReadBytes(h.mem, 1, 8);
    assert context[0] == ReadByte(h.mem, 1) == 5;
    LittleEndianZero(context);
    var code := ReadBytes(h.mem, 9, 8);
    forall i | 0 <= i < 8
      ensures code[i] == 0
    {
      assert code[i] == ReadByte(h.mem, 9 + i);
    }
    LittleEndianZero(code);
  }

  // ---------------------------------------------------------------------
  // Lengths.

  /** `maplen`: the number of entries of the map at p; nil has none. */
  function MapLen(h: Heap, p: nat): nat {
    if p in h.maps then |h.maps[p].entries| else 0
  }

  /** `chanlen` and `chancap`: nil channels have length and capacity 0. */
  function ChanOf(h: Heap, p: nat): ChanState {
    if p in h.chans then h.chans[p] else ChanState(0, 0)
  }

  /** `Value.Len`. */
  function Len(v: Value, h: Heap, w: WordSize): (r: Result<int>)
    ensures r.Ok? <==> (ValueKind(v) == Array || ValueKind(v) == Chan || ValueKind(v) == Map || ValueKind(v) == Slice || ValueKind(v) == String)
    ensures r.Err? ==> r.error == KindError(ValueError("Len", ValueKind(v)))
  {
    var k := ValueKind(v);
    if k == Array then Ok(v.typ.value.len)
    else if k == Chan then Ok(ChanOf(h, PointerOf(v, h, w)).len)
    else if k == Map then Ok(MapLen(h, PointerOf(v, h, w)))
    else if k == Slice then Ok(GoInt(ReadSlice(h.mem, v.word, w).len, w))
    else if k == String then Ok(GoInt(ReadString(h.mem, v.word, w).len, w))
    else Fail("Len", k)
  }

  /** `Value.Cap`. */
  function Cap(v: Value, h: Heap, w: WordSize): (r: Result<int>)
    ensures r.Ok? <==> (ValueKind(v) == Array || ValueKind(v) == Chan || ValueKind(v) == Slice)
    ensures r.Err? ==> r.error == KindError(ValueError("Cap", ValueKind(v)))
    ensures r.Ok? && ValueKind(v) == Array ==> r.value == v.typ.value.len
    ensures r.Ok? && ValueKind(v) == Slice ==> r.value == GoInt(ReadSlice(h.mem, v.word, w).cap, w)
  {
    var k := ValueKind(v);
    if k == Array then Ok(v.typ.value.len)
    else if k == Chan then Ok(ChanOf(h, PointerOf(v, h, w)).cap)
    else if k == Slice then Ok(GoInt(ReadSlice(h.mem, v.word, w).cap, w))
    else Fail("Cap", k)
  }

  /** `Value.Bytes`: the header of a `[]byte`, or a header over an
      addressable byte array. */
  function Bytes(v: Value, h: Heap, w: WordSize): (r: Result<SliceHeader>)
    ensures r.Ok? <==> && (ValueKind(v) == Slice || (ValueKind(v) == Array && IsIndirect(v)))
                       && KindOf(v.typ.value.elem) == Uint8
    ensures ValueKind(v) == Array && !IsIndirect(v) ==> r == Err(Panic("reflect: value is not addressable"))
    ensures r.Ok? && ValueKind(v) == Slice ==> r.value == ReadSlice(h.mem, v.word, w)
    ensures r.Ok? && ValueKind(v) == Array ==> r.value == SliceHeader(v.word, v.typ.value.len, v.typ.value.len)
  {
    var k := ValueKind(v);
    if k == Slice then
      if KindOf(v.typ.value.elem) != Uint8 then Fail("Bytes", k) else Ok(ReadSlice(h.mem, v.word, w))
    else if k == Array then
      if !IsIndirect(v) then Err(Panic("reflect: value is not addressable"))
      else if KindOf(v.typ.value.elem) != Uint8 then Fail("Bytes", k)
      else Ok(SliceHeader(v.word, v.typ.value.len, v.typ.value.len))
    else Fail("Bytes", k)
  }
}
