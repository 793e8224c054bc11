/** Memory as the Value operations touch it: a byte store with word loads,
    stores, a bump allocator, and the slice and string headers that live in
    it. */
module Memory {
  import opened Words

  /** `*(*uintptr)(p)`: one whole word, little-endian. */
  function ReadWord(mem: seq<byte>, a: nat, w: WordSize): (r: nat)
    ensures r < WordLimit(w)
  {
    LittleEndianBound(ReadBytes(mem, a, w));
    LittleEndian(ReadBytes(mem, a, w))
  }

  /** The word read at a is the number whose bytes are there. */
  lemma ReadWordBytes(mem: seq<byte>, a: nat, w: WordSize)
    ensures ToBytes(ReadWord(mem, a, w), w) == ReadBytes(mem, a, w)
  {
    LittleEndianRoundTrip(ReadBytes(mem, a, w));
  }

  /** A word written with the bytes of x reads back as x. */
  lemma ReadWordOfBytes(mem: seq<byte>, a: nat, x: nat, w: WordSize)
    requires x < WordLimit(w) && ReadBytes(mem, a, w) == ToBytes(x, w)
    ensures ReadWord(mem, a, w) == x
  {
    BytesRoundTrip(x, w);
  }

  /** A store of bs at address a; bytes that fall outside memory are lost. */
  function WriteBytes(mem: seq<byte>, a: nat, bs: seq<byte>): (m: seq<byte>)
    ensures |m| == |mem|
  {
    seq<byte>(|mem|, k requires 0 <= k < |mem| => if a <= k < a + |bs| then bs[k - a] else mem[k])
  }

  lemma ReadAfterWrite(mem: seq<byte>, a: nat, bs: seq<byte>)
    requires 0 < a && a + |bs| <= |mem|
    ensures ReadBytes(WriteBytes(mem, a, bs), a, |bs|) == bs
  {
    var m := WriteBytes(mem, a, bs);
    forall i | 0 <= i < |bs|
      ensures ReadBytes(m, a, |bs|)[i] == bs[i]
    {
      assert ReadBytes(m, a, |bs|)[i] == ReadByte(m, a + i);
    }
  }

  lemma ReadBesideWrite(mem: seq<byte>, a: nat, bs: seq<byte>, b: nat, n: nat)
    requires b + n <= a || a + |bs| <= b
    ensures ReadBytes(WriteBytes(mem, a, bs), b, n) == ReadBytes(mem, b, n)
  {
    var m := WriteBytes(mem, a, bs);
    forall i | 0 <= i < n
      ensures ReadBytes(m, b, n)[i] == ReadBytes(mem, b, n)[i]
    {
      assert ReadBytes(m, b, n)[i] == ReadByte(m, b + i);
      assert ReadBytes(mem, b, n)[i] == ReadByte(mem, b + i);
    }
  }

  function Zeros(n: nat): (s: seq<byte>)
    ensures |s| == n && forall i :: 0 <= i < n ==> s[i] == 0
  {
    seq<byte>(n, i => 0)
  }

  datatype Allocation = Allocation(addr: nat, mem: seq<byte>)

  /** `runtime.alloc` followed by filling the new object with bs: the
      object goes after everything allocated so far, one byte past the end
      so that its address is never nil. */
  function Alloc(mem: seq<byte>, bs: seq<byte>): (r: Allocation)
    ensures 0 < r.addr && |mem| < r.addr && r.addr + |bs| == |r.mem|
    ensures ReadBytes(r.mem, r.addr, |bs|) == bs
  {
    var m := mem + [0] + bs;
    forall i | 0 <= i < |bs|
      ensures ReadBytes(m, |mem| + 1, |bs|)[i] == bs[i]
    {
      assert ReadBytes(m, |mem| + 1, |bs|)[i] == ReadByte(m, |mem| + 1 + i);
    }
    Allocation(|mem| + 1, m)
  }

  /** Allocation leaves what was already in memory as it was. */
  lemma AllocKeeps(mem: seq<byte>, bs: seq<byte>, a: nat, n: nat)
    requires a + n <= |mem|
    ensures ReadBytes(Alloc(mem, bs).mem, a, n) == ReadBytes(mem, a, n)
  {
    var m := Alloc(mem, bs).mem;
    forall i | 0 <= i < n
      ensures ReadBytes(m, a, n)[i] == ReadBytes(mem, a, n)[i]
    {
      assert ReadBytes(m, a, n)[i] == ReadByte(m, a + i);
      assert ReadBytes(mem, a, n)[i] == ReadByte(mem, a + i);
    }
  }

  /** The word at offset off of a run of bytes that are known. */
  lemma WordOfRun(mem: seq<byte>, a: nat, bs: seq<byte>, off: nat, x: nat, w: WordSize)
    requires ReadBytes(mem, a, |bs|) == bs && off + w <= |bs|
    requires bs[off..off + w] == ToBytes(x, w) && x < WordLimit(w)
    ensures ReadWord(mem, a + off, w) == x
  {
    ReadBytesWindow(mem, a, |bs|, off, w);
    ReadWordOfBytes(mem, a + off, x, w);
  }

  // ---------------------------------------------------------------------
  // Headers: `sliceHeader{data, len, cap}` and `stringHeader{data, len}`,
  // one word per field.

  datatype SliceHeader = SliceHeader(data: nat, len: nat, cap: nat)

  datatype StringHeader = StringHeader(data: nat, len: nat)

  predicate SliceFits(h: SliceHeader, w: WordSize) {
    h.data < WordLimit(w) && h.len < WordLimit(w) && h.cap < WordLimit(w)
  }

  function ReadSlice(mem: seq<byte>, a: nat, w: WordSize): (h: SliceHeader)
    ensures SliceFits(h, w)
  {
    SliceHeader(ReadWord(mem, a, w), ReadWord(mem, a + w, w), ReadWord(mem, a + 2 * w, w))
  }

  function SliceBytes(h: SliceHeader, w: WordSize): (bs: seq<byte>)
    ensures |bs| == 3 * w
  {
    ToBytes(h.data, w) + ToBytes(h.len, w) + ToBytes(h.cap, w)
  }

  /** A header stored as its bytes reads back as itself. */
  lemma ReadSliceBytes(mem: seq<byte>, a: nat, h: SliceHeader, w: WordSize)
    requires SliceFits(h, w) && ReadBytes(mem, a, 3 * w) == SliceBytes(h, w)
    ensures ReadSlice(mem, a, w) == h
  {
    var bs := SliceBytes(h, w);
    assert ReadWord(mem, a, w) == h.data by {
      assert bs[0..w] == ToBytes(h.data, w);
      WordOfRun(mem, a, bs, 0, h.data, w);
    }
    assert ReadWord(mem, a + w, w) == h.len by {
      assert bs[w..w + w] == ToBytes(h.len, w);
      WordOfRun(mem, a, bs, w, h.len, w);
    }
    assert ReadWord(mem, a + 2 * w, w) == h.cap by {
      assert bs[2 * w..2 * w + w] == ToBytes(h.cap, w);
      WordOfRun(mem, a, bs, 2 * w, h.cap, w);
    }
  }

  predicate StringFits(h: StringHeader, w: WordSize) {
    h.data < WordLimit(w) && h.len < WordLimit(w)
  }

  function ReadString(mem: seq<byte>, a: nat, w: WordSize): (h: StringHeader)
    ensures StringFits(h, w)
  {
    StringHeader(ReadWord(mem, a, w), ReadWord(mem, a + w, w))
  }

  function StringBytes(h: StringHeader, w: WordSize): (bs: seq<byte>)
    ensures |bs| == 2 * w
  {
    ToBytes(h.data, w) + ToBytes(h.len, w)
  }

  lemma ReadStringBytes(mem: seq<byte>, a: nat, h: StringHeader, w: WordSize)
    requires StringFits(h, w) && ReadBytes(mem, a, 2 * w) == StringBytes(h, w)
    ensures ReadString(mem, a, w) == h
  {
    var bs := StringBytes(h, w);
    assert ReadWord(mem, a, w) == h.data by {
      assert bs[0..w] == ToBytes(h.data, w);
      WordOfRun(mem, a, bs, 0, h.data, w);
    }
    assert ReadWord(mem, a + w, w) == h.len by {
      assert bs[w..w + w] == ToBytes(h.len, w);
      WordOfRun(mem, a, bs, w, h.len, w);
    }
  }
}
