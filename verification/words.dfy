/**
 Machine words as the reflection layer sees them: unsigned numbers of W bytes
 (W is the size of `uintptr`, 2, 4 or 8), bitwise operators on such numbers,
 and their little-endian byte images.
 */
module Words {

  type byte = x: nat | x < 256

  /** The size of `uintptr` in bytes on the targets the runtime supports. */
  type WordSize = w: nat | w == 2 || w == 4 || w == 8 witness 8

  function Pow2(n: nat): (r: nat)
    ensures r >= 1
  {
    if n == 0 then 1 else 2 * Pow2(n - 1)
  }

  /** Largest value of a W-byte unsigned word plus one. */
  function WordLimit(w: WordSize): (r: nat)
    ensures r >= 65536
  {
    Pow2Monotone(16, 8 * w);
    Pow2Add(8, 8);
    assert Pow2(8) == 256;
    Pow2(8 * w)
  }

  /** The largest positive value of a signed W-byte integer (Go `int`). */
  function MaxInt(w: WordSize): (r: nat)
    ensures 2 * (r + 1) == WordLimit(w)
  {
    assert Pow2(8 * w) == 2 * Pow2(8 * w - 1);
    Pow2(8 * w - 1) - 1
  }

  /** A value of Go type `int` on a target whose `int` is W bytes wide. */
  predicate IsGoInt(x: int, w: WordSize) {
    -(MaxInt(w) + 1) <= x <= MaxInt(w)
  }

  /** The conversion `uintptr(x)` / `uint(x)` of a Go `int`. */
  function ToUnsigned(x: int, w: WordSize): (r: nat)
    ensures r < WordLimit(w)
    ensures 0 <= x < WordLimit(w) ==> r == x
    ensures -(WordLimit(w) as int) <= x < 0 ==> r == x + WordLimit(w)
  {
    ModWindow(x, WordLimit(w));
    x % WordLimit(w)
  }

  /** Go's `x >> k` on an unsigned word, one bit at a time: a shift by the
      width or more gives 0. */
  function ShiftRight(x: nat, k: nat): nat
  {
    if k == 0 then x else ShiftRight(x / 2, k - 1)
  }

  /** A shift by k divides by 2^k. */
  lemma {:induction false} ShiftRightIsDiv(x: nat, k: nat)
    ensures ShiftRight(x, k) == x / Pow2(k)
  {
    if k > 0 {
      ShiftRightIsDiv(x / 2, k - 1);
      DivDiv(x, 2, Pow2(k - 1));
    }
  }

  /** `n * size`, written as repeated addition so that contracts which
      mention an offset do not pull the solver into nonlinear arithmetic. */
  function Scale(n: nat, size: nat): (r: nat)
    ensures n == 0 || size == 0 ==> r == 0
  {
    if n == 0 then 0 else Scale(n - 1, size) + size
  }

  lemma {:induction false} ScaleIsProduct(n: nat, size: nat)
    ensures Scale(n, size) == n * size
  {
    if n > 0 {
      ScaleIsProduct(n - 1, size);
    }
  }

  /** `unsafe.Add` and every other sum of uintptr-sized quantities: wraps. */
  function AddWord(p: nat, off: nat, w: WordSize): (r: nat)
    ensures r < WordLimit(w)
    ensures p + off < WordLimit(w) ==> r == p + off
  {
    ModWindow(p + off, WordLimit(w));
    (p + off) % WordLimit(w)
  }

  // ---------------------------------------------------------------------
  // Arithmetic facts the rest of the model leans on.

  lemma {:induction false} Pow2Add(a: nat, b: nat)
    ensures Pow2(a + b) == Pow2(a) * Pow2(b)
    decreases a
  {
    if a > 0 {
      Pow2Add(a - 1, b);
      assert Pow2(a + b) == 2 * Pow2(a - 1 + b);
    }
  }

  lemma MulLe(a: int, b: int, c: int)
    requires a <= b && c >= 0
    ensures a * c <= b * c
  {
  }

  lemma Pow2Monotone(a: nat, b: nat)
    requires a <= b
    ensures Pow2(a) <= Pow2(b)
  {
    Pow2Add(a, b - a);
    assert Pow2(b) == Pow2(a) * Pow2(b - a);
  }

  lemma Pow2Byte(k: nat)
    ensures Pow2(8 * (k + 1)) == 256 * Pow2(8 * k)
  {
    Pow2Add(8, 8 * k);
    assert Pow2(8) == 256;
  }

  /** Division is unique: the quotient and remainder of x by d are the only
      pair (q, r) with x == q * d + r and 0 <= r < d. */
  lemma MulSign(k: int, d: int)
    requires d > 0
    ensures k * d > -d ==> k >= 0
    ensures k * d > 0 ==> k > 0
    ensures -d < k * d < d ==> k == 0
  {
  }

  lemma DivModUnique(x: int, d: int, q: int, r: int)
    requires d > 0 && 0 <= r < d && x == q * d + r
    ensures x / d == q && x % d == r
  {
    var q0, r0 := x / d, x % d;
    assert (q - q0) * d == r0 - r;
    MulSign(q - q0, d);
  }

  /** Residues modulo d of the numbers in [-d, 2d). */
  lemma ModWindow(x: int, d: int)
    requires d > 0
    ensures 0 <= x < d ==> x % d == x
    ensures -d <= x < 0 ==> x % d == x + d
    ensures d <= x < 2 * d ==> x % d == x - d
  {
    if 0 <= x < d {
      DivModUnique(x, d, 0, x);
    } else if -d <= x < 0 {
      DivModUnique(x, d, -1, x + d);
    } else if d <= x < 2 * d {
      DivModUnique(x, d, 1, x - d);
    }
  }

  lemma DivDiv(x: nat, a: nat, b: nat)
    requires a > 0 && b > 0
    ensures x / a / b == x / (a * b)
    ensures x % (a * b) == x % a + a * ((x / a) % b)
  {
    var q, r := x / a, x % a;
    var q2, r2 := q / b, q % b;
    assert x == a * q + r;
    assert q == b * q2 + r2;
    assert x == (a * b) * q2 + (a * r2 + r) by {
      assert a * q == a * (b * q2) + a * r2;
    }
    assert a * r2 <= a * (b - 1);
    DivModUnique(x, a * b, q2, a * r2 + r);
  }

  lemma MulDivCancel(x: int, d: nat)
    requires d > 0
    ensures (x * d) / d == x && (x * d) % d == 0
  {
    DivModUnique(x * d, d, x, 0);
  }

  lemma DivMulLe(x: nat, d: nat)
    requires d > 0
    ensures x / d <= x && (x / d) * d <= x
  {
    var q, r := x / d, x % d;
    assert x == q * d + r && 0 <= r;
    MulLe(1, d, q);
  }

  /** Floor division keeps a value between two multiples of d between the
      multipliers. */
  lemma DivBounds(y: int, d: int, lo: int, hi: int)
    requires d > 0 && lo * d <= y < hi * d
    ensures lo <= y / d < hi
  {
    var q, r := y / d, y % d;
    assert y == q * d + r;
    assert (q - lo) * d > -d;
    assert (hi - q) * d > 0;
    MulSign(q - lo, d);
    MulSign(hi - q, d);
  }

  // ---------------------------------------------------------------------
  // Bitwise operators on unsigned numbers, bit by bit from the low end.

  function BitAnd(a: nat, b: nat): nat
    decreases a
  {
    if a == 0 || b == 0 then 0
    else (if a % 2 == 1 && b % 2 == 1 then 1 else 0) + 2 * BitAnd(a / 2, b / 2)
  }

  function BitOr(a: nat, b: nat): nat
    decreases a
  {
    if a == 0 then b
    else if b == 0 then a
    else (if a % 2 == 1 || b % 2 == 1 then 1 else 0) + 2 * BitOr(a / 2, b / 2)
  }

  function BitXor(a: nat, b: nat): nat
    decreases a
  {
    if a == 0 then b
    else if b == 0 then a
    else (if a % 2 != b % 2 then 1 else 0) + 2 * BitXor(a / 2, b / 2)
  }

  /** Go's `a &^ b`: the bits of a that are not in b. */
  function BitClear(a: nat, b: nat): nat
    decreases a
  {
    if a == 0 then 0
    else if b == 0 then a
    else (if a % 2 == 1 && b % 2 == 0 then 1 else 0) + 2 * BitClear(a / 2, b / 2)
  }

  lemma {:induction false} BitOrCommutes(a: nat, b: nat)
    ensures BitOr(a, b) == BitOr(b, a)
    decreases a
  {
    if a != 0 && b != 0 {
      BitOrCommutes(a / 2, b / 2);
    }
  }

  /** OR-ing a number below 2^k with a multiple of 2^k is addition: the
      operands have no bit in common. */
  lemma {:induction false} BitOrDisjoint(a: nat, b: nat, k: nat)
    requires a < Pow2(k)
    ensures BitOr(a, b * Pow2(k)) == a + b * Pow2(k)
    decreases k
  {
    if k == 0 {
      assert a == 0;
    } else if a != 0 && b != 0 {
      var hi := b * Pow2(k);
      assert hi == 2 * (b * Pow2(k - 1));
      MulDivCancel(b * Pow2(k - 1), 2);
      assert hi % 2 == 0 && hi / 2 == b * Pow2(k - 1);
      BitOrDisjoint(a / 2, b, k - 1);
      assert BitOr(a, hi) == a % 2 + 2 * BitOr(a / 2, hi / 2);
    }
  }

  /** AND with a mask of n low one-bits keeps the value modulo 2^n. */
  lemma {:induction false} BitAndLowMask(x: nat, n: nat)
    ensures BitAnd(x, Pow2(n) - 1) == x % Pow2(n)
    decreases n
  {
    var d := Pow2(n);
    if n == 0 {
      DivModUnique(x, d, x, 0);
    } else if x == 0 {
      DivModUnique(x, d, 0, 0);
    } else {
      var p := Pow2(n - 1);
      var m := d - 1;
      assert d == 2 * p;
      assert m % 2 == 1 && m / 2 == p - 1;
      var lo := BitAnd(x / 2, p - 1);
      assert lo == (x / 2) % p by {
        BitAndLowMask(x / 2, n - 1);
      }
      assert BitAnd(x, m) == x % 2 + 2 * lo;
      assert x % d == x % 2 + 2 * ((x / 2) % p) by {
        DivDiv(x, 2, p);
      }
    }
  }

  /** The mask `^uintptr(0) >> ((W - size) * 8)` has exactly `size` low
      bytes set. */
  lemma WordMask(w: WordSize, size: nat)
    requires size <= w
    ensures ShiftRight(WordLimit(w) - 1, 8 * (w - size)) == Pow2(8 * size) - 1
  {
    var d := Pow2(8 * (w - size));
    ShiftRightIsDiv(WordLimit(w) - 1, 8 * (w - size));
    Pow2Add(8 * size, 8 * (w - size));
    assert WordLimit(w) == Pow2(8 * size) * d;
    assert WordLimit(w) - 1 == (Pow2(8 * size) - 1) * d + (d - 1);
    DivModUnique(WordLimit(w) - 1, d, Pow2(8 * size) - 1, d - 1);
  }

  // ---------------------------------------------------------------------
  // Little-endian byte images.

  /** The number whose little-endian image is s: s[0] is the lowest byte. */
  function LittleEndian(s: seq<byte>): nat
  {
    if |s| == 0 then 0 else s[0] + 256 * LittleEndian(s[1..])
  }

  /** The n low bytes of x, lowest first. */
  function ToBytes(x: nat, n: nat): (s: seq<byte>)
    ensures |s| == n
  {
    if n == 0 then [] else [(x % 256) as byte] + ToBytes(x / 256, n - 1)
  }

  lemma {:induction false} LittleEndianBound(s: seq<byte>)
    ensures LittleEndian(s) < Pow2(8 * |s|)
    decreases |s|
  {
    if |s| > 0 {
      LittleEndianBound(s[1..]);
      Pow2Byte(|s| - 1);
    }
  }

  /** Appending a byte adds it at the next-higher byte position. */
  lemma {:induction false} LittleEndianSnoc(s: seq<byte>, b: byte)
    ensures LittleEndian(s + [b]) == LittleEndian(s) + b * Pow2(8 * |s|)
    decreases |s|
  {
    if |s| == 0 {
      assert LittleEndian([b]) == b + 256 * LittleEndian([]);
    } else {
      var t := s[1..];
      var p := Pow2(8 * |t|);
      var lt := LittleEndian(t);
      var bp := b * p;
      assert LittleEndian(s + [b]) == s[0] + 256 * LittleEndian(t + [b]) by {
        assert (s + [b])[1..] == t + [b];
      }
      assert LittleEndian(t + [b]) == lt + bp by {
        LittleEndianSnoc(t, b);
      }
      assert b * Pow2(8 * |s|) == 256 * bp by {
        Pow2Byte(|t|);
        assert Pow2(8 * |s|) == 256 * p;
      }
    }
  }

  /** The image of x keeps x modulo 2^(8n). */
  lemma {:induction false} LittleEndianOfBytes(x: nat, n: nat)
    ensures LittleEndian(ToBytes(x, n)) == x % Pow2(8 * n)
    decreases n
  {
    if n > 0 {
      LittleEndianOfBytes(x / 256, n - 1);
      Pow2Byte(n - 1);
      DivDiv(x, 256, Pow2(8 * (n - 1)));
      assert ToBytes(x, n)[1..] == ToBytes(x / 256, n - 1);
    }
  }

  /** Round trip one way: the bytes of a number below 2^(8n) give it back. */
  lemma BytesRoundTrip(x: nat, n: nat)
    requires x < Pow2(8 * n)
    ensures LittleEndian(ToBytes(x, n)) == x
  {
    LittleEndianOfBytes(x, n);
    DivModUnique(x, Pow2(8 * n), 0, x);
  }

  /** Round trip the other way: a byte sequence is the image of its number. */
  lemma {:induction false} LittleEndianRoundTrip(s: seq<byte>)
    ensures ToBytes(LittleEndian(s), |s|) == s
    decreases |s|
  {
    if |s| > 0 {
      var x := LittleEndian(s);
      DivModUnique(x, 256, LittleEndian(s[1..]), s[0]);
      LittleEndianRoundTrip(s[1..]);
    }
  }

  lemma {:induction false} BytesPrefix(x: nat, n: nat, k: nat)
    requires k <= n
    ensures ToBytes(x, n)[..k] == ToBytes(x, k)
    decreases k
  {
    if k > 0 {
      BytesPrefix(x / 256, n - 1, k - 1);
      assert ToBytes(x, n)[..k] == [(x % 256) as byte] + ToBytes(x / 256, n - 1)[..k - 1];
    }
  }

  lemma {:induction false} BytesSuffix(x: nat, n: nat, k: nat)
    requires k <= n
    ensures ToBytes(x, n)[k..] == ToBytes(ShiftRight(x, 8 * k), n - k)
    decreases k
  {
    if k == 0 {
      assert ToBytes(x, n)[k..] == ToBytes(x, n);
    } else {
      var rest := ToBytes(x / 256, n - 1);
      assert ToBytes(x, n)[k..] == rest[k - 1..];
      BytesSuffix(x / 256, n - 1, k - 1);
      ShiftRightIsDiv(x, 8 * k);
      ShiftRightIsDiv(x / 256, 8 * (k - 1));
      ShiftByteMore(x, k);
    }
  }

  lemma ShiftByteMore(x: nat, k: nat)
    requires k > 0
    ensures x / 256 / Pow2(8 * (k - 1)) == x / Pow2(8 * k)
  {
    Pow2Byte(k - 1);
    DivDiv(x, 256, Pow2(8 * (k - 1)));
  }

  /** Bytes [off, off + size) of x, as a number, are x shifted down by off
      bytes and cut to size bytes. */
  lemma BytesWindow(x: nat, n: nat, off: nat, size: nat)
    requires off + size <= n
    ensures LittleEndian(ToBytes(x, n)[off..off + size]) == ShiftRight(x, 8 * off) % Pow2(8 * size)
  {
    BytesSuffix(x, n, off);
    BytesPrefix(ShiftRight(x, 8 * off), n - off, size);
    assert ToBytes(x, n)[off..off + size] == ToBytes(x, n)[off..][..size];
    LittleEndianOfBytes(ShiftRight(x, 8 * off), size);
  }

  /** The first k bytes of a number's image are the image of its residue. */
  lemma BytesOfResidue(x: nat, n: nat, k: nat)
    requires k <= n
    ensures ToBytes(x, n)[..k] == ToBytes(x % Pow2(8 * k), k)
  {
    BytesPrefix(x, n, k);
    LittleEndianOfBytes(x, k);
    LittleEndianRoundTrip(ToBytes(x, k));
  }

  /** All bytes of an image are zero exactly when the residue is zero. */
  lemma BytesZero(x: nat, n: nat)
    ensures (forall i :: 0 <= i < n ==> ToBytes(x, n)[i] == 0) <==> x % Pow2(8 * n) == 0
  {
    LittleEndianZero(ToBytes(x, n));
    LittleEndianOfBytes(x, n);
  }

  lemma {:induction false} LittleEndianZero(s: seq<byte>)
    ensures LittleEndian(s) == 0 <==> forall i :: 0 <= i < |s| ==> s[i] == 0
    decreases |s|
  {
    if |s| > 0 {
      LittleEndianZero(s[1..]);
      assert forall i :: 1 <= i < |s| ==> s[i] == s[1..][i - 1];
    }
  }

  // ---------------------------------------------------------------------
  // loadValue, maskAndShift and the unboxing loop of valueInterfaceUnsafe.

  /** A byte-addressed memory; bytes outside it read as zero. */
  function ReadByte(mem: seq<byte>, a: nat): byte
  {
    if 0 < a < |mem| then mem[a] else 0
  }

  function ReadBytes(mem: seq<byte>, a: nat, n: nat): (s: seq<byte>)
    ensures |s| == n
  {
    seq<byte>(n, i requires 0 <= i < n => ReadByte(mem, a + i))
  }

  lemma ReadBytesWindow(mem: seq<byte>, a: nat, n: nat, off: nat, size: nat)
    requires off + size <= n
    ensures ReadBytes(mem, a, n)[off..off + size] == ReadBytes(mem, a + off, size)
  {
  }

  /** The loop of loadValue from iteration i on: `ptr` has advanced i bytes
      past `base`, and `shift` is 8 * i. */
  function LoadLoop(mem: seq<byte>, base: nat, ptr: nat, size: nat, i: nat, loaded: nat, shift: nat, w: WordSize): (r: nat)
    requires i <= size <= w && ptr == base + i && shift == 8 * i
    requires loaded == LittleEndian(ReadBytes(mem, base, i))
    ensures r == LittleEndian(ReadBytes(mem, base, size))
    decreases size - i
  {
    if i < size then
      var next := BitOr(loaded, (ReadByte(mem, ptr) * Pow2(shift)) % WordLimit(w));
      LoadStep(mem, base, i, w);
      LoadLoop(mem, base, ptr + 1, size, i + 1, next, shift + 8, w)
    else
      loaded
  }

  /** Below the word size a shifted byte does not wrap. */
  lemma ShiftedByteFits(b: byte, i: nat, w: WordSize)
    requires i < w
    ensures b * Pow2(8 * i) < WordLimit(w)
  {
    var p := Pow2(8 * i);
    Pow2Byte(i);
    Pow2Monotone(8 * (i + 1), 8 * w);
    MulLe(b, 255, p);
    assert b * p < 256 * p == Pow2(8 * (i + 1));
  }

  lemma NoWrap(x: nat, w: WordSize)
    requires x < WordLimit(w)
    ensures x % WordLimit(w) == x
  {
    DivModUnique(x, WordLimit(w), 0, x);
  }

  /** A byte shifted above a number of i bytes ORs in as addition. */
  lemma ByteAbove(lo: nat, b: byte, i: nat, w: WordSize)
    requires i < w && lo < Pow2(8 * i)
    ensures BitOr(lo, (b * Pow2(8 * i)) % WordLimit(w)) == lo + b * Pow2(8 * i)
  {
    var p := Pow2(8 * i);
    MulLe(0, b, p);
    var hi: nat := b * p;
    ShiftedByteFits(b, i, w);
    NoWrap(hi, w);
    BitOrDisjoint(lo, b, 8 * i);
  }

  lemma LoadStep(mem: seq<byte>, base: nat, i: nat, w: WordSize)
    requires i < w
    ensures BitOr(LittleEndian(ReadBytes(mem, base, i)), (ReadByte(mem, base + i) * Pow2(8 * i)) % WordLimit(w))
         == LittleEndian(ReadBytes(mem, base, i + 1))
  {
    var s := ReadBytes(mem, base, i);
    var b := ReadByte(mem, base + i);
    var lo := LittleEndian(s);
    var hi := b * Pow2(8 * i);
    LittleEndianBound(s);
    ByteAbove(lo, b, i, w);
    assert LittleEndian(ReadBytes(mem, base, i + 1)) == lo + hi by {
      assert ReadBytes(mem, base, i + 1) == s + [b];
      LittleEndianSnoc(s, b);
    }
  }

  /** `loadValue(ptr, size)`: gathers size bytes, lowest address first. */
  function LoadValue(mem: seq<byte>, ptr: nat, size: nat, w: WordSize): (r: nat)
    requires size <= w
    ensures r < Pow2(8 * size)
  {
    LittleEndianBound(ReadBytes(mem, ptr, size));
    LoadLoop(mem, ptr, ptr, size, 0, 0, 0, w)
  }

  /** loadValue reads the little-endian number the size bytes at ptr spell. */
  lemma LoadValueReads(mem: seq<byte>, ptr: nat, size: nat, w: WordSize)
    requires size <= w
    ensures LoadValue(mem, ptr, size, w) == LittleEndian(ReadBytes(mem, ptr, size))
  {
  }

  /** The descending loop in valueInterfaceUnsafe, `value = value<<8 | byte[j-1]`
      while j counts down from size to 1. */
  function UnboxLoop(mem: seq<byte>, ptr: nat, size: nat, j: nat, value: nat, w: WordSize): (r: nat)
    requires j <= size <= w
    requires value == LittleEndian(ReadBytes(mem, ptr + j, size - j))
    ensures r == LittleEndian(ReadBytes(mem, ptr, size))
    decreases j
  {
    if j != 0 then
      var next := BitOr((value * 256) % WordLimit(w), ReadByte(mem, ptr + j - 1));
      UnboxStep(mem, ptr + j - 1, size - j, w);
      UnboxLoop(mem, ptr, size, j - 1, next, w)
    else
      value
  }

  lemma UnboxStep(mem: seq<byte>, base: nat, n: nat, w: WordSize)
    requires n < w
    ensures BitOr((LittleEndian(ReadBytes(mem, base + 1, n)) * 256) % WordLimit(w), ReadByte(mem, base))
         == LittleEndian(ReadBytes(mem, base, n + 1))
  {
    var t := ReadBytes(mem, base + 1, n);
    var v := LittleEndian(t);
    var b := ReadByte(mem, base);
    var hi := v * 256;
    LittleEndianBound(t);
    ShiftUpByte(v, n, w);
    assert BitOr(hi, b) == b + hi by {
      assert Pow2(8) == 256;
      BitOrDisjoint(b, v, 8);
      BitOrCommutes(b, hi);
    }
    assert LittleEndian(ReadBytes(mem, base, n + 1)) == b + hi by {
      var s := ReadBytes(mem, base, n + 1);
      assert s[1..] == t;
    }
  }

  /** Shifting a number of n < W bytes up by one byte stays inside the word. */
  lemma ShiftUpByte(v: nat, n: nat, w: WordSize)
    requires n < w && v < Pow2(8 * n)
    ensures (v * 256) % WordLimit(w) == v * 256
  {
    Pow2Byte(n);
    Pow2Monotone(8 * (n + 1), 8 * w);
    NoWrap(v * 256, w);
  }

  /** The unboxing loop of valueInterfaceUnsafe; it agrees with loadValue. */
  function Unbox(mem: seq<byte>, ptr: nat, size: nat, w: WordSize): (r: nat)
    requires size <= w
    ensures r == LoadValue(mem, ptr, size, w)
  {
    assert ReadBytes(mem, ptr + size, size - size) == [];
    LoadValueReads(mem, ptr, size, w);
    UnboxLoop(mem, ptr, size, size, 0, w)
  }

  lemma WindowIfInside(value: nat, offset: nat, size: nat, w: WordSize)
    ensures value < WordLimit(w) && offset + size <= w ==>
              LittleEndian(ToBytes(value, w)[offset..offset + size])
              == ShiftRight(value, (offset * 8) % WordLimit(w)) % Pow2(8 * size)
  {
    if value < WordLimit(w) && offset + size <= w {
      NoWrap(offset * 8, w);
      BytesWindow(value, w, offset, size);
    }
  }

  /** `maskAndShift(value, offset, size)`; the shift count `offset * 8` is
      itself a uintptr and wraps. */
  function MaskAndShift(value: nat, offset: nat, size: nat, w: WordSize): (r: nat)
    requires size <= w
    ensures r < Pow2(8 * size)
  {
    var shifted := ShiftRight(value, (offset * 8) % WordLimit(w));
    var mask := ShiftRight(WordLimit(w) - 1, 8 * (w - size));
    WordMask(w, size);
    BitAndLowMask(shifted, 8 * size);
    BitAnd(shifted, mask)
  }

  /** Inside the word, maskAndShift cuts out the bytes offset..offset+size. */
  lemma MaskAndShiftWindow(value: nat, offset: nat, size: nat, w: WordSize)
    requires size <= w && value < WordLimit(w) && offset + size <= w
    ensures MaskAndShift(value, offset, size, w) == LittleEndian(ToBytes(value, w)[offset..offset + size])
  {
    var shifted := ShiftRight(value, (offset * 8) % WordLimit(w));
    WordMask(w, size);
    BitAndLowMask(shifted, 8 * size);
    WindowIfInside(value, offset, size, w);
  }
}
