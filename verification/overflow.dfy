/** `Value.OverflowInt` and `Value.OverflowUint`: whether a 64-bit number
    survives being stored in a Value of a narrower integer type. Both shift
    the number up to the top of a 64-bit register and back down again, and
    compare the result with the original. */
module Overflow {
  import opened Words
  import opened Kinds
  import opened Errors
  import opened Values
  import opened Setters

  /** y cut to its low n bits and read as two's complement: `int64(y)` for
      n = 64. */
  function WrapSigned(y: int, n: nat): (r: int)
    requires 0 < n
    ensures -(Pow2(n - 1) as int) <= r < Pow2(n - 1)
  {
    Signed(y % Pow2(n), n)
  }

  /** The shift distance `64 - bitSize` for a type of `size` bytes. */
  function ShiftFor(size: nat): (s: nat)
    requires 1 <= size <= 8
    ensures s + 8 * size == 64
  {
    64 - 8 * size
  }

  /** `Value.OverflowInt(x)`. `x << s` wraps in int64, and `>> s` on a signed
      number is an arithmetic shift, which is floor division by 2^s. */
  function OverflowInt(v: Value, x: int): (r: Result<bool>)
    requires IsInt64(x)
    requires IsSignedInt(ValueKind(v)) ==> 1 <= v.typ.value.size <= 8
    ensures r.Ok? <==> IsSignedInt(ValueKind(v))
    ensures !IsSignedInt(ValueKind(v)) ==> r == Fail("reflect.Value.OverflowInt", ValueKind(v))
  {
    if IsSignedInt(ValueKind(v)) then
      var size := v.typ.value.size;
      var s := ShiftFor(size);
      // s + 8 * size is 64: the shifts happen in an int64
      var trunc := WrapSigned(x * Pow2(s), s + 8 * size) / Pow2(s);
      Ok(x != trunc)
    else
      Fail("reflect.Value.OverflowInt", ValueKind(v))
  }

  /** `Value.OverflowUint(x)`. `x << s` wraps in uint64, and `>> s` on an
      unsigned number is a logical shift. */
  function OverflowUint(v: Value, x: nat): (r: Result<bool>)
    requires x < 0x1_0000_0000_0000_0000
    requires IsUnsignedInt(ValueKind(v)) ==> 1 <= v.typ.value.size <= 8
    ensures r.Ok? <==> IsUnsignedInt(ValueKind(v))
    ensures !IsUnsignedInt(ValueKind(v)) ==> r == Fail("reflect.Value.OverflowUint", ValueKind(v))
  {
    if IsUnsignedInt(ValueKind(v)) then
      var size := v.typ.value.size;
      var s := ShiftFor(size);
      // s + 8 * size is 64: the shifts happen in a uint64
      var trunc := ShiftRight((x * Pow2(s)) % Pow2(s + 8 * size), s);
      Ok(x != trunc)
    else
      Fail("reflect.Value.OverflowUint", ValueKind(v))
  }

  /** Scaling by p maps residues mod B onto residues mod p * B. */
  lemma MulModScale(x: int, p: int, B: int)
    requires p > 0 && B > 0
    ensures (x * p) % (p * B) == (x % B) * p
  {
    var q, u := x / B, x % B;
    assert x * p == q * (p * B) + u * p by {
      assert x == q * B + u;
      assert x * p == (q * B + u) * p;
      assert (q * B + u) * p == q * (p * B) + u * p;
    }
    assert 0 <= u * p < p * B by {
      MulLe(u, B - 1, p);
      assert (B - 1) * p == p * B - p;
    }
    DivModUnique(x * p, p * B, q, u * p);
  }

  /** Shifting up by s bits within a register of s + b bits keeps exactly the
      low b bits of x: (x * 2^s) mod 2^(s+b) is (x mod 2^b) * 2^s. */
  lemma ShiftUpKeepsLowBits(x: int, s: nat, b: nat)
    ensures (x * Pow2(s)) % Pow2(s + b) == (x % Pow2(b)) * Pow2(s)
  {
    Pow2Add(s, b);
    MulModScale(x, Pow2(s), Pow2(b));
  }

  /** A number below h (or at least h) stays below h * p (or at least h * p)
      once scaled by p. */
  lemma ScaleCompare(u: int, h: int, p: int)
    requires p > 0
    ensures u < h <==> u * p < p * h
  {
    if u < h {
      MulLe(u, h - 1, p);
      assert (h - 1) * p == p * h - p;
    } else {
      MulLe(h, u, p);
      assert h * p == p * h;
    }
  }

  lemma SubMul(a: int, c: int, p: int)
    ensures a * p - c * p == (a - c) * p
  {
  }

  /** A field below half its range reads as itself. */
  lemma SignedLow(m: nat, n: nat)
    requires 0 < n && m < Pow2(n - 1)
    ensures m < Pow2(n) && Signed(m, n) == m
  {
    assert Pow2(n) == 2 * Pow2(n - 1);
  }

  /** A field in the upper half of its range reads as itself minus 2^n. */
  lemma SignedHigh(m: nat, n: nat)
    requires 0 < n && Pow2(n - 1) <= m < Pow2(n)
    ensures Signed(m, n) == m - Pow2(n)
  {
  }

  /** An n-bit register is an s-bit low part below a b-bit field, and the
      register's sign bit is the field's sign bit. */
  lemma RegisterSplit(s: nat, b: nat, n: nat)
    requires 0 < b && s + b == n
    ensures Pow2(n) == Pow2(s) * Pow2(b)
    ensures Pow2(n - 1) == Pow2(s) * Pow2(b - 1)
    ensures Pow2(b) == 2 * Pow2(b - 1)
  {
    Pow2Add(s, b);
    Pow2Add(s, b - 1);
  }

  /** Reading an n-bit register whose top b bits hold u as signed, then
      shifting it down arithmetically by the other s bits, gives u read as a
      signed b-bit field. */
  lemma ArithmeticShiftDown(u: nat, s: nat, b: nat, n: nat)
    requires 0 < b && s + b == n && u < Pow2(b)
    ensures u * Pow2(s) < Pow2(n)
    ensures Signed(u * Pow2(s), n) / Pow2(s) == Signed(u, b)
  {
    if u < Pow2(b - 1) {
      ShiftDownLow(u, s, b, n);
    } else {
      ShiftDownHigh(u, s, b, n);
    }
  }

  /** ArithmeticShiftDown for a field whose sign bit is clear. */
  lemma ShiftDownLow(u: nat, s: nat, b: nat, n: nat)
    requires 0 < b && s + b == n && u < Pow2(b - 1)
    ensures u * Pow2(s) < Pow2(n - 1)
    ensures Signed(u * Pow2(s), n) / Pow2(s) == u == Signed(u, b)
  {
    var p, H := Pow2(s), Pow2(b - 1);
    RegisterSplit(s, b, n);
    PositiveShiftDown(u, p, H);
    MulLe(0, u, p);
    var m: nat := u * p;
    SignedLow(m, n);
    SignedLow(u, b);
  }

  /** ArithmeticShiftDown for a field whose sign bit is set. */
  lemma ShiftDownHigh(u: nat, s: nat, b: nat, n: nat)
    requires 0 < b && s + b == n && Pow2(b - 1) <= u < Pow2(b)
    ensures Pow2(n - 1) <= u * Pow2(s) < Pow2(n)
    ensures Signed(u * Pow2(s), n) / Pow2(s) == u - Pow2(b) == Signed(u, b)
  {
    var p, B, H := Pow2(s), Pow2(b), Pow2(b - 1);
    RegisterSplit(s, b, n);
    ScaleCompare(u, B, p);
    NegativeShiftDown(u, p, H, B);
    var m: nat := u * p;
    SignedHigh(m, n);
    SignedHigh(u, b);
  }

  /** A non-negative field: its sign bit is clear before and after the shift. */
  lemma PositiveShiftDown(u: nat, p: nat, H: nat)
    requires 0 < p && u < H
    ensures u * p < p * H && (u * p) / p == u
  {
    ScaleCompare(u, H, p);
    MulDivCancel(u, p);
  }

  /** A negative field: subtracting the register's modulus and shifting down
      gives the field minus its own modulus. */
  lemma NegativeShiftDown(u: nat, p: nat, H: nat, B: nat)
    requires 0 < p && H <= u && B == 2 * H
    ensures u * p >= p * H && (u * p - p * B) / p == u - B
  {
    ScaleCompare(u, H, p);
    SubMul(u, B, p);
    MulDivCancel(u - B, p);
  }

  /** The value `trunc` OverflowInt compares x with is x cut to the type's
      width and sign-extended back. */
  lemma {:induction false} SignedTruncation(x: int, size: nat)
    requires 1 <= size <= 8
    ensures var s := ShiftFor(size);
            WrapSigned(x * Pow2(s), s + 8 * size) / Pow2(s) == Signed(x % Pow2(8 * size), 8 * size)
  {
    var s, b := ShiftFor(size), 8 * size;
    ShiftUpKeepsLowBits(x, s, b);
    ArithmeticShiftDown(x % Pow2(b), s, b, s + b);
  }

  /** The value `trunc` OverflowUint compares x with is x cut to the type's
      width. */
  lemma {:induction false} UnsignedTruncation(x: nat, size: nat)
    requires 1 <= size <= 8
    ensures var s := ShiftFor(size);
            ShiftRight((x * Pow2(s)) % Pow2(s + 8 * size), s) == x % Pow2(8 * size)
  {
    var s, b := ShiftFor(size), 8 * size;
    ShiftUpKeepsLowBits(x, s, b);
    ShiftRightIsDiv((x % Pow2(b)) * Pow2(s), s);
    MulDivCancel(x % Pow2(b), Pow2(s));
  }

  /** x survives the round trip through a signed field of the given width
      exactly when it lies in that field's range. */
  lemma SignedRoundTripIff(x: int, bits: nat)
    requires 0 < bits
    ensures Signed(x % Pow2(bits), bits) == x <==> -(Pow2(bits - 1) as int) <= x < Pow2(bits - 1)
  {
    if -(Pow2(bits - 1) as int) <= x < Pow2(bits - 1) {
      SignedOfResidue(x, bits);
    }
  }

  /** OverflowInt reports overflow exactly when x lies outside the range of
      a signed integer of the type's width. */
  lemma OverflowIntRange(v: Value, x: int)
    requires IsInt64(x) && IsSignedInt(ValueKind(v)) && 1 <= v.typ.value.size <= 8
    ensures var bits := 8 * v.typ.value.size;
            OverflowInt(v, x) == Ok(!(-(Pow2(bits - 1) as int) <= x < Pow2(bits - 1)))
  {
    var bits := 8 * v.typ.value.size;
    SignedTruncation(x, v.typ.value.size);
    SignedRoundTripIff(x, bits);
  }

  /** OverflowUint reports overflow exactly when x does not fit in an
      unsigned integer of the type's width. */
  lemma OverflowUintRange(v: Value, x: nat)
    requires x < 0x1_0000_0000_0000_0000 && IsUnsignedInt(ValueKind(v)) && 1 <= v.typ.value.size <= 8
    ensures OverflowUint(v, x) == Ok(x >= Pow2(8 * v.typ.value.size))
  {
    var bits := 8 * v.typ.value.size;
    UnsignedTruncation(x, v.typ.value.size);
    ModWindow(x, Pow2(bits));
    if x >= Pow2(bits) {
      assert x % Pow2(bits) < Pow2(bits);
    }
  }
}
