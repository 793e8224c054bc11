/** Type descriptors (`*rawType`), as far as the Value operations consult
    them: kind, size, element and key types, array length, struct fields and
    whether values of the type can be hashed as plain bytes. */
module Types {
  import opened Words
  import opened Kinds
  import opened Errors

  /** One struct field: its type, its byte offset in the struct, and the
      package path, which is empty exactly when the field is exported. */
  datatype StructField = StructField(typ: RType, offset: nat, pkgPath: string)

  /** A type descriptor. Descriptors are compared by identity in the
      runtime; here they are finite trees compared structurally, and `name`
      tells apart named types of the same shape. `binary` is the runtime's
      `isBinary` bit, taken as given. */
  datatype RType = RType(
    kind: Kind,
    size: nat,
    elem: Option<RType>,
    key: Option<RType>,
    len: nat,
    fields: seq<StructField>,
    binary: bool,
    name: string)

  /** `t.Kind()`; a nil descriptor has kind Invalid. */
  function KindOf(t: Option<RType>): Kind {
    if t.None? then Invalid else t.value.kind
  }

  /** The size the layout of the targets gives each kind whose size does
      not depend on element types; None for arrays and structs. */
  function KindSize(k: Kind, w: WordSize): Option<nat> {
    match k
    case Invalid => None
    case Array => None
    case Struct => None
    case Bool | Int8 | Uint8 => Some(1)
    case Int16 | Uint16 => Some(2)
    case Int32 | Uint32 | Float32 => Some(4)
    case Int64 | Uint64 | Float64 | Complex64 => Some(8)
    case Complex128 => Some(16)
    case Int | Uint | Uintptr | UnsafePointer | Chan | Pointer | Map => Some(w)
    case String | Interface | Func => Some(2 * w)
    case Slice => Some(3 * w)
  }

  /** The descriptor's own layout agrees with its kind. */
  predicate ShapeOk(t: RType, w: WordSize) {
    && t.kind != Invalid
    && (KindSize(t.kind, w).Some? ==> t.size == KindSize(t.kind, w).value)
    && ((t.kind == Pointer || t.kind == Slice || t.kind == Array || t.kind == Chan || t.kind == Map) <==> t.elem.Some?)
    && (t.kind == Map <==> t.key.Some?)
    && (t.kind != Struct ==> t.fields == [])
  }

  /** The sizes ShapeOk fixes, one kind group at a time. */
  lemma ShapeSizes(t: RType, w: WordSize)
    requires ShapeOk(t, w)
    ensures t.kind != Invalid
    ensures t.kind == Bool ==> t.size == 1
    ensures IsSignedInt(t.kind) || IsUnsignedInt(t.kind) || IsFloatOrComplex(t.kind) ==>
              KindSize(t.kind, w).Some? && t.size == KindSize(t.kind, w).value
    ensures t.kind == Func || t.kind == Interface || t.kind == String ==> t.size == 2 * w
    ensures t.kind == Slice ==> t.size == 3 * w
    ensures t.kind == Chan || t.kind == Map || t.kind == Pointer || t.kind == UnsafePointer ==> t.size == w
  {
  }

  /** A descriptor the compiler could have emitted for a W-byte target:
      every descriptor in it has a sound shape, arrays are their elements
      side by side, and struct fields lie inside the struct. */
  predicate WellFormed(t: RType, w: WordSize)
    decreases t, 1
  {
    && ShapeOk(t, w)
    && (t.elem.Some? ==> WellFormed(t.elem.value, w))
    && (t.key.Some? ==> WellFormed(t.key.value, w))
    && (t.kind == Array ==> t.elem.Some? && t.size == Scale(t.len, t.elem.value.size))
    && FieldsOk(t.fields, t.size, w)
  }

  /** Every field is well formed and lies inside a struct of `size` bytes. */
  predicate FieldsOk(fs: seq<StructField>, size: nat, w: WordSize)
    decreases fs, 0
  {
    |fs| > 0 ==>
      && WellFormed(fs[0].typ, w)
      && fs[0].offset + fs[0].typ.size <= size
      && FieldsOk(fs[1..], size, w)
  }

  lemma {:induction false} FieldOk(fs: seq<StructField>, size: nat, i: nat, w: WordSize)
    requires FieldsOk(fs, size, w) && i < |fs|
    ensures WellFormed(fs[i].typ, w) && fs[i].offset + fs[i].typ.size <= size
    decreases i
  {
    if i > 0 {
      FieldOk(fs[1..], size, i - 1, w);
    }
  }

  /** `pointerTo(t)`: the descriptor of `*t`. */
  function PointerTo(t: RType, w: WordSize): (p: RType)
    ensures p.kind == Pointer && p.elem == Some(t) && p.size == w
    ensures WellFormed(t, w) ==> WellFormed(p, w)
  {
    RType(Pointer, w, Some(t), None, 0, [], true, "")
  }

  /** The descriptor of `uint8`. */
  const Uint8Type: RType := RType(Uint8, 1, None, None, 0, [], true, "uint8")

  lemma Uint8TypeWellFormed(w: WordSize)
    ensures WellFormed(Uint8Type, w)
  {
  }

  /** `t.Size()`; the nil descriptor is taken to have size 0. */
  function SizeOf(t: Option<RType>): nat {
    if t.None? then 0 else t.value.size
  }

  /** An `interface{}`: a descriptor and a payload word, as
      `composeInterface` builds it and `decomposeInterface` takes it apart. */
  datatype Iface = Iface(typ: Option<RType>, word: nat)
}
