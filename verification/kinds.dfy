/** The kinds of Go types, and the groups of kinds the reflection layer
    switches on. */
module Kinds {

  /** `reflect.Kind`; `Invalid` is the zero kind, the kind of the zero Value. */
  datatype Kind =
    | Invalid
    | Bool
    | Int | Int8 | Int16 | Int32 | Int64
    | Uint | Uint8 | Uint16 | Uint32 | Uint64 | Uintptr
    | Float32 | Float64 | Complex64 | Complex128
    | String | UnsafePointer | Chan | Interface | Pointer | Slice | Array | Func | Map | Struct

  predicate IsSignedInt(k: Kind) {
    k == Int || k == Int8 || k == Int16 || k == Int32 || k == Int64
  }

  predicate IsUnsignedInt(k: Kind) {
    k == Uint || k == Uintptr || k == Uint8 || k == Uint16 || k == Uint32 || k == Uint64
  }

  predicate IsFloatOrComplex(k: Kind) {
    k == Float32 || k == Float64 || k == Complex64 || k == Complex128
  }

  /** The kinds whose zero value is nil, as IsZero groups them. */
  predicate IsNillable(k: Kind) {
    k == Chan || k == Func || k == Interface || k == Map || k == Pointer || k == Slice || k == UnsafePointer
  }
}
