/** The two capability bits a reflection Value carries next to its type and
    payload word. */
module Flags {
  import opened Words

  /** A `valueFlags` value: only the two low bits are ever in use. */
  type Flags = f: nat | f < 4

  const Indirect: nat := 1   // the payload word always points at the value
  const Exported: nat := 2   // the value was reached without unexported fields

  predicate HasIndirect(f: Flags) {
    BitAnd(f, Indirect) != 0
  }

  predicate HasExported(f: Flags) {
    BitAnd(f, Exported) != 0
  }

  /** The bitwise operators, evaluated on the four flag values. */
  lemma FlagTable(f: Flags)
    ensures BitAnd(f, Indirect) == f % 2 && BitAnd(f, Exported) == f - f % 2
    ensures BitOr(f, Indirect) == f - f % 2 + 1
    ensures BitClear(f, Indirect) == f - f % 2
    ensures BitClear(f, Exported) == f % 2
    ensures BitXor(f, Indirect) == (if f % 2 == 0 then f + 1 else f - 1)
    ensures BitAnd(f, BitOr(Exported, Indirect)) == f && BitOr(Exported, Indirect) == 3
  {
    if f == 0 {
    } else if f == 1 {
    } else if f == 2 {
    } else {
      assert f == 3;
    }
  }

  /** A flag value is determined by its two bits. */
  lemma FlagsEqual(f: Flags, g: Flags)
    requires HasIndirect(f) == HasIndirect(g) && HasExported(f) == HasExported(g)
    ensures f == g
  {
    FlagTable(f);
    FlagTable(g);
  }

  /** `f | valueFlagIndirect` */
  function SetIndirect(f: Flags): (r: Flags)
    ensures HasIndirect(r) && HasExported(r) == HasExported(f)
  {
    FlagTable(f);
    var r := BitOr(f, Indirect);
    FlagTable(r);
    r
  }

  /** `f &^ valueFlagIndirect` */
  function ClearIndirect(f: Flags): (r: Flags)
    ensures !HasIndirect(r) && HasExported(r) == HasExported(f)
  {
    FlagTable(f);
    var r := BitClear(f, Indirect);
    FlagTable(r);
    r
  }

  /** `f &^ valueFlagExported` */
  function ClearExported(f: Flags): (r: Flags)
    ensures !HasExported(r) && HasIndirect(r) == HasIndirect(f)
  {
    FlagTable(f);
    var r := BitClear(f, Exported);
    FlagTable(r);
    r
  }

  /** `f ^ valueFlagIndirect` */
  function ToggleIndirect(f: Flags): (r: Flags)
    ensures HasIndirect(r) != HasIndirect(f) && HasExported(r) == HasExported(f)
  {
    FlagTable(f);
    var r := BitXor(f, Indirect);
    FlagTable(r);
    r
  }

  /** `f & valueFlagExported` */
  function KeepExported(f: Flags): (r: Flags)
    ensures !HasIndirect(r) && HasExported(r) == HasExported(f)
  {
    FlagTable(f);
    var r := BitAnd(f, Exported);
    FlagTable(r);
    r
  }

  /** The flags ValueOf, MakeSlice, Zero, New and the map constructors give. */
  const JustExported: Flags := 2

  lemma JustExportedBits()
    ensures HasExported(JustExported) && !HasIndirect(JustExported)
  {
    FlagTable(JustExported);
  }
}
