# TinyGo `reflect.Value`, modelled in Dafny

This project models the core of TinyGo's reflection package, `src/reflect/value.go`.
A `reflect.Value` there is three words: a type descriptor (`typecode`), a payload word
(`value`) and two flag bits (`valueFlagIndirect`, `valueFlagExported`). The payload word
either holds a small value inline or points at the value in memory. The model makes that
layout explicit:

- `Values.Value(typ, word, flags)`: `typ` is the descriptor (`None` for the zero Value),
  `word` the raw payload, `flags` the two-bit flag set.
- `Values.Heap`: a byte-addressed memory, a table of type descriptors reachable through
  interface type words, and the runtime's hashmaps and channels, each keyed by address.
- `Types.RType`: the descriptor as a finite tree (kind, size, element, key, length,
  struct fields with offsets and package paths, the `isBinary` bit, a name).
- Words are `W` bytes (`WordSize`: 2, 4 or 8) and little-endian. `uintptr` arithmetic
  wraps modulo 2^(8W), and `uintptr(i)` of a negative Go `int` is written out.
- Every panic of the source is an error result (`Errors.Result`): a `ValueError`
  (method name and kind), a panic with its own message, a slice-bounds panic, or a
  field index the descriptor rejects. `Errors.Message` is `(*ValueError).Error`.

The modules follow the source: `Words` (byte and word arithmetic, `loadValue`, the
unbox loop of `valueInterfaceUnsafe`, `maskAndShift`), `Flags`, `Values` (the Value,
its flag predicates, `Interface`, and the scalar readers), `Access` (`Field`, `Index`,
`Elem`, `Addr`, `IsNil`, `Len`, `Cap`, `Bytes`), `Construct` (`Zero`, `New`, `IsZero`),
`Setters` (`Set` and the typed setters), `Headers` (slice and string headers: `Slice`,
`Slice3`, `SetLen`, `MakeSlice`, `extendSlice`, `Append`, `AppendSlice`, `Copy`,
`buflen`), `Hashmaps` and `Maps` (`MakeMapWithSize`, `MakeMap`, `MapIndex`,
`SetMapIndex`), and `Overflow` (`OverflowInt`, `OverflowUint`).

`sliceGrow`, `sliceAppend`, `AssignableTo` and `Type.String` are not part of this
model: they enter the operations that call them as parameters, and so does the address
of the map `MakeMapWithSize` creates. Allocation is fixed rather than a parameter: a
fresh object is placed just past the end of the heap.

## Model

| member | source | states |
|---|---|---|
| Words.LoadLoop | src/reflect/value.go:725-734 | The loop of `loadValue`: having OR-ed in the first i bytes, each shifted by 8 per byte, it ends with the little-endian number of all `size` bytes at `ptr`. |
| Words.LoadValueReads | src/reflect/value.go:725-734 | `loadValue(ptr, size)` is the little-endian number formed by the `size` bytes at `ptr`. |
| Words.LoadValue | src/reflect/value.go:725-734 | The loaded word is below 2^(8·size), so nothing above the value's own bytes is set. |
| Words.UnboxLoop | src/reflect/value.go:79-87 | The top-down loop of `valueInterfaceUnsafe` (shift the word up a byte, OR in the next lower byte) keeps the little-endian number of the bytes read so far. |
| Words.UnboxStep | src/reflect/value.go:79-87 | One step of that loop, with the shift wrapping in a W-byte word, adds exactly one byte below the bytes already read. |
| Words.Unbox | src/reflect/value.go:79-87 | The unbox loop of `valueInterfaceUnsafe` and `loadValue` give the same word for every memory, pointer and size up to a word. |
| Words.MaskAndShift | src/reflect/value.go:737-740 | The result of `maskAndShift` is below 2^(8·size). |
| Words.MaskAndShiftWindow | src/reflect/value.go:737-740 | For an offset and size inside the word, `maskAndShift` gives the little-endian number of bytes offset..offset+size of the word's layout. |
| Words.ToUnsigned | src/reflect/value.go:421 | `uintptr(i)` is i for 0 <= i < 2^(8W) and i + 2^(8W) for a negative i. |
| Words.AddWord | src/reflect/value.go:431 | `unsafe.Add` is plain addition when the sum fits in a word, and its result always fits. |
| Flags.FlagsEqual | src/reflect/value.go:14-17 | A flag set is fixed by its two bits: two flag sets that agree on Indirect and on Exported are equal. |
| Flags.SetIndirect | src/reflect/value.go:556 | `flags \| valueFlagIndirect` sets Indirect and keeps Exported. |
| Flags.ClearIndirect | src/reflect/value.go:563 | `flags &^ valueFlagIndirect` clears Indirect and keeps Exported. |
| Flags.ClearExported | src/reflect/value.go:576-581 | `flags &^= valueFlagExported` clears Exported and keeps Indirect. |
| Flags.ToggleIndirect | src/reflect/value.go:228 | `flags ^ valueFlagIndirect` flips Indirect and keeps Exported. |
| Flags.KeepExported | src/reflect/value.go:664 | `flags & valueFlagExported` clears Indirect and keeps Exported. |
| Flags.JustExportedBits | src/reflect/value.go:57 | `valueFlagExported` alone is exported and not indirect. |
| Values.CanSetIff | src/reflect/value.go:236-238 | CanSet holds exactly when the value is both indirect and exported. It also states CanAddr as the Indirect bit and CanInterface as the Exported bit. |
| Values.ValueOf | src/reflect/value.go:52-59 | `ValueOf` keeps the interface's type and word and is exported and not indirect. |
| Values.InterfaceUnsafe | src/reflect/value.go:70-89 | A non-interface value keeps its type. An indirect value of at most a word is loaded back into the payload word. A direct value keeps its word. |
| Values.InterfaceOf | src/reflect/value.go:61-66 | `Interface` succeeds exactly on exported values and panics with "(reflect.Value).Interface: unexported" otherwise. |
| Values.InterfaceRoundTrip | src/reflect/value.go:52-89 | `ValueOf(v.Interface())` has v's type and the same bytes as v, whether v was held inline or in memory. |
| Values.BoolOf | src/reflect/value.go:240-251 | `Bool` succeeds exactly on Bool values and otherwise fails with a ValueError naming "Bool". |
| Values.BoolOfContents | src/reflect/value.go:240-251 | For a well-formed bool, `Bool()` is true exactly when the value's one byte, however it is held, is non-zero. |
| Values.IntOf | src/reflect/value.go:253-288 | `Int` succeeds exactly on the five signed kinds and otherwise fails with a ValueError naming "Int". |
| Values.IntOfBits | src/reflect/value.go:253-288 | The result lies in the signed range of the kind's width and agrees with the stored bits modulo 2^(8n). |
| Values.UintOf | src/reflect/value.go:290-331 | `Uint` succeeds exactly on the six unsigned kinds and otherwise fails with a ValueError naming "Uint". |
| Values.UintOfContents | src/reflect/value.go:290-331 | For any tidy value whose type has its kind's size, held in memory or inline, `Uint` is the little-endian number of its contents. The result always fits the kind or the word. |
| Values.PointerOf | src/reflect/value.go:201-206 | `pointer()` is the payload word of a direct value, and a word read from memory for an indirect one. |
| Values.PointerBytes | src/reflect/value.go:201-206 | For an indirect value, `pointer()` is the word whose bytes are the W bytes at the payload address. |
| Errors.Message | src/reflect/value.go:1166-1171 | The message starts "reflect: call of " and the method name, and ends " on zero Value" for the Invalid kind or " on <kind> Value" otherwise. |
| Access.Field | src/reflect/value.go:571-632 | `Field(i)` succeeds exactly on structs with i in range. The field keeps v's Indirect bit and is exported exactly when v is and the field has no package path. |
| Access.FieldContents | src/reflect/value.go:571-632 | The bytes of `Field(i)` are the struct's bytes from the field's offset, for every way the struct and the field may be held. |
| Access.FieldContentsAddressed | src/reflect/value.go:586-609 | For an indirect struct, a large field or an empty field, the field's bytes are the struct's bytes at the field's offset. |
| Access.FieldContentsLoaded | src/reflect/value.go:611-622 | For a direct struct larger than a word, the field loaded with `loadValue` has the struct's bytes at the field's offset. |
| Access.FieldContentsMasked | src/reflect/value.go:624-631 | For a struct held inline, the field cut out with `maskAndShift` has the struct's bytes at the field's offset. |
| Access.SliceElement | src/reflect/value.go:638-648 | A slice element exists exactly when `uint(i)` is below the header's length. It is indirect, has the element type, keeps Exported, and lies at `data + elemSize*uint(i)` (wrapping). |
| Access.StringElement | src/reflect/value.go:649-665 | A string element exists exactly when `uint(i)` is below the length. It is a `uint8` holding the byte at data+i, not indirect, and keeps Exported. |
| Access.IndexAsWritten | src/reflect/value.go:636-720 | `Index` as the source has it: on an array it succeeds for every index. On any other kind but slice and string it fails with a ValueError naming "Index". |
| Access.IndexAsWrittenOutOfRange | src/reflect/value.go:666-716 | On an addressable `[1]uint8` in memory, the source's `Index(1)` returns a settable uint8 at the byte past the array and `Index(-1)` succeeds; the corrected `Index` panics on both. |
| Access.Index | src/reflect/value.go:636-720 | `Index(i)` succeeds exactly on slices, strings and arrays with `uint(i)` below the length. It states each branch's element type and flags, the slice element's address, and that a string element can neither be set nor addressed. |
| Access.IndexAgrees | src/reflect/value.go:636-720 | Apart from out-of-range array indices, the corrected `Index` and the source's agree on every input. |
| Access.ArrayIndexContents | src/reflect/value.go:666-716 | The bytes of array element i are bytes es·i .. es·i+es of the array, however the array is held. |
| Access.Elem | src/reflect/value.go:546-568 | `Elem` succeeds exactly on pointers and interfaces. A nil pointer gives the zero Value. A non-nil pointer gives an indirect value at the pointer that keeps Exported. An interface gives the stored type and word, direct. |
| Access.Addr | src/reflect/value.go:220-230 | `Addr` succeeds exactly on addressable values. The result is the pointer type to v's type, with v's word, direct, and keeps Exported. |
| Access.ElemOfAddr | src/reflect/value.go:220-230 | For an addressable value at a non-nil address, `Addr(v).Elem()` is v again. |
| Access.IsNil | src/reflect/value.go:149-171 | `IsNil` succeeds exactly on the seven nillable kinds and otherwise fails with a ValueError naming "IsNil". |
| Access.UnsafePointerOf | src/reflect/value.go:181-197 | `UnsafePointer` succeeds on the pointer-like kinds, slices and funcs. It gives the pointer, the slice's data word, or a func's first non-zero word. |
| Access.UnsafePointerNil | src/reflect/value.go:147-197 | A zero `UnsafePointer` means `IsNil` is true. Conversely, a nil chan, map, pointer or unsafe pointer, or a nil slice whose header address is not nil, has a zero `UnsafePointer`. |
| Access.UnsafePointerOfNilFunc | src/reflect/value.go:153-158 | The converse fails for funcs. A func whose code word is 0 and whose context word is not is nil, yet its `UnsafePointer` (lines 188-193) is the non-zero context. |
| Access.Len | src/reflect/value.go:505-520 | `Len` succeeds exactly on arrays, channels, maps, slices and strings and otherwise fails with a ValueError naming "Len". |
| Access.Cap | src/reflect/value.go:527-538 | `Cap` succeeds exactly on arrays, channels and slices. An array's capacity is its length and a slice's is the header's cap read as an `int`. |
| Access.Bytes | src/reflect/value.go:393-415 | `Bytes` succeeds exactly on byte slices and addressable byte arrays. It gives the slice's header, or one that spans the array. An inline array panics as unaddressable. |
| Construct.Zero | src/reflect/value.go:1096-1118 | `Zero` is exported and not settable. It is inline with word 0 up to a word, points at the shared zero buffer up to 32 bytes, and otherwise points at a fresh object. |
| Construct.ZeroContents | src/reflect/value.go:1096-1118 | Every Value `Zero` returns has all-zero bytes and can neither be set nor addressed. |
| Construct.New | src/reflect/value.go:1122-1128 | `New` is an exported pointer to a fresh, zeroed object of the type's size placed past the old heap. The rest of the heap is unchanged. |
| Construct.NewElem | src/reflect/value.go:1122-1128 | `New(t).Elem()` is a settable value of type t at the new address, with all-zero bytes. |
| Construct.IsZero | src/reflect/value.go:97-133 | `IsZero` of the zero Value fails with a ValueError naming "reflect.Value.IsZero", and every failure it reports is such a ValueError. |
| Construct.LeafZero | src/reflect/value.go:97-133 | On a kind without parts, `IsZero` fails exactly for the kinds it does not list. |
| Construct.NilIsZeroIff | src/reflect/value.go:117-118 | On a well-formed nillable value, `IsZero` holds exactly when the pointer word it reads (the code word of a func, the first header word of a slice or interface, the pointer otherwise), taken from the value's bytes, is 0, or a func or slice has no header. |
| Construct.NilOfBytes | src/reflect/value.go:149-171 | `IsNil` holds on the same condition, read from the value's bytes. |
| Construct.StringIsZeroIff | src/reflect/value.go:119-120 | A string is zero exactly when the length word of its header, read from the value's bytes, is 0. |
| Construct.ZeroBytesAreZero | src/reflect/value.go:97-133 | `IsZero` returns true for every sound value of a well-formed type whose bytes are all zero. The proof recurses through array elements and struct fields. |
| Construct.ArrayIsZero | src/reflect/value.go:110-116 | An array whose bytes are all zero is zero: every element, read through `Index`, is zero. |
| Construct.StructIsZero | src/reflect/value.go:121-127 | A struct whose bytes are all zero is zero: every field, read through `Field`, is zero. |
| Construct.ElementsAreZero | src/reflect/value.go:111-116 | The array loop of `IsZero` returns true from any index when the array's bytes are all zero. |
| Construct.FieldsAreZero | src/reflect/value.go:122-127 | The struct loop of `IsZero` returns true from any field when the struct's bytes are all zero. |
| Construct.ScalarIsZero | src/reflect/value.go:99-109 | Bool, integer, float and complex values whose bytes are all zero are judged zero. |
| Construct.NilIsZero | src/reflect/value.go:149-171 | A nillable value whose bytes are all zero is nil. |
| Construct.StringIsZero | src/reflect/value.go:119-120 | A string whose header bytes are all zero has length 0 and is zero. |
| Construct.ZeroIsZero | src/reflect/value.go:1096-1118 | `Zero(t).IsZero()` is true for every well-formed type t. |
| Setters.CheckAddressable | src/reflect/value.go:1010-1014 | `checkAddressable` passes exactly on indirect values and otherwise panics with "reflect: value is not addressable". |
| Setters.Set | src/reflect/value.go:888-900 | `Set` succeeds exactly on addressable values whose type accepts x, with the source's two panic messages otherwise. Only memory changes, and its length stays the same. |
| Setters.SetThenContents | src/reflect/value.go:888-900 | After `v.Set(x)`, v's bytes are x's bytes. |
| Setters.SetFrame | src/reflect/value.go:888-900 | `Set` changes no byte outside v's own bytes. |
| Setters.SetBool | src/reflect/value.go:902-910 | `SetBool` succeeds exactly on addressable Bool values, with the source's panic otherwise. |
| Setters.SetBoolThenBool | src/reflect/value.go:902-910 | After `SetBool(x)`, `Bool()` is x. |
| Setters.SetInt | src/reflect/value.go:912-928 | `SetInt` succeeds exactly on addressable signed values and leaves everything but memory alone. |
| Setters.SetIntThenInt | src/reflect/value.go:912-928 | After `SetInt(x)`, `Int()` is x cut to the kind's width and sign-extended, which is x itself when x fits. |
| Setters.SetUint | src/reflect/value.go:930-948 | `SetUint` succeeds exactly on addressable unsigned values and leaves everything but memory alone. |
| Setters.SetUintThenUint | src/reflect/value.go:930-948 | After `SetUint(x)`, `Uint()` is x modulo 2^(8n) for the kind's width n. |
| Setters.SetString | src/reflect/value.go:974-982 | `SetString` succeeds exactly on addressable strings and leaves everything but memory alone. |
| Setters.SetStringThenString | src/reflect/value.go:974-982 | After `SetString(x)`, the string header read back is x. |
| Setters.SetBytes | src/reflect/value.go:984-992 | `SetBytes` succeeds exactly on addressable byte slices, with the source's panic messages otherwise. |
| Setters.SetBytesThenBytes | src/reflect/value.go:984-992 | After `SetBytes(x)`, `Bytes()` is x. |
| Headers.SliceRange | src/reflect/value.go:417-464 | `Slice(i, j)` succeeds on slices exactly when `uintptr(i) <= uintptr(j) <= cap` and on strings when `<= len`. The new header is data+i·elemSize, j-i and cap-i (strings: data+i, j-i), and the type and flags are unchanged. |
| Headers.SliceBoundsSigned | src/reflect/value.go:421-425 | For Go `int` arguments, the unsigned comparisons of `Slice` accept exactly 0 <= i <= j <= cap. |
| Headers.SliceLenCap | src/reflect/value.go:429-430 | After `Slice(i, j)` with 0 <= i <= j <= cap, the new header has length j-i and capacity cap-i. |
| Headers.SliceThenLenCap | src/reflect/value.go:417-432 | After `Slice(i, j)` with 0 <= i <= j <= cap, `Len` reports j-i and `Cap` reports cap-i. |
| Headers.Slice3AsWritten | src/reflect/value.go:466-495 | `Slice3` as the source has it: it succeeds exactly when i <= j <= k <= len. |
| Headers.Slice3 | src/reflect/value.go:466-495 | The corrected `Slice3` succeeds exactly when i <= j <= k <= cap. The new header is data+i·elemSize, j-i, k-i. |
| Headers.Slice3AsWrittenRejectsCapacity | src/reflect/value.go:472-474 | On a slice of length 1 and capacity 4, the source rejects `Slice3(0, 1, 3)` and the corrected `Slice3` accepts it. |
| Headers.Slice3AsWrittenSound | src/reflect/value.go:466-495 | Whatever the source's `Slice3` accepts, the corrected one accepts too, with the same result. |
| Headers.SetLen | src/reflect/value.go:998-1008 | `SetLen(n)` succeeds exactly on slices when `int(uintptr(n)) == n` and `uintptr(n) <= cap`, with the source's panics otherwise. |
| Headers.SetLenSigned | src/reflect/value.go:1004-1006 | For a Go `int` n, `SetLen` accepts exactly 0 <= n <= cap. |
| Headers.SetLenHeader | src/reflect/value.go:1007 | After `SetLen(n)`, the header is the old one with len replaced by n. |
| Headers.SetLenThenLen | src/reflect/value.go:998-1008 | After a successful `SetLen(n)`, `Len` reports n and `Cap` is unchanged. |
| Headers.MaxCap | src/reflect/value.go:1061-1065 | The capacity bound times the element size stays within the largest positive `int`. |
| Headers.MakeSlice | src/reflect/value.go:1052-1083 | `MakeSlice` succeeds exactly on slice types when `uint(len) <= uint(cap) <= maxSize`, with the source's panics otherwise. The result is exported. |
| Headers.MakeSliceSigned | src/reflect/value.go:1059-1068 | For Go `int` arguments, `MakeSlice` accepts exactly 0 <= len <= cap <= maxSize. |
| Headers.MakeSliceSize | src/reflect/value.go:1070-1071 | The allocation size cap·elemSize does not overflow. |
| Headers.MakeSliceHeader | src/reflect/value.go:1073-1081 | The new header points at cap·elemSize fresh zero bytes with the given len and cap, which `Len` and `Cap` report back. |
| Headers.MakeSliceElementsZero | src/reflect/value.go:1052-1083 | Every `Index(k)`, k < len, of a new slice is settable, has the element type, and holds zero bytes. |
| Headers.SliceElementAt | src/reflect/value.go:638-648 | Element k of an exported slice is settable and lies `elemSize*k` bytes into the backing array. |
| Headers.ExtendSlice | src/reflect/value.go:1239-1269 | `extendSlice(n)` succeeds exactly on slices. Without growth, the header keeps data and cap and adds n to len. With growth, it takes data and cap from `sliceGrow` and adds n to the grown len. |
| Headers.ExtendSliceLength | src/reflect/value.go:1252-1266 | When the room suffices, the header becomes (data, len+n, cap). When `sliceGrow` keeps the old length, the new length is len+n. |
| Headers.AppendLoop | src/reflect/value.go:1279-1281 | The `Append` loop returns the extended slice itself and succeeds only when every appended value is assignable to the element type. |
| Headers.Append | src/reflect/value.go:1273-1283 | `Append` fails with a ValueError naming "Append" on non-slices, and otherwise returns the slice `extendSlice(len(x))` built. |
| Headers.AppendSucceeds | src/reflect/value.go:1273-1283 | When the appended values fit in the slice's capacity, so that `extendSlice` does not grow it, `Append` succeeds exactly when every appended value is assignable to the element type. |
| Headers.AppendLength | src/reflect/value.go:1239-1283 | In the same no-growth case, the slice a successful `Append` returns, read from the heap it returns, has the old data pointer and capacity, and its length is the old length plus the number of appended values. |
| Headers.AppendSlice | src/reflect/value.go:1287-1311 | `AppendSlice` succeeds exactly on two exported slices of one type, with the source's two panic messages otherwise. The result is exported and holds the header `sliceAppend` returned. |
| Headers.BufLen | src/reflect/value.go:1208-1233 | `buflen` gives (data, len) of a slice or string and (address, length) of an addressable array. An inline array and any other kind panic with the source's messages. |
| Headers.Copy | src/reflect/value.go:1187-1206 | `Copy` succeeds exactly on compatible types whose arrays are addressable. It passes both `buflen` results and the element size to `sliceCopy`. |
| Headers.CopyFailsOnlyOnInlineArrays | src/reflect/value.go:1198-1222 | With compatible types, `Copy` can fail only by meeting an array that is not addressable. |
| Maps.AlgorithmFor | src/reflect/value.go:1435-1443 | The string algorithm is chosen exactly for string keys, the binary one for other binary keys, and the interface one for the rest. |
| Maps.MakeMapWithSize | src/reflect/value.go:1415-1452 | `MakeMapWithSize` succeeds exactly on map types with n >= 0, with the source's two panics otherwise. The result is an exported Value of the map type whose new map is empty and has the key's algorithm and the key and element sizes. Nothing else in the heap changes. |
| Maps.MakeMap | src/reflect/value.go:1455-1457 | `MakeMap` succeeds exactly on map types and uses size hint 8. |
| Maps.KeyOf | src/reflect/value.go:813-835 | A key goes to the runtime as a string, as raw bytes for binary types, or as an interface. Only the interface form can fail, on an unexported key. |
| Maps.MapIndex | src/reflect/value.go:799-836 | `MapIndex` fails with the source's errors on a non-map and on a key of the wrong type. It fails otherwise only when the key cannot be made an interface. It leaves the maps alone and returns the zero Value or a value of the element type. |
| Maps.SetMapIndex | src/reflect/value.go:1331-1394 | `SetMapIndex` fails with the source's errors on a non-map, a wrong key type or a wrong element type. It succeeds exactly when the key can be formed and, for a store, the map exists. It changes only the maps. |
| Maps.KeyMatchesAlgorithm | src/reflect/value.go:1437-1443 | The key form `MapIndex` and `SetMapIndex` pass agrees with the algorithm `MakeMapWithSize` chose for the key type. |
| Maps.MakeThenIndexMisses | src/reflect/value.go:1415-1452 | Any lookup in a freshly made map returns the zero Value. |
| Maps.SetMapIndexEffect | src/reflect/value.go:1341-1394 | After `SetMapIndex`, the key maps to elem's bytes, or to nothing when elem is the zero Value. Every other key of every map is unchanged. |
| Maps.SetThenIndex | src/reflect/value.go:1331-1394 | After `SetMapIndex(k, e)` with e not zero, `MapIndex(k)` is an addressable, exported value of e's type with e's bytes. |
| Maps.DeleteThenIndex | src/reflect/value.go:1341-1350 | After `SetMapIndex(k, Value{})`, `MapIndex(k)` is the zero Value. |
| Maps.SetThenIndexOther | src/reflect/value.go:1331-1394 | `SetMapIndex(k, e)` leaves the result of `MapIndex` for every other key, and the memory it builds, as they were. |
| Overflow.OverflowInt | src/reflect/value.go:1018-1026 | `OverflowInt` succeeds exactly on the five signed kinds and otherwise fails with a ValueError naming "reflect.Value.OverflowInt". |
| Overflow.OverflowUint | src/reflect/value.go:1030-1039 | `OverflowUint` succeeds exactly on the six unsigned kinds and otherwise fails with a ValueError naming "reflect.Value.OverflowUint". |
| Overflow.SignedTruncation | src/reflect/value.go:1021-1022 | Shifting x left and then arithmetically right by 64-bitSize in int64 gives x cut to bitSize bits and sign-extended. |
| Overflow.UnsignedTruncation | src/reflect/value.go:1034-1035 | Shifting x left and then logically right by 64-bitSize in uint64 gives x modulo 2^bitSize. |
| Overflow.OverflowIntRange | src/reflect/value.go:1018-1026 | `OverflowInt(x)` is true exactly when x lies outside [-2^(bits-1), 2^(bits-1)) for the type's bit size. |
| Overflow.OverflowUintRange | src/reflect/value.go:1030-1039 | `OverflowUint(x)` is true exactly when x >= 2^bits for the type's bit size. |

## Left out

- Floating point: `Float`, `Complex`, `SetFloat`, `SetComplex`, `OverflowFloat` and
  `overflowFloat32` are left out. `IsZero` of float and complex kinds compares the raw
  bits with zero, as `math.Float64bits(...) == 0` does for a value read back exactly.
- `String()` (which formats non-string kinds), `Type`, `Kind.String`, `NumMethod`,
  `Method`, `MethodByName`, `Call`, `Recv`, `Convert`, `CanConvert`, `NewAt`, `SetCap`,
  `FieldByIndex`, `FieldByIndexErr` and `FieldByName` are left out: they panic as
  unimplemented or only forward to the type descriptor. `Kind.String` is a parameter
  of `Errors.Message`.
- `MapKeys`, `MapRange` and the `MapIter` methods are left out: they walk the runtime's
  iterator, whose order the reflection layer does not determine.
- The runtime functions (`alloc`, `memcpy`, `sliceGrow`, `sliceAppend`, `sliceCopy`,
  `hashmapMake` and the `hashmap*Get/Set/Delete` functions) are not part of this model.
  Allocation places objects past the end of the heap. Growth and appending are
  parameters. `Copy` returns the call it makes to `sliceCopy`. A hashmap is a finite
  map from keys to element bytes.
- The runtime's behaviour on a nil map is assumed: storing panics with "assignment to
  entry in nil map", and deleting and reading do nothing.
- Interface keys compare by structural equality of descriptor and word. The runtime's
  interface hashing and equality are not modelled.
- Reading memory outside the heap, or at address 0, gives zero bytes rather than a fault.
- Go `int` is assumed to be as wide as `uintptr` (W bytes).
- Descriptors are finite trees, and structural equality stands for the pointer identity
  of `typecode`s. `isBinary` is the descriptor's bit and is not derived from the type.
- Setters.Set: `Set` checks only addressability and the type, as the source does; it
  never checks Exported, so the model does not either.
- Headers.Append: the resulting header and the success condition are stated only when
  the slice does not grow (Headers.AppendLength, Headers.AppendSucceeds); the grown case
  depends on `sliceGrow`, which is a parameter. The bytes each appended element leaves
  in the backing array are not stated.
- Headers.AppendSucceeds and Headers.AppendLength: both also assume that the backing array
  lies inside the heap and that the heap ends below the top of the address space, as it
  does for every slice `MakeSlice` builds.
- Construct.ZeroBytesAreZero: the converse (a value IsZero accepts has all-zero bytes)
  is false, so it is not stated. `IsZero` never looks at the padding bytes between
  struct fields. It judges a slice by its data word alone and ignores len and cap. It
  judges a string by its length alone and ignores the data pointer. It judges a func by
  its code word alone and an interface by its type word alone. Construct.NilIsZeroIff
  and Construct.StringIsZeroIff state the exact conditions for these kinds.
- Access.UnsafePointerNil: the converse is not stated for a slice Value whose own
  payload address is nil. `UnsafePointer` dereferences that address without the check
  `IsNil` makes, and the model does not model the resulting fault.
- Construct.ZeroIsZero: the type must be well formed, and the zero buffer must hold
  zeros and sit inside the address space.
- Maps.MapIndex: the map pointer and the key are read before `New` allocates the result.
  The allocation only extends the heap, so this order gives the same result.
- Overflow.OverflowInt: the descriptor's size must be 1 to 8 bytes on the integer
  kinds; the descriptors the compiler emits always meet this.
- Overflow.OverflowUint: the same size requirement as `OverflowInt`.

## Findings

| source | as written | input that shows it | evidently intended | confidence | as-written member | corrected member |
|---|---|---|---|---|---|---|
| src/reflect/value.go:666-716 | The array branch of `Index` never compares i with the array's length. It reads element i wherever that lies. | An addressable `[1]uint8` at address 1 of memory `[0, 7, 9]`: `Index(1)` returns a settable uint8 at address 2, whose byte 9 lies past the array, and `Index(-1)` also succeeds. | Panic for `uint(i) >= len`, as the slice and string branches do. | high; not executed | Access.IndexAsWrittenOutOfRange | Access.Index |
| src/reflect/value.go:472-474 | `Slice3` bounds k by the header's length (`hdr.len < k`). | A slice of length 1 and capacity 4: `Slice3(0, 1, 3)` panics. | Bound k by the capacity, as a three-index slice expression does. | high; not executed | Headers.Slice3AsWrittenRejectsCapacity | Headers.Slice3 |
