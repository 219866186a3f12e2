/** The closed type vocabulary of the binding: the three parallel tables of luaffi.c
    (`type[]` of libffi descriptors, `typename[]` of names and `enum typesymbol`) and
    the two linear lookups over them, `checkname` and `checktype`. */
module Registry {
  import opened Wrappers

  /** `enum typesymbol`: one constructor per supported native type, in table order. */
  datatype TypeTag =
    | Void | UInt8 | Int8 | UInt16 | Int16 | UInt32 | Int32
    | UInt64 | Int64 | Float | Double | LongDouble | Pointer

  /** The libffi type descriptor objects (`ffi_type_void`, `ffi_type_sint8`, ...) the
      table points at. `FfiOther` stands for any other descriptor (a struct type, a
      complex type): `checktype` must be able to miss. */
  datatype FfiType =
    | FfiVoid | FfiUInt8 | FfiSInt8 | FfiUInt16 | FfiSInt16 | FfiUInt32 | FfiSInt32
    | FfiUInt64 | FfiSInt64 | FfiFloat | FfiDouble | FfiLongDouble | FfiPointer
    | FfiOther(id: nat)

  /** Number of entries in each table (the NULL sentinel excluded). */
  const TableSize: nat := 13

  /** `typename[]`. */
  const Names: seq<string> :=
    ["void", "uint8", "int8", "uint16", "int16", "uint32", "int32",
     "uint64", "int64", "float", "double", "longdouble", "pointer"]

  /** `type[]`. */
  const AbiTypes: seq<FfiType> :=
    [FfiVoid, FfiUInt8, FfiSInt8, FfiUInt16, FfiSInt16, FfiUInt32, FfiSInt32,
     FfiUInt64, FfiSInt64, FfiFloat, FfiDouble, FfiLongDouble, FfiPointer]

  /** The enumerator's value. */
  function Ordinal(t: TypeTag): (i: nat)
    ensures i < TableSize
  {
    match t
    case Void => 0        case UInt8 => 1     case Int8 => 2
    case UInt16 => 3      case Int16 => 4     case UInt32 => 5
    case Int32 => 6       case UInt64 => 7    case Int64 => 8
    case Float => 9       case Double => 10   case LongDouble => 11
    case Pointer => 12
  }

  /** The enumerator with value `i`; the inverse of `Ordinal`. */
  function TagAt(i: nat): (t: TypeTag)
    requires i < TableSize
    ensures Ordinal(t) == i
  {
    [Void, UInt8, Int8, UInt16, Int16, UInt32, Int32,
     UInt64, Int64, Float, Double, LongDouble, Pointer][i]
  }

  /** `typename[t]`. */
  function NameOf(t: TypeTag): string
  {
    Names[Ordinal(t)]
  }

  /** `type[t]`. */
  function AbiOf(t: TypeTag): FfiType
  {
    AbiTypes[Ordinal(t)]
  }

  lemma OrdinalInjective(t: TypeTag, u: TypeTag)
    ensures Ordinal(t) == Ordinal(u) <==> t == u
  {
  }

  /** The linear scan of `checkname` and `checktype` over a table, started at
      position `n`: the first index at or after `n` holding `x`, or -1 when no
      entry from there on holds it. */
  function IndexFrom<T(==)>(s: seq<T>, x: T, n: nat): (r: int)
    requires n <= |s|
    decreases |s| - n
    ensures r == -1 || n <= r < |s|
    ensures r == -1 <==> x !in s[n..]
    ensures r >= 0 ==> s[r] == x && x !in s[n..r]
  {
    if n == |s| then -1
    else if s[n] == x then n
    else
      assert s[n..] == [s[n]] + s[n + 1..];
      IndexFrom(s, x, n + 1)
  }

  /** `checkname`: the index of the table name equal to `name` (a C string), or -1. */
  function CheckName(name: string): (r: int)
    ensures -1 <= r < TableSize
    ensures r == -1 <==> name !in Names
    ensures r >= 0 ==> Names[r] == name
  {
    IndexFrom(Names, name, 0)
  }

  /** `checktype`: the index of the table descriptor equal to `t`, or -1. */
  function CheckType(t: FfiType): (r: int)
    ensures -1 <= r < TableSize
    ensures r == -1 <==> t !in AbiTypes
    ensures r >= 0 ==> AbiTypes[r] == t
  {
    IndexFrom(AbiTypes, t, 0)
  }

  /** `checkname` lifted to the enumeration. */
  function Resolve(name: string): (r: Option<TypeTag>)
    ensures r.Some? ==> NameOf(r.value) == name
    ensures r.None? ==> forall t :: NameOf(t) != name
  {
    var i := CheckName(name);
    if i == -1 then None else Some(TagAt(i))
  }

  /** The name table has no repeated entry, so lookups are unambiguous. */
  lemma NamesDistinct()
    ensures forall i, j :: 0 <= i < j < |Names| ==> Names[i] != Names[j]
  {
  }

  /** The descriptor table has no repeated entry. */
  lemma AbiTypesDistinct()
    ensures forall i, j :: 0 <= i < j < |AbiTypes| ==> AbiTypes[i] != AbiTypes[j]
  {
  }

  /** Every tag's name resolves to that tag's index: `checkname(typename[t]) == t`. */
  lemma CheckNameOfName(t: TypeTag)
    ensures CheckName(NameOf(t)) == Ordinal(t)
    ensures Resolve(NameOf(t)) == Some(t)
  {
    NamesDistinct();
    var i := CheckName(NameOf(t));
    assert Names[i] == Names[Ordinal(t)];
    OrdinalInjective(TagAt(i), t);
  }

  /** Every tag's descriptor maps back to its index: `checktype(type[t]) == t`. */
  lemma CheckTypeOfAbi(t: TypeTag)
    ensures CheckType(AbiOf(t)) == Ordinal(t)
  {
    AbiTypesDistinct();
    var i := CheckType(AbiOf(t));
    assert AbiTypes[i] == AbiTypes[Ordinal(t)];
  }

  /** Resolving a name and then looking its descriptor up again gives the same index:
      `checktype(type[checkname(s)]) == checkname(s)` for every known name. */
  lemma CheckTypeAfterCheckName(name: string)
    requires CheckName(name) != -1
    ensures CheckType(AbiTypes[CheckName(name)]) == CheckName(name)
  {
    var i := CheckName(name);
    CheckTypeOfAbi(TagAt(i));
  }


  /** Lookups are case-sensitive and exact: other spellings are unknown. */
  lemma ResolveExamples()
    ensures Resolve("Int32") == None
    ensures Resolve("int") == None
  {
    assert "Int32" !in Names;
    assert "int" !in Names;
  }

  /** No table name starts with the by-reference marker or is empty. */
  lemma NoNameStartsWithStar(name: string)
    requires name in Names
    ensures |name| > 0 && name[0] != '*'
  {
  }

  /** No table name contains a NUL, so a C string can spell each of them. */
  lemma NoNameHasNul(name: string)
    requires name in Names
    ensures '\0' !in name
  {
  }
}
