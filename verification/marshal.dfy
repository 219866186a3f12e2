/** Integer marshalling of `luaffi_call`: a Lua integer assigned to one fixed-width
    member of the `ffi_val` union, and a union member read back and widened to a Lua
    integer. The union is seen through its bytes, least significant first. */
module Marshal {
  import opened Integers
  import opened Registry

  /** `sizeof(ffi_val)` on LP64 targets whose `long double` takes 16 bytes. */
  const SizeofVal: nat := 16

  /** The raw bytes of one `ffi_val`. */
  type Union = s: seq<byte> | |s| == SizeofVal
    witness seq(SizeofVal, _ => 0)

  /** The tags the call path marshals as integers. */
  predicate IsInteger(t: TypeTag)
  {
    t.UInt8? || t.Int8? || t.UInt16? || t.Int16? || t.UInt32? || t.Int32? || t.UInt64? || t.Int64?
  }

  predicate IsSigned(t: TypeTag)
  {
    t.Int8? || t.Int16? || t.Int32? || t.Int64?
  }

  /** The size in bytes of the union member for an integer tag. */
  function Width(t: TypeTag): (w: nat)
    requires IsInteger(t)
    ensures w in {1, 2, 4, 8}
  {
    match t
    case UInt8 => 1   case Int8 => 1
    case UInt16 => 2  case Int16 => 2
    case UInt32 => 4  case Int32 => 4
    case UInt64 => 8  case Int64 => 8
  }

  /** 2^k for a member of k bits. */
  function Modulus(t: TypeTag): (m: int)
    requires IsInteger(t)
  {
    match t
    case UInt8 => 0x100                       case Int8 => 0x100
    case UInt16 => 0x1_0000                   case Int16 => 0x1_0000
    case UInt32 => 0x1_0000_0000              case Int32 => 0x1_0000_0000
    case UInt64 => 0x1_0000_0000_0000_0000    case Int64 => 0x1_0000_0000_0000_0000
  }

  /** Least Lua integer a member of this type hands back unchanged once widened. */
  function Lo(t: TypeTag): int
    requires IsInteger(t)
  {
    match t
    case UInt8 => 0       case Int8 => -0x80
    case UInt16 => 0      case Int16 => -0x8000
    case UInt32 => 0      case Int32 => -0x8000_0000
    case UInt64 => -Half64 case Int64 => -Half64
  }

  /** Lo(t) + 2^k: the bound above every value a member hands back. */
  function Hi(t: TypeTag): int
    requires IsInteger(t)
  {
    Lo(t) + Modulus(t)
  }

  lemma ModulusIsPow(t: TypeTag)
    requires IsInteger(t)
    ensures Modulus(t) == Pow256(Width(t))
  {
    Pow256Values();
  }

  /** The Lua integers a member of this type hands back unchanged once widened: the
      range of the C type, except that a `uint64_t` above 2^63 re-enters Lua as a
      negative `lua_Integer`, so every Lua integer survives a 64-bit member. */
  predicate InRange(t: TypeTag, v: int)
    requires IsInteger(t)
  {
    Lo(t) <= v < Hi(t)
  }

  /** Reference meaning of a store followed by a load: the unique Lua integer in the
      member's range that is congruent to `v` modulo 2^k (two's-complement wrap for
      signed members, reduction modulo 2^k for unsigned ones). */
  function Wrap(t: TypeTag, v: LuaInteger): (w: LuaInteger)
    requires IsInteger(t)
    ensures InRange(t, w)
  {
    match t
    case UInt8 => v % 0x100
    case Int8 => (v + 0x80) % 0x100 - 0x80
    case UInt16 => v % 0x1_0000
    case Int16 => (v + 0x8000) % 0x1_0000 - 0x8000
    case UInt32 => v % 0x1_0000_0000
    case Int32 => (v + 0x8000_0000) % 0x1_0000_0000 - 0x8000_0000
    case UInt64 => v
    case Int64 => v
  }

  /** `Wrap` keeps the value's residue modulo 2^k: it changes only bits the member
      cannot hold. */
  lemma WrapCongruent(t: TypeTag, v: LuaInteger)
    requires IsInteger(t)
    ensures Congruent(Wrap(t, v), v, Modulus(t))
  {
    match t
    case UInt8 => CongruentMod(v, 0x100);
    case Int8 => CongruentShiftedMod(v, 0x80, 0x100);
    case UInt16 => CongruentMod(v, 0x1_0000);
    case Int16 => CongruentShiftedMod(v, 0x8000, 0x1_0000);
    case UInt32 => CongruentMod(v, 0x1_0000_0000);
    case Int32 => CongruentShiftedMod(v, 0x8000_0000, 0x1_0000_0000);
    case UInt64 => CongruentMultiple(v, v, Modulus(t), 0);
    case Int64 => CongruentMultiple(v, v, Modulus(t), 0);
  }

  /** `Wrap` is the only in-range value congruent to its input. */
  lemma WrapUnique(t: TypeTag, v: LuaInteger, w: int)
    requires IsInteger(t)
    requires InRange(t, w) && Congruent(w, v, Modulus(t))
    ensures w == Wrap(t, v)
  {
    var m := Modulus(t);
    var x := Wrap(t, v);
    WrapCongruent(t, v);
    CongruentSymmetric(x, v, m);
    CongruentTransitive(w, v, x, m);
    CongruentInWindow(w, x, m);
  }

  /** An integer survives the round trip unchanged exactly when it is in range. */
  lemma WrapIdentity(t: TypeTag, v: LuaInteger)
    requires IsInteger(t)
    ensures Wrap(t, v) == v <==> InRange(t, v)
    ensures t == UInt64 || t == Int64 ==> Wrap(t, v) == v
  {
    if InRange(t, v) {
      CongruentMultiple(v, v, Modulus(t), 0);
      WrapUnique(t, v, v);
    }
  }

  /** Values outside a member's range wrap, with no bounds error. */
  lemma WrapExamples()
    ensures Wrap(UInt8, 256) == 0
    ensures Wrap(UInt8, 255) == 255
    ensures Wrap(Int8, 200) == -56
    ensures Wrap(Int32, -123456) == -123456
    ensures Wrap(UInt32, -1) == 0xFFFF_FFFF
    ensures Wrap(UInt64, -1) == -1
  {
  }

  /** `argval[n].<member> = luaL_checkinteger(...)`: the member's bytes after the C
      conversion of `v` to the member type (`v mod 2^k`, also for signed members on a
      two's-complement target). */
  function Store(t: TypeTag, v: LuaInteger): (b: seq<byte>)
    requires IsInteger(t)
    ensures |b| == Width(t)
    ensures FromLE(b) == v % Modulus(t)
  {
    ModulusIsPow(t);
    FromToLE(v % Modulus(t), Width(t));
    ToLE(v % Modulus(t), Width(t))
  }

  /** `lua_pushinteger(L, rvalue.<member>)`: the member's leading bytes read as the
      member type and converted to `lua_Integer`. */
  function Load(t: TypeTag, b: seq<byte>): (v: LuaInteger)
    requires IsInteger(t) && |b| >= Width(t)
    ensures InRange(t, v)
    ensures Congruent(v, FromLE(b[..Width(t)]), Modulus(t))
  {
    ModulusIsPow(t);
    var m := Modulus(t);
    var u := FromLE(b[..Width(t)]);
    if (IsSigned(t) || Width(t) == 8) && u >= m / 2 then
      CongruentMultiple(u - m, u, m, -1);
      u - m
    else
      CongruentMultiple(u, u, m, 0);
      u
  }

  /** A member read back as the same type it was stored as gives the wrapped value,
      whatever the union's remaining bytes hold. */
  lemma StoreLoad(t: TypeTag, v: LuaInteger, rest: seq<byte>)
    requires IsInteger(t)
    ensures Load(t, Store(t, v) + rest) == Wrap(t, v)
  {
    var m := Modulus(t);
    var s := Store(t, v);
    var b := s + rest;
    assert b[..Width(t)] == s;
    var w := Load(t, b);
    assert Congruent(w, v % m, m);
    CongruentMod(v, m);
    CongruentTransitive(w, v % m, v, m);
    WrapUnique(t, v, w);
  }
}
