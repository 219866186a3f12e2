/** Whole calls: a descriptor built from names, then called. */
module Scenarios {
  import opened Wrappers
  import opened CStrings
  import opened Registry
  import opened Integers
  import opened Marshal
  import opened Builder
  import opened Invoker

  /** Every table name is already a C string. */
  lemma NameIsCString(t: TypeTag)
    ensures CStr(NameOf(t)) == NameOf(t)
  {
    NoNameHasNul(NameOf(t));
    CStrIdentity(NameOf(t));
  }

  /** A table name given as the return type resolves to its own type. */
  lemma ReturnNameResolves(t: TypeTag)
    ensures Resolve(CStr(NameOf(t))) == Some(t)
  {
    NameIsCString(t);
    CheckNameOfName(t);
  }

  /** A table name given as an argument type parses to its type, by value. */
  lemma ArgNameParses(t: TypeTag)
    ensures ParseArg(NameOf(t)) == Some(ArgSpec(t, false))
  {
    NameIsCString(t);
    ParseArgSpec(NameOf(t), ArgSpec(t, false));
  }

  /** The table names of some types, in order: the argument names a script passes. */
  function NamesOf(tags: seq<TypeTag>): (names: seq<string>)
    ensures |names| == |tags|
    ensures forall i :: 0 <= i < |tags| ==> names[i] == NameOf(tags[i])
  {
    seq(|tags|, i requires 0 <= i < |tags| => NameOf(tags[i]))
  }

  /** By-value argument slots of some types, in order. */
  function ByValue(tags: seq<TypeTag>): (specs: seq<ArgSpec>)
    ensures |specs| == |tags|
    ensures forall i :: 0 <= i < |tags| ==> specs[i] == ArgSpec(tags[i], false)
  {
    seq(|tags|, i requires 0 <= i < |tags| => ArgSpec(tags[i], false))
  }

  /** Argument names that are all table names parse to their types, in order. */
  lemma ArgNamesParse(tags: seq<TypeTag>)
    ensures ParseArgs(NamesOf(tags)) == Success(ByValue(tags))
  {
    var names := NamesOf(tags);
    var specs := ByValue(tags);
    forall i | 0 <= i < |tags|
      ensures ParseArg(names[i]) == Some(specs[i])
    {
      ArgNameParses(tags[i]);
    }
    var r := ParseArgs(names);
    assert r.Success?;
    assert r.value == specs;
  }

  /** Any signature spelled with table names builds: the descriptor describes that
      return type and those argument types, by value and in order, with every
      argument fixed. */
  lemma BuildFromNames(symbol: Address, rtag: TypeTag, tags: seq<TypeTag>, prep: Cif -> int)
    ensures BuildFixed(symbol, NameOf(rtag), NamesOf(tags), prep).Success?
    ensures var d := BuildFixed(symbol, NameOf(rtag), NamesOf(tags), prep).value.func;
            Describes(d, rtag, ByValue(tags)) && d.cif.nfixed == |tags|
  {
    ReturnNameResolves(rtag);
    ArgNamesParse(tags);
  }

  /** The "invalid option" error names the return type as C sees it: whatever
      follows an embedded NUL is not part of the message. */
  lemma InvalidOptionStopsAtNul(prep: Cif -> int)
    ensures BuildFixed(0, "*int32" + [NUL] + "junk", [], prep) == Failure(InvalidOption(2, "*int32"))
  {
    CStrStopsAtNul("*int32", "junk");
    var t := Resolve("*int32");
    if t.Some? {
      NoNameStartsWithStar(NameOf(t.value));
      assert false;
    }
  }

  /** A return-type name that is not in the table fails as `luaL_checkoption` does,
      before any argument name is looked at: even bad argument names do not change
      the error. */
  lemma UnknownReturnTypeFirst(prep: Cif -> int)
    ensures BuildFixed(0, "*int32", ["nosuch"], prep) == Failure(InvalidOption(2, "*int32"))
  {
    CStrIdentity("*int32");
    var t := Resolve("*int32");
    if t.Some? {
      NoNameStartsWithStar(NameOf(t.value));
      assert false;
    }
  }

  /** An argument name that is not in the table fails the whole construction. */
  lemma UnknownArgumentFails(prep: Cif -> int)
    ensures BuildFixed(0, "int32", ["int32", "int"], prep) == Failure(UnknownArgumentType)
  {
    assert NameOf(Int32) == "int32";
    ReturnNameResolves(Int32);
    CStrIdentity("int");
    ResolveExamples();
    assert ParseArg(["int32", "int"][1]) == None;
  }

  /** The fixed-argument count is converted to `unsigned int`: -1 becomes the
      largest 32-bit count, and nothing relates it to the arity. */
  lemma VariadicCountWraps(prep: Cif -> int)
    ensures BuildVariadic(0, Some(-1), "void", [], prep).Success?
    ensures BuildVariadic(0, Some(-1), "void", [], prep).value.func.cif.nfixed == 0xFFFF_FFFF
    ensures BuildVariadic(0, Some(-1), "void", [], prep).value.func.cif.nargs == 0
  {
    assert NameOf(Void) == "void";
    ReturnNameResolves(Void);
    assert ParseArgs([]) == Success([]);
  }

  /** The return-type name is argument 2 of `prep_cif` but argument 3 of
      `prep_cif_var`, and the invalid-option error says which. */
  lemma InvalidOptionPositions(prep: Cif -> int)
    ensures BuildFixed(0, "*int32", [], prep) == Failure(InvalidOption(2, "*int32"))
    ensures BuildVariadic(0, Some(1), "*int32", [], prep) == Failure(InvalidOption(3, "*int32"))
  {
    CStrIdentity("*int32");
    var t := Resolve("*int32");
    if t.Some? {
      NoNameStartsWithStar(NameOf(t.value));
      assert false;
    }
  }

  /** The fixed-argument count is checked before the return-type name: a count
      with no integer representation is the error even when the name is unknown. */
  lemma VariadicCountCheckedFirst(prep: Cif -> int)
    ensures BuildVariadic(0, None, "*int32", ["nosuch"], prep) == Failure(NotAnInteger(2))
  {
  }

  /** A void function returns no Lua value at all. */
  lemma VoidReturnsNothing(d: Descriptor, specs: seq<ArgSpec>, args: seq<LuaValue>, native: Native)
    requires Describes(d, Void, specs)
    ensures Call(d, args, native).Success? ==> Call(d, args, native).value == []
  {
    assert d.cif.rtype == FfiVoid;
  }

  /** What a successful variadic construction records. */
  lemma BuiltVariadic(symbol: Address, fixedArgs: LuaInteger, rtypeName: string,
                      argNames: seq<string>, prep: Cif -> int)
    requires BuildVariadic(symbol, Some(fixedArgs), rtypeName, argNames, prep).Success?
    ensures var d := BuildVariadic(symbol, Some(fixedArgs), rtypeName, argNames, prep).value.func;
            && Resolve(CStr(rtypeName)).Some? && ParseArgs(argNames).Success?
            && Describes(d, Resolve(CStr(rtypeName)).value, ParseArgs(argNames).value)
            && d.symbol == symbol && d.cif.nfixed == ToUInt32(fixedArgs)
  {
  }

  /** Argument names whose types are all integers parse to integer slots. */
  lemma IntegerSpecs(argNames: seq<string>)
    requires ParseArgs(argNames).Success?
    requires forall i :: 0 <= i < |argNames| ==> IsInteger(ParseArg(argNames[i]).value.tag)
    ensures forall i :: 0 <= i < |ParseArgs(argNames).value| ==> IsInteger(ParseArgs(argNames).value[i].tag)
  {
    var specs := ParseArgs(argNames).value;
    forall i | 0 <= i < |specs|
      ensures IsInteger(specs[i].tag)
    {
      assert ParseArg(argNames[i]) == Some(specs[i]);
    }
  }

  /** A variadic descriptor hands the callee its arguments in declared order, as the
      bytes of their declared members, whatever the fixed-argument count. */
  lemma VariadicMarshalsInOrder(symbol: Address, fixedArgs: LuaInteger, rtypeName: string,
                                argNames: seq<string>, prep: Cif -> int,
                                vs: seq<LuaInteger>, native: Native)
    requires BuildVariadic(symbol, Some(fixedArgs), rtypeName, argNames, prep).Success?
    requires forall i :: 0 <= i < |argNames| ==> IsInteger(ParseArg(argNames[i]).value.tag)
    requires |vs| >= |argNames|
    ensures var d := BuildVariadic(symbol, Some(fixedArgs), rtypeName, argNames, prep).value.func;
            Call(d, IntegerArgs(vs), native)
            == Success(DecodeReturn(d.cif.rtype,
                                    native(symbol, d.cif, IntegerSlots(ParseArgs(argNames).value, vs))))
  {
    var d := BuildVariadic(symbol, Some(fixedArgs), rtypeName, argNames, prep).value.func;
    BuiltVariadic(symbol, fixedArgs, rtypeName, argNames, prep);
    IntegerSpecs(argNames);
    CallMarshalsInOrder(d, Resolve(CStr(rtypeName)).value, ParseArgs(argNames).value, vs, native);
  }

  /** Argument names that each parse to the given slot parse, in order, to those slots. */
  lemma ParsesTo(names: seq<string>, specs: seq<ArgSpec>)
    requires |names| == |specs|
    requires forall i :: 0 <= i < |names| ==> ParseArg(names[i]) == Some(specs[i])
    ensures ParseArgs(names) == Success(specs)
  {
    var r := ParseArgs(names);
    assert r.Success?;
    assert r.value == specs;
  }

  /** A C function `int32_t add(int32_t a, int32_t b)`: it reads both members and
      returns their sum in the return union's `int32_t` member. C leaves a signed
      overflow undefined; this callee is taken to wrap it modulo 2^32, as the
      two's-complement addition of common targets does. */
  function AddInt32(symbol: Address, cif: Cif, slots: seq<ArgSlot>): (ret: Union)
  {
    if |slots| >= 2 && slots[0].Member? && slots[1].Member?
       && |slots[0].bytes| >= 4 && |slots[1].bytes| >= 4 then
      var sum := Wrap(Int32, Load(Int32, slots[0].bytes) + Load(Int32, slots[1].bytes));
      Store(Int32, sum) + seq(SizeofVal - 4, _ => 0)
    else
      seq(SizeofVal, _ => 0)
  }

  /** Two integer arguments become the two member slots of their types. */
  lemma IntegerSlotPair(s0: ArgSpec, s1: ArgSpec, a: LuaInteger, b: LuaInteger)
    requires IsInteger(s0.tag) && IsInteger(s1.tag)
    ensures IntegerSlots([s0, s1], [a, b]) == [Member(Store(s0.tag, a)), Member(Store(s1.tag, b))]
  {
    var slots := IntegerSlots([s0, s1], [a, b]);
    assert slots[0] == Member(Store(s0.tag, a)) && slots[1] == Member(Store(s1.tag, b));
  }

  /** Two integer arguments reach the callee as their members' bytes. */
  lemma CallPairSlots(d: Descriptor, rtag: TypeTag, s0: ArgSpec, s1: ArgSpec,
                      a: LuaInteger, b: LuaInteger, native: Native)
    requires IsInteger(s0.tag) && IsInteger(s1.tag)
    requires Describes(d, rtag, [s0, s1])
    ensures Call(d, IntegerArgs([a, b]), native)
         == Success(DecodeReturn(d.cif.rtype, native(d.symbol, d.cif,
                                 [Member(Store(s0.tag, a)), Member(Store(s1.tag, b))])))
  {
    var slots := IntegerSlots([s0, s1], [a, b]);
    assert slots == [Member(Store(s0.tag, a)), Member(Store(s1.tag, b))] by {
      IntegerSlotPair(s0, s1, a, b);
    }
    assert Call(d, IntegerArgs([a, b]), native)
        == Success(DecodeReturn(d.cif.rtype, native(d.symbol, d.cif, slots))) by {
      CallMarshalsInOrder(d, rtag, [s0, s1], [a, b], native);
    }
  }

  /** The same with the arguments written out. */
  lemma CallPair(d: Descriptor, rtag: TypeTag, s0: ArgSpec, s1: ArgSpec,
                 a: LuaInteger, b: LuaInteger, native: Native)
    requires IsInteger(s0.tag) && IsInteger(s1.tag)
    requires Describes(d, rtag, [s0, s1])
    ensures Call(d, [Integer(a), Integer(b)], native)
         == Success(DecodeReturn(d.cif.rtype, native(d.symbol, d.cif,
                                 [Member(Store(s0.tag, a)), Member(Store(s1.tag, b))])))
  {
    assert IntegerArgs([a, b]) == [Integer(a), Integer(b)];
    CallPairSlots(d, rtag, s0, s1, a, b, native);
  }

  /** The callee adds what the members hold. */
  lemma AddInt32Sums(symbol: Address, cif: Cif, a: LuaInteger, b: LuaInteger)
    ensures AddInt32(symbol, cif, [Member(Store(Int32, a)), Member(Store(Int32, b))])
         == Store(Int32, Wrap(Int32, Wrap(Int32, a) + Wrap(Int32, b))) + seq(SizeofVal - 4, _ => 0)
  {
    StoreLoad(Int32, a, []);
    StoreLoad(Int32, b, []);
    assert Store(Int32, a) + [] == Store(Int32, a);
    assert Store(Int32, b) + [] == Store(Int32, b);
  }

  /** An integer stored in the return union comes back wrapped to the return type. */
  lemma DecodeStored(tag: TypeTag, w: LuaInteger, pad: seq<byte>)
    requires IsInteger(tag)
    requires |pad| == SizeofVal - Width(tag)
    ensures DecodeReturn(AbiOf(tag), Store(tag, w) + pad) == [PushedInteger(Wrap(tag, w))]
  {
    DecodeInteger(tag, Store(tag, w) + pad);
    StoreLoad(tag, w, pad);
  }

  /** Calling `add` through a descriptor for `int32 (int32, int32)` returns the
      32-bit sum of the two arguments, each first converted to `int32_t`. */
  lemma CallAdds(d: Descriptor, f0: bool, f1: bool, a: LuaInteger, b: LuaInteger)
    requires Describes(d, Int32, [ArgSpec(Int32, f0), ArgSpec(Int32, f1)])
    ensures Call(d, [Integer(a), Integer(b)], AddInt32)
         == Success([PushedInteger(Wrap(Int32, Wrap(Int32, a) + Wrap(Int32, b)))])
  {
    CallPair(d, Int32, ArgSpec(Int32, f0), ArgSpec(Int32, f1), a, b, AddInt32);
    AddInt32Sums(d.symbol, d.cif, a, b);
    var w := Wrap(Int32, Wrap(Int32, a) + Wrap(Int32, b));
    DecodeStored(Int32, w, seq(SizeofVal - 4, _ => 0));
    WrapIdentity(Int32, w);
  }

  /** The two argument names of `add` parse to two by-value `int32` slots. */
  lemma AddArgsParse()
    ensures ParseArgs([NameOf(Int32), NameOf(Int32)]) == Success([ArgSpec(Int32, false), ArgSpec(Int32, false)])
  {
    var n := NameOf(Int32);
    var s := ArgSpec(Int32, false);
    assert ParseArg(n) == Some(s) by {
      ArgNameParses(Int32);
    }
    ParsesTo([n, n], [s, s]);
  }

  /** `int32 add(int32, int32)` built from its names describes exactly that. */
  lemma BuildAdd(prep: Cif -> int)
    ensures BuildFixed(0, NameOf(Int32), [NameOf(Int32), NameOf(Int32)], prep).Success?
    ensures Describes(BuildFixed(0, NameOf(Int32), [NameOf(Int32), NameOf(Int32)], prep).value.func, Int32,
                      [ArgSpec(Int32, false), ArgSpec(Int32, false)])
  {
    ReturnNameResolves(Int32);
    AddArgsParse();
  }

  /** `add(a, b)` through such a descriptor yields `c` when `c` is the 32-bit sum. */
  lemma AddYields(d: Descriptor, a: LuaInteger, b: LuaInteger, c: LuaInteger)
    requires Describes(d, Int32, [ArgSpec(Int32, false), ArgSpec(Int32, false)])
    requires Wrap(Int32, Wrap(Int32, a) + Wrap(Int32, b)) == c
    ensures Call(d, [Integer(a), Integer(b)], AddInt32) == Success([PushedInteger(c)])
  {
    CallAdds(d, false, false, a, b);
  }

  /** The `int32_t` sums of the two examples below. */
  lemma Int32Sums()
    ensures Wrap(Int32, Wrap(Int32, 7) + Wrap(Int32, 5)) == 12
    ensures Wrap(Int32, Wrap(Int32, 0x7FFF_FFFF) + Wrap(Int32, 1)) == -0x8000_0000
  {
    assert Wrap(Int32, 7) == 7 && Wrap(Int32, 5) == 5 && Wrap(Int32, 12) == 12;
    assert Wrap(Int32, 0x7FFF_FFFF) == 0x7FFF_FFFF && Wrap(Int32, 1) == 1;
    assert Wrap(Int32, 0x8000_0000) == -0x8000_0000;
  }

  /** Through such a descriptor `add(7, 5)` is 12. */
  lemma AddExample(d: Descriptor)
    requires Describes(d, Int32, [ArgSpec(Int32, false), ArgSpec(Int32, false)])
    ensures Call(d, [Integer(7), Integer(5)], AddInt32) == Success([PushedInteger(12)])
  {
    Int32Sums();
    AddYields(d, 7, 5, 12);
  }

  /** Through such a descriptor `add(2147483647, 1)` wraps to the most negative
      `int32_t`. */
  lemma AddOverflowExample(d: Descriptor)
    requires Describes(d, Int32, [ArgSpec(Int32, false), ArgSpec(Int32, false)])
    ensures Call(d, [Integer(0x7FFF_FFFF), Integer(1)], AddInt32) == Success([PushedInteger(-0x8000_0000)])
  {
    Int32Sums();
    AddYields(d, 0x7FFF_FFFF, 1, -0x8000_0000);
  }
}
