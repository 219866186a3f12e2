/** `luaffi_call`: marshal each argument into its `ffi_val` slot by the type recorded
    in the cif, call the target through libffi, and push the return slot back to Lua.
    The native call is a parameter: given the target, the cif and the slots, it
    yields the bytes of the return union. */
module Invoker {
  import opened Wrappers
  import opened Integers
  import opened Registry
  import opened Marshal
  import opened Builder

  /** A Lua call argument. `Integer` is any value that has an integer representation
      (what `luaL_checkinteger` returns for it); `Other` is any value that has none. */
  datatype LuaValue = Integer(i: LuaInteger) | Other(id: nat)

  /** One argument slot as handed to libffi. `Member` holds the bytes of the integer
      member written; `Foreign` is a float, double or pointer write, whose conversion
      is not modelled; `Unwritten` is a slot the `default` branch left untouched. */
  datatype ArgSlot = Member(bytes: seq<byte>) | Foreign(tag: TypeTag, value: LuaValue) | Unwritten

  /** One result handed back to Lua. `PushedNumber` and `PushedString` stand for
      `lua_pushnumber` of a float member and `lua_pushstring` of the pointer member.
      `StackTop` is a result that was never pushed: the function returns 1 all the
      same, so Lua hands back whatever is on top of the stack. */
  datatype Returned = PushedInteger(i: LuaInteger) | PushedNumber(tag: TypeTag) | PushedString | StackTop

  /** `luaL_argerror`'s "bad argument #arg": a missing argument, or an argument that
      is not an integer where an integer type is declared. */
  datatype CallError = BadArgument(arg: nat)

  /** `ffi_call`: the target, the prepared cif and the slots determine the bytes the
      callee leaves in the return union. */
  type Native = (Address, Cif, seq<ArgSlot>) -> Union

  /** The Lua argument for position `n` (stack index `2 + n`), if it was passed. */
  function ArgAt(args: seq<LuaValue>, n: nat): (a: Option<LuaValue>)
    ensures a.Some? <==> n < |args|
  {
    if n < |args| then Some(args[n]) else None
  }

  /** The `switch (checktype(...))` dispatch: the tag of a libffi type, or None for
      the -1 of a type outside the table. */
  function Dispatch(t: FfiType): (r: Option<TypeTag>)
    ensures r.Some? <==> t in AbiTypes
    ensures r.Some? ==> AbiOf(r.value) == t
  {
    var k := CheckType(t);
    if k == -1 then None else Some(TagAt(k))
  }

  /** Tags whose argument is converted by `luaL_checknumber` or `luaL_checkstring`. */
  predicate IsForeign(t: TypeTag)
  {
    t == Float || t == Double || t == Pointer
  }

  /** Whether the argument for a slot the switch dispatches to `k` gets past its
      `luaL_check*`: an integer type needs an integer, a float, double or pointer
      type needs some value, and a slot the switch does not handle reads nothing. */
  predicate Accepts(k: Option<TypeTag>, a: Option<LuaValue>)
  {
    match k
    case None => true
    case Some(tag) =>
      if IsInteger(tag) then a.Some? && a.value.Integer?
      else if IsForeign(tag) then a.Some?
      else true
  }

  /** One iteration of the argument loop: position `n`, dispatched tag `k`, Lua
      argument `a`. */
  function EncodeArg(k: Option<TypeTag>, a: Option<LuaValue>, n: nat): (r: Result<ArgSlot, CallError>)
    ensures r.Success? <==> Accepts(k, a)
    ensures r.Failure? ==> r.error == BadArgument(n + 2)
    ensures r.Success? && k.Some? && IsInteger(k.value) ==>
              && r.value.Member? && |r.value.bytes| == Width(k.value)
              && FromLE(r.value.bytes) == a.value.i % Modulus(k.value)
    ensures r.Success? && k.Some? && IsForeign(k.value) ==> r.value == Foreign(k.value, a.value)
    ensures r.Success? && (k.None? || k == Some(Void) || k == Some(LongDouble)) ==> r.value == Unwritten
  {
    match k
    case None => Success(Unwritten)
    case Some(tag) =>
      if IsInteger(tag) then
        if a.Some? && a.value.Integer? then Success(Member(Store(tag, a.value.i)))
        else Failure(BadArgument(n + 2))
      else if IsForeign(tag) then
        if a.Some? then Success(Foreign(tag, a.value)) else Failure(BadArgument(n + 2))
      else Success(Unwritten)
  }

  /** The argument loop from position `n` on, over the dispatched tags `kinds` of
      the declared types: one slot per type, in order, stopping at the first
      argument its check rejects. */
  function EncodeArgs(kinds: seq<Option<TypeTag>>, args: seq<LuaValue>, n: nat): (r: Result<seq<ArgSlot>, CallError>)
    requires n <= |kinds|
    decreases |kinds| - n
    ensures r.Success? <==> forall i :: n <= i < |kinds| ==> Accepts(kinds[i], ArgAt(args, i))
    ensures r.Failure? ==>
              && n + 2 <= r.error.arg < |kinds| + 2
              && !Accepts(kinds[r.error.arg - 2], ArgAt(args, r.error.arg - 2))
              && forall i :: n <= i < r.error.arg - 2 ==> Accepts(kinds[i], ArgAt(args, i))
    ensures r.Success? ==>
              && |r.value| == |kinds| - n
              && forall j :: 0 <= j < |r.value| ==>
                   Success(r.value[j]) == EncodeArg(kinds[n + j], ArgAt(args, n + j), n + j)
  {
    if n == |kinds| then Success([])
    else
      var head := EncodeArg(kinds[n], ArgAt(args, n), n);
      if head.Failure? then Failure(head.error)
      else
        var rest := EncodeArgs(kinds, args, n + 1);
        if rest.Failure? then Failure(rest.error)
        else
          var slots := [head.value] + rest.value;
          assert forall j :: 1 <= j < |slots| ==> slots[j] == rest.value[j - 1];
          Success(slots)
  }

  /** `checktype` of every declared argument type, in order. */
  function Kinds(types: seq<FfiType>): (ks: seq<Option<TypeTag>>)
    ensures |ks| == |types|
    ensures forall i :: 0 <= i < |types| ==> ks[i] == Dispatch(types[i])
  {
    seq(|types|, i requires 0 <= i < |types| => Dispatch(types[i]))
  }

  /** The return switch on the dispatched return tag `k`: what is pushed for the
      return slot `ret`. */
  function Push(k: Option<TypeTag>, ret: Union): (r: seq<Returned>)
    ensures |r| <= 1
    ensures |r| == 0 <==> k == Some(Void)
    ensures k.Some? && IsInteger(k.value) ==>
              && r[0].PushedInteger?
              && InRange(k.value, r[0].i)
              && Congruent(r[0].i, FromLE(ret[..Width(k.value)]), Modulus(k.value))
    ensures k == Some(Float) || k == Some(Double) ==> r == [PushedNumber(k.value)]
    ensures k == Some(Pointer) ==> r == [PushedString]
    ensures k.None? || k == Some(LongDouble) ==> r == [StackTop]
  {
    match k
    case None => [StackTop]
    case Some(tag) =>
      if IsInteger(tag) then [PushedInteger(Load(tag, ret))]
      else if tag == Float || tag == Double then [PushedNumber(tag)]
      else if tag == Pointer then [PushedString]
      else if tag == Void then []
      else [StackTop]
  }

  /** The return switch: `checktype` of the return type, then `Push`. Only a void
      function returns no value. */
  function DecodeReturn(t: FfiType, ret: Union): (r: seq<Returned>)
    ensures |r| <= 1
    ensures |r| == 0 <==> t == FfiVoid
  {
    DispatchAbi(Void);
    Push(Dispatch(t), ret)
  }

  /** `luaffi_call` on a descriptor whose argument types are still owned: marshal the
      arguments the cif declares (extra Lua arguments are ignored), call, decode. */
  function Call(d: Descriptor, args: seq<LuaValue>, native: Native): (r: Result<seq<Returned>, CallError>)
    requires Valid(d) && Live(d)
    ensures r.Success? <==>
              forall i :: 0 <= i < d.cif.nargs ==> Accepts(Dispatch(d.cif.argTypes[i]), ArgAt(args, i))
    ensures r.Failure? ==>
              && 2 <= r.error.arg < d.cif.nargs + 2
              && !Accepts(Dispatch(d.cif.argTypes[r.error.arg - 2]), ArgAt(args, r.error.arg - 2))
              && forall i :: 0 <= i < r.error.arg - 2 ==> Accepts(Dispatch(d.cif.argTypes[i]), ArgAt(args, i))
    ensures r.Success? ==> |r.value| <= 1 && (|r.value| == 0 <==> d.cif.rtype == FfiVoid)
  {
    var slots :- EncodeArgs(Kinds(d.cif.argTypes), args, 0);
    Success(DecodeReturn(d.cif.rtype, native(d.symbol, d.cif, slots)))
  }

  /** `checktype` recovers a type from its libffi type object. */
  lemma DispatchAbi(t: TypeTag)
    ensures Dispatch(AbiOf(t)) == Some(t)
  {
    CheckTypeOfAbi(t);
    OrdinalInjective(TagAt(Ordinal(t)), t);
  }

  /** At call time `checktype` recovers from a built descriptor exactly the types its
      names declared, so the switches never take the -1 branch for it. */
  lemma DispatchDescribed(d: Descriptor, rtag: TypeTag, specs: seq<ArgSpec>)
    requires Describes(d, rtag, specs)
    ensures Dispatch(d.cif.rtype) == Some(rtag)
    ensures Kinds(d.cif.argTypes) == seq(|specs|, i requires 0 <= i < |specs| => Some(specs[i].tag))
  {
    DispatchAbi(rtag);
    forall i | 0 <= i < |specs|
      ensures Dispatch(d.cif.argTypes[i]) == Some(specs[i].tag)
    {
      DispatchAbi(specs[i].tag);
    }
  }

  /** Lua integers as call arguments. */
  function IntegerArgs(vs: seq<LuaInteger>): (args: seq<LuaValue>)
    ensures |args| == |vs| && forall i :: 0 <= i < |vs| ==> args[i] == Integer(vs[i])
  {
    seq(|vs|, i requires 0 <= i < |vs| => Integer(vs[i]))
  }

  /** The slots of integer arguments `vs` stored as the members of `specs`. */
  function IntegerSlots(specs: seq<ArgSpec>, vs: seq<LuaInteger>): (slots: seq<ArgSlot>)
    requires |vs| >= |specs| && forall i :: 0 <= i < |specs| ==> IsInteger(specs[i].tag)
    ensures |slots| == |specs|
  {
    seq(|specs|, i requires 0 <= i < |specs| => Member(Store(specs[i].tag, vs[i])))
  }

  /** An integer argument in an integer slot is stored as the bytes of its member. */
  lemma EncodeInteger(tag: TypeTag, v: LuaInteger, n: nat)
    requires IsInteger(tag)
    ensures EncodeArg(Some(tag), Some(Integer(v)), n) == Success(Member(Store(tag, v)))
  {
  }

  /** Integer arguments for integer kinds all encode, each as the bytes of its member. */
  lemma EncodeIntegers(kinds: seq<Option<TypeTag>>, specs: seq<ArgSpec>, vs: seq<LuaInteger>)
    requires kinds == seq(|specs|, i requires 0 <= i < |specs| => Some(specs[i].tag))
    requires forall i :: 0 <= i < |specs| ==> IsInteger(specs[i].tag)
    requires |vs| >= |specs|
    ensures EncodeArgs(kinds, IntegerArgs(vs), 0) == Success(IntegerSlots(specs, vs))
  {
    var args := IntegerArgs(vs);
    var slots := IntegerSlots(specs, vs);
    forall i | 0 <= i < |kinds|
      ensures Accepts(kinds[i], ArgAt(args, i))
    {
      assert kinds[i] == Some(specs[i].tag) && ArgAt(args, i) == Some(Integer(vs[i]));
    }
    var r := EncodeArgs(kinds, args, 0);
    assert r.Success?;
    forall j | 0 <= j < |slots|
      ensures r.value[j] == slots[j]
    {
      assert kinds[j] == Some(specs[j].tag) && ArgAt(args, j) == Some(Integer(vs[j]));
      EncodeInteger(specs[j].tag, vs[j], j);
      assert slots[j] == Member(Store(specs[j].tag, vs[j]));
    }
    assert r.value == slots;
  }

  /** Integer arguments reach the callee in declared order, each as the bytes of its
      declared member: the callee is handed exactly these slots. */
  lemma CallMarshalsInOrder(d: Descriptor, rtag: TypeTag, specs: seq<ArgSpec>,
                            vs: seq<LuaInteger>, native: Native)
    requires Describes(d, rtag, specs)
    requires forall i :: 0 <= i < |specs| ==> IsInteger(specs[i].tag)
    requires |vs| >= |specs|
    ensures Call(d, IntegerArgs(vs), native) ==
              Success(DecodeReturn(d.cif.rtype, native(d.symbol, d.cif, IntegerSlots(specs, vs))))
  {
    DispatchDescribed(d, rtag, specs);
    EncodeIntegers(Kinds(d.cif.argTypes), specs, vs);
  }

  /** A callee that returns its first integer argument unchanged: the bytes of the
      first slot's member, zero-padded to the union. */
  function EchoFirst(symbol: Address, cif: Cif, slots: seq<ArgSlot>): (ret: Union)
    ensures |slots| > 0 && slots[0].Member? && |slots[0].bytes| <= SizeofVal ==>
              ret[..|slots[0].bytes|] == slots[0].bytes
  {
    if |slots| > 0 && slots[0].Member? && |slots[0].bytes| <= SizeofVal then
      slots[0].bytes + seq(SizeofVal - |slots[0].bytes|, _ => 0)
    else
      seq(SizeofVal, _ => 0)
  }

  /** The return switch on an integer return type loads the union's member. */
  lemma DecodeInteger(tag: TypeTag, ret: Union)
    requires IsInteger(tag)
    ensures DecodeReturn(AbiOf(tag), ret) == [PushedInteger(Load(tag, ret))]
  {
    DispatchAbi(tag);
  }

  /** An integer echoed back through an integer return slot comes back wrapped. */
  lemma DecodeEchoed(tag: TypeTag, v: LuaInteger, symbol: Address, cif: Cif)
    requires IsInteger(tag)
    ensures DecodeReturn(AbiOf(tag), EchoFirst(symbol, cif, [Member(Store(tag, v))])) == [PushedInteger(Wrap(tag, v))]
  {
    var ret := EchoFirst(symbol, cif, [Member(Store(tag, v))]);
    DecodeInteger(tag, ret);
    assert Load(tag, ret) == Wrap(tag, v) by {
      assert ret == Store(tag, v) + ret[Width(tag)..];
      StoreLoad(tag, v, ret[Width(tag)..]);
    }
  }

  /** A single integer argument becomes the single member slot of its type. */
  lemma IntegerSlot(specs: seq<ArgSpec>, tag: TypeTag, byRef: bool, v: LuaInteger)
    requires IsInteger(tag) && specs == [ArgSpec(tag, byRef)]
    ensures IntegerSlots(specs, [v]) == [Member(Store(tag, v))]
  {
  }

  /** A single integer argument reaches the callee as its member's bytes. */
  lemma CallSingle(d: Descriptor, tag: TypeTag, byRef: bool, v: LuaInteger, native: Native)
    requires IsInteger(tag)
    requires Describes(d, tag, [ArgSpec(tag, byRef)])
    ensures Call(d, IntegerArgs([v]), native)
         == Success(DecodeReturn(d.cif.rtype, native(d.symbol, d.cif, [Member(Store(tag, v))])))
  {
    var specs := [ArgSpec(tag, byRef)];
    var slots := IntegerSlots(specs, [v]);
    assert slots == [Member(Store(tag, v))] by {
      IntegerSlot(specs, tag, byRef, v);
    }
    assert Call(d, IntegerArgs([v]), native)
        == Success(DecodeReturn(d.cif.rtype, native(d.symbol, d.cif, slots))) by {
      CallMarshalsInOrder(d, tag, specs, [v], native);
    }
  }

  /** The echoing callee hands back the single integer argument, wrapped. */
  lemma CallEchoes(d: Descriptor, tag: TypeTag, byRef: bool, v: LuaInteger)
    requires IsInteger(tag)
    requires Describes(d, tag, [ArgSpec(tag, byRef)])
    ensures Call(d, IntegerArgs([v]), EchoFirst) == Success([PushedInteger(Wrap(tag, v))])
  {
    CallSingle(d, tag, byRef, v, EchoFirst);
    DecodeEchoed(tag, v, d.symbol, d.cif);
  }

  /** Through a call, an integer of any declared type comes back as the declared
      member holds it: wrapped to the member's width and sign, and unchanged
      exactly when it is in the member's range. */
  lemma CallRoundTrip(d: Descriptor, tag: TypeTag, byRef: bool, v: LuaInteger)
    requires IsInteger(tag)
    requires Describes(d, tag, [ArgSpec(tag, byRef)])
    ensures Call(d, [Integer(v)], EchoFirst) == Success([PushedInteger(Wrap(tag, v))])
    ensures Call(d, [Integer(v)], EchoFirst) == Success([PushedInteger(v)]) <==> InRange(tag, v)
  {
    assert IntegerArgs([v]) == [Integer(v)];
    CallEchoes(d, tag, byRef, v);
    WrapIdentity(tag, v);
  }
}
