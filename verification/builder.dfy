/** Call-descriptor construction and release: `luaffi_prep_cif`, `luaffi_prep_cif_var`
    and `luaffi_clear`. A descriptor (`ffi_func`) owns two parallel arrays, the libffi
    types of the arguments and their by-reference flags; both are NULL when the
    descriptor takes no argument and after release. */
module Builder {
  import opened Wrappers
  import opened CStrings
  import opened Registry
  import opened Integers

  /** The address of the target function, resolved elsewhere by the dynamic linker. */
  type Address = nat

  /** The character that marks an argument as passed by reference. */
  const RefMarker: char := '*'

  /** One parsed argument name: its type and whether it carried the marker
      (`ref_type[n]` is the C char 1 for `true`, 0 for `false`). */
  datatype ArgSpec = ArgSpec(tag: TypeTag, byRef: bool)

  /** The errors construction raises. `NotAnInteger(n)` is `luaL_checkinteger`'s
      "bad argument #n" for a value with no integer representation. `InvalidOption`
      is `luaL_checkoption`'s "bad argument #n (invalid option ...)" for the
      return-type name at stack index `n`, which it formats from the C string, so it
      carries only the part before the first NUL.
      `UnknownArgumentType` is the binding's own "unknown argument type". */
  datatype BuildError = NotAnInteger(arg: nat) | InvalidOption(arg: nat, name: string) | UnknownArgumentType

  /** What the binding hands libffi's preparation (and what `ffi_cif` then records):
      `nfixed` is the count of fixed arguments, equal to `nargs` for a fixed call. */
  datatype Cif = Cif(variadic: bool, nfixed: nat, nargs: nat, rtype: FfiType, argTypes: seq<FfiType>)

  /** `ffi_func`: the target, the two owned arrays (None for NULL) and the cif. */
  datatype Descriptor = Descriptor(
    symbol: Address,
    argType: Option<seq<FfiType>>,
    refType: Option<seq<bool>>,
    cif: Cif)

  /** A new descriptor and the integer status preparation returned for it. */
  datatype Built = Built(func: Descriptor, status: int)

  /** The shape every descriptor keeps: the cif declares as many types as it has
      arguments, and the arrays are either both absent or both present, parallel, of
      that length, and the very array the cif points at. */
  predicate Valid(d: Descriptor)
  {
    && |d.cif.argTypes| == d.cif.nargs
    && d.argType.Some? == d.refType.Some?
    && (d.argType.Some? ==>
          d.cif.nargs > 0 && d.argType.value == d.cif.argTypes && |d.refType.value| == d.cif.nargs)
  }

  /** The memory the cif's argument types point at is still owned: either there is
      none, or the descriptor has not released its array. */
  predicate Live(d: Descriptor)
  {
    d.cif.nargs == 0 || d.argType.Some?
  }

  /** The argument-name step of the construction loop: strip one leading marker,
      remember it, and look the rest up. Names are compared as C strings. */
  function ParseArg(name: string): (r: Option<ArgSpec>)
  {
    var c := CStr(name);
    var byRef := |c| > 0 && c[0] == RefMarker;
    var t := if byRef then Resolve(c[1..]) else Resolve(c);
    if t.None? then None else Some(ArgSpec(t.value, byRef))
  }

  /** An argument name is accepted exactly when, as a C string, it is a table name
      with at most one marker in front; the marker becomes the flag. */
  lemma ParseArgSpec(name: string, spec: ArgSpec)
    ensures ParseArg(name) == Some(spec) <==>
            CStr(name) == (if spec.byRef then [RefMarker] else []) + NameOf(spec.tag)
  {
    var c := CStr(name);
    var n := NameOf(spec.tag);
    if ParseArg(name) == Some(spec) {
      if spec.byRef {
        assert |c| > 0 && c[0] == RefMarker;
        assert NameOf(Resolve(c[1..]).value) == c[1..];
        assert c == [RefMarker] + c[1..];
      } else {
        assert NameOf(Resolve(c).value) == c;
      }
    }
    if c == (if spec.byRef then [RefMarker] else []) + n {
      CheckNameOfName(spec.tag);
      NoNameStartsWithStar(n);
      if spec.byRef {
        assert c[1..] == n;
      } else {
        assert c == n;
      }
    }
  }

  /** A marked name is looked up without its marker and flagged. */
  lemma ParseArgMarked()
    ensures ParseArg("*int32") == Some(ArgSpec(Int32, true))
  {
    CStrIdentity("*int32");
    ParseArgSpec("*int32", ArgSpec(Int32, true));
  }

  /** Only one marker is stripped: a doubly marked name is unknown. */
  lemma ParseArgDoubleMarker()
    ensures ParseArg("**int32") == None
  {
    var c := CStr("**int32");
    CStrIdentity("**int32");
    var t := Resolve(c[1..]);
    if t.Some? {
      NoNameStartsWithStar(NameOf(t.value));
      assert false;
    }
  }

  /** Everything from the first NUL on is ignored, as `strcmp` stops there. */
  lemma ParseArgStopsAtNul()
    ensures ParseArg("int32\0junk") == Some(ArgSpec(Int32, false))
  {
    assert "int32\0junk" == NameOf(Int32) + [NUL] + "junk";
    CStrStopsAtNul(NameOf(Int32), "junk");
    ParseArgSpec("int32\0junk", ArgSpec(Int32, false));
  }

  /** Applies a partial step to every element in order, stopping at the first one
      it rejects. */
  function ParseAll<A, B>(xs: seq<A>, step: A -> Option<B>): (r: Option<seq<B>>)
    ensures r.Some? <==> forall i :: 0 <= i < |xs| ==> step(xs[i]).Some?
    ensures r.Some? ==> |r.value| == |xs|
    ensures r.Some? ==> forall i :: 0 <= i < |xs| ==> step(xs[i]) == Some(r.value[i])
  {
    if xs == [] then Some([])
    else
      match step(xs[0])
      case None => None
      case Some(y) =>
        var rest := ParseAll(xs[1..], step);
        if rest.None? then
          assert exists j :: 0 <= j < |xs| && step(xs[j]).None? by {
            var i :| 0 <= i < |xs[1..]| && step(xs[1..][i]).None?;
            assert xs[1..][i] == xs[i + 1];
          }
          None
        else
          assert forall i :: 1 <= i < |xs| ==> xs[i] == xs[1..][i - 1];
          Some([y] + rest.value)
  }

  /** The construction loop over all argument names, in order: the first unknown name
      aborts with "unknown argument type". */
  function ParseArgs(names: seq<string>): (r: Result<seq<ArgSpec>, BuildError>)
    ensures r.Success? <==> forall i :: 0 <= i < |names| ==> ParseArg(names[i]).Some?
    ensures r.Failure? ==> r.error == UnknownArgumentType
    ensures r.Success? ==> |r.value| == |names|
    ensures r.Success? ==> forall i :: 0 <= i < |names| ==> ParseArg(names[i]) == Some(r.value[i])
  {
    var specs := ParseAll(names, ParseArg);
    if specs.None? then Failure(UnknownArgumentType) else Success(specs.value)
  }

  /** `d` is a live descriptor for return type `rtag` and arguments `specs`: it
      records `type[t]` for the return type and for each argument, in order, and
      each argument's flag. */
  predicate Describes(d: Descriptor, rtag: TypeTag, specs: seq<ArgSpec>)
  {
    && Valid(d) && Live(d)
    && d.cif.nargs == |specs|
    && (d.argType.None? <==> |specs| == 0)
    && d.cif.rtype == AbiOf(rtag)
    && forall i :: 0 <= i < |specs| ==>
         && d.cif.argTypes[i] == AbiOf(specs[i].tag)
         && d.refType.value[i] == specs[i].byRef
  }

  /** The arrays of the construction loop (`arg_type[n] = type[t]`,
      `ref_type[n] = flag`), NULL for both when there is no argument, and the cif
      preparation fills from them. */
  function NewDescriptor(symbol: Address, variadic: bool, nfixed: nat, rtag: TypeTag,
                         specs: seq<ArgSpec>): (d: Descriptor)
    ensures Describes(d, rtag, specs)
    ensures d.symbol == symbol && d.cif.variadic == variadic && d.cif.nfixed == nfixed
  {
    var n := |specs|;
    var types := seq(n, i requires 0 <= i < n => AbiOf(specs[i].tag));
    var refs := seq(n, i requires 0 <= i < n => specs[i].byRef);
    Descriptor(symbol,
               if n == 0 then None else Some(types),
               if n == 0 then None else Some(refs),
               Cif(variadic, nfixed, n, AbiOf(rtag), types))
  }

  /** The shared body of both constructors: return type first, then the arguments,
      then the descriptor, then preparation, whose status is returned alongside the
      descriptor whatever it is. */
  function Build(symbol: Address, variadic: bool, nfixed: nat, rtypeName: string,
                 argNames: seq<string>, prep: Cif -> int): (r: Result<Built, BuildError>)
    ensures r.Success? <==>
              Resolve(CStr(rtypeName)).Some? && ParseArgs(argNames).Success?
    ensures Resolve(CStr(rtypeName)).None? ==>
              r == Failure(InvalidOption(if variadic then 3 else 2, CStr(rtypeName)))
    ensures r.Failure? && Resolve(CStr(rtypeName)).Some? ==> r.error == UnknownArgumentType
    ensures r.Success? ==>
              && Describes(r.value.func, Resolve(CStr(rtypeName)).value, ParseArgs(argNames).value)
              && r.value.func.symbol == symbol
              && r.value.func.cif.variadic == variadic
              && r.value.func.cif.nfixed == nfixed
              && r.value.status == prep(r.value.func.cif)
  {
    var rtype := Resolve(CStr(rtypeName));
    if rtype.None? then Failure(InvalidOption(if variadic then 3 else 2, CStr(rtypeName)))
    else
      var specs :- ParseArgs(argNames);
      var d := NewDescriptor(symbol, variadic, nfixed, rtype.value, specs);
      Success(Built(d, prep(d.cif)))
  }

  /** `luaffi_prep_cif`: every stack slot after the return-type name is an argument
      name, so the arity is the number of names, and all arguments are fixed. */
  function BuildFixed(symbol: Address, rtypeName: string, argNames: seq<string>,
                      prep: Cif -> int): (r: Result<Built, BuildError>)
    ensures r.Success? ==> !r.value.func.cif.variadic
    ensures r.Success? ==> r.value.func.cif.nfixed == r.value.func.cif.nargs == |argNames|
  {
    Build(symbol, false, |argNames|, rtypeName, argNames, prep)
  }

  /** `luaffi_prep_cif_var`: the fixed-argument count at stack index 2 is checked
      first, before the return-type name; `None` stands for a value
      `luaL_checkinteger` rejects. The Lua integer is converted to C `unsigned int`
      and passed on without any check against the arity. */
  function BuildVariadic(symbol: Address, fixedArgs: Option<LuaInteger>, rtypeName: string,
                         argNames: seq<string>, prep: Cif -> int): (r: Result<Built, BuildError>)
    ensures fixedArgs.None? ==> r == Failure(NotAnInteger(2))
    ensures fixedArgs.Some? ==>
              (r.Success? <==> Resolve(CStr(rtypeName)).Some? && ParseArgs(argNames).Success?)
    ensures r.Success? ==> r.value.func.cif.variadic
    ensures r.Success? ==> fixedArgs.Some? && r.value.func.cif.nfixed == ToUInt32(fixedArgs.value)
  {
    var count :- if fixedArgs.None? then Failure(NotAnInteger(2)) else Success(fixedArgs.value);
    Build(symbol, true, ToUInt32(count), rtypeName, argNames, prep)
  }

  /** `luaffi_clear`, run by both `__close` and `__gc`: free the two arrays and set
      both to NULL. The cif is left as it was. */
  function Release(d: Descriptor): (r: Descriptor)
    ensures r.argType.None? && r.refType.None?
    ensures r.symbol == d.symbol && r.cif == d.cif
    ensures Valid(d) ==> Valid(r)
    ensures Live(r) <==> d.cif.nargs == 0
  {
    d.(argType := None, refType := None)
  }

  /** Releasing twice leaves the descriptor as releasing once. */
  lemma ReleaseIdempotent(d: Descriptor)
    ensures Release(Release(d)) == Release(d)
  {
  }

  /** A descriptor without arguments owns no arrays, so releasing it changes nothing
      and it stays callable. */
  lemma ReleaseWithoutArguments(d: Descriptor)
    requires Valid(d) && d.cif.nargs == 0
    ensures Release(d) == d && Live(Release(d))
  {
  }
}
