# luaffi core in Dafny

luaffi is a Lua binding over libffi. A Lua script builds a call descriptor from a
dynamic-linker symbol, a return-type name and a list of argument-type names
(`ffi.prep_cif`, `ffi.prep_cif_var`). It then calls the descriptor with Lua values
(`ffi.call` or `__call`), and releases it (`__close`, `__gc`). This project models
the part of that binding with behaviour of its own:

- **Type registry** (`registry.dfy`). The parallel tables `type[]` and
  `typename[]` and `enum typesymbol` become the `TypeTag` datatype, the `Names`
  table and the `AbiTypes` table. `checkname` and `checktype` are the linear scan
  `IndexFrom`, which yields -1 on a miss.
- **C strings** (`cstrings.dfy`). A Lua string may hold NUL characters. `strcmp` and
  `*name == '*'` see only the part before the first NUL, and `CStr` is that part.
- **Descriptor construction** (`builder.dfy`). This covers `luaffi_prep_cif` and
  `luaffi_prep_cif_var`:
  - the return type is resolved first;
  - then each argument name, with one leading `*` taken as the by-reference flag;
  - then the two parallel arrays are built, or both are NULL when there are no
    arguments;
  - then libffi's preparation status is attached.

  `luaffi_clear` is `Release`.
- **Integer marshalling** (`integers.dfy`, `marshal.dfy`). This is the store of a
  `lua_Integer` into a member of the `ffi_val` union and the load of a member back
  into a `lua_Integer`. Both work on the union's little-endian bytes.
- **The call** (`invoker.dfy`). The argument switch, the native call and the
  return switch of `luaffi_call`.
- **Whole calls** (`scenarios.dfy`). Descriptors built from names and then called:
  - an `int32 add(int32, int32)`;
  - the error paths of construction;
  - variadic descriptors.
- **The argument buffer** (`layout.dfy`). The size `luaffi_call` allocates for its
  `ffi_val` slots, as written and corrected (see Findings).

libffi is not visible to the model. `ffi_prep_cif` and `ffi_prep_cif_var` are a
parameter `prep: Cif -> int` that returns the status. `ffi_call` is a parameter
`native: Native`, which maps the symbol, the cif and the argument slots to the
16 bytes of the return union.

A Lua value is either `Integer(i)`, meaning `luaL_checkinteger` accepts it and
yields `i`, or `Other`, meaning it does not. A missing argument is `None` in
`ArgAt`.

The return switch's `default` branch prints and returns 1 without pushing anything.
Lua then returns whatever is on top of the stack. The model names that result
`StackTop`.

## Model

| member | source | states |
|---|---|---|
| CStrings.CStr | luaffi.c:78-80 | the string C compares is the longest NUL-free prefix of the Lua string, and it ends exactly at the first NUL |
| CStrings.CStrIdentity | luaffi.c:78-80 | a Lua name reaches `strcmp` unchanged if and only if it contains no NUL |
| CStrings.CStrStopsAtNul | luaffi.c:78-80 | whatever follows the first NUL is invisible to the comparison |
| Registry.CheckName | luaffi.c:73-82 | `checkname` returns -1 exactly when the name is not in `typename[]`, and otherwise an index whose entry equals the name |
| Registry.CheckType | luaffi.c:62-71 | `checktype` returns -1 exactly when the descriptor is not in `type[]`, and otherwise an index whose entry is that descriptor |
| Registry.Resolve | luaffi.c:73-82 | a resolved name is the name of the returned tag; an unresolved name is the name of no tag |
| Registry.NamesDistinct | luaffi.c:45-52 | no two entries of `typename[]` are equal, so the index `checkname` finds is the only one |
| Registry.CheckNameOfName | luaffi.c:45-60 | `checkname(typename[t]) == t` for every enumerator, so the name table and the enumeration agree |
| Registry.CheckTypeOfAbi | luaffi.c:36-60 | `checktype(type[t]) == t` for every enumerator |
| Registry.CheckTypeAfterCheckName | luaffi.c:36-82 | for every known name, `checktype(type[checkname(s)]) == checkname(s)` |
| Registry.ResolveExamples | luaffi.c:79 | lookup is exact and case-sensitive: `Int32` and `int` are unknown |
| Integers.ToUInt32 | luaffi.c:137-142 | the fixed-argument count is the Lua integer reduced into `unsigned int`, congruent to it modulo 2^32 |
| Integers.FromToLE | luaffi.h:42-55 | reading back the k bytes written for a value gives the value modulo 256^k |
| Integers.ToFromLE | luaffi.h:42-55 | writing back the value of k bytes gives those bytes |
| Marshal.Wrap | luaffi.c:193-216 | the reference meaning of a store then a load always lies in the member's range |
| Marshal.WrapCongruent | luaffi.c:193-216 | the wrapped value differs from the Lua integer by a multiple of 2^k |
| Marshal.WrapUnique | luaffi.c:193-216 | any in-range value congruent to the input modulo 2^k is the wrapped value |
| Marshal.WrapIdentity | luaffi.c:193-216 | an integer survives a member unchanged if and only if it is in the member's range; for the 64-bit members that is every Lua integer |
| Marshal.WrapExamples | luaffi.c:193-216 | 256 as `uint8` is 0, 200 as `int8` is -56, -1 as `uint32` is 4294967295, -1 as `uint64` is -1 |
| Marshal.Store | luaffi.c:193-216 | assigning to a member writes exactly the member's width in bytes, holding the integer modulo 2^k |
| Marshal.Load | luaffi.c:239-262 | reading a member gives an in-range Lua integer congruent to the member's bytes modulo 2^k |
| Marshal.StoreLoad | luaffi.c:193-261 | storing into a member and reading the same member gives the wrapped value, whatever the rest of the union holds |
| Builder.ParseArgSpec | luaffi.c:102-113 | an argument name is accepted as a slot if and only if, as a C string, it is that slot's table name with the `*` marker in front exactly when the slot is by reference |
| Builder.ParseArgMarked | luaffi.c:104-111 | `*int32` is a by-reference `int32` |
| Builder.ParseArgDoubleMarker | luaffi.c:104-105 | only one marker is stripped, so `**int32` is unknown |
| Builder.ParseArgStopsAtNul | luaffi.c:103-105 | `int32` followed by a NUL and junk is a by-value `int32` |
| Builder.ParseAll | luaffi.c:102-113 | the loop over names accepts a list if and only if every element is accepted, and then yields one result per element, in order |
| Builder.ParseArgs | luaffi.c:102-113 | the argument loop succeeds if and only if every name parses; it then yields one slot per name in order, and otherwise fails with "unknown argument type" |
| Builder.NewDescriptor | luaffi.c:98-122 | the descriptor records `type[t]` for the return type and for each argument in order, the flags in order, and NULL arrays exactly when there is no argument |
| Builder.Build | luaffi.c:84-128 | construction succeeds if and only if the return name and every argument name resolve; an unknown return name fails as an invalid option naming the C string and its stack index (2 for `prep_cif`, 3 for `prep_cif_var`), whatever the arguments are; the status returned is preparation's status whatever its value |
| Builder.BuildFixed | luaffi.c:97 | a fixed descriptor's arity and fixed count are the number of argument names |
| Builder.BuildVariadic | luaffi.c:142-145 | a fixed count `luaL_checkinteger` rejects fails as bad argument #2 before anything else is checked; otherwise construction succeeds exactly when the names resolve, and the fixed count is the Lua integer converted to `unsigned int`, unrelated to the arity |
| Builder.Release | luaffi.c:281-291 | release leaves both arrays NULL and the symbol and cif as they were; afterwards the descriptor is callable only if it has no arguments |
| Builder.ReleaseIdempotent | luaffi.c:281-291 | releasing twice (`__close` then `__gc`) is the same as releasing once |
| Builder.ReleaseWithoutArguments | luaffi.c:114-117 | a descriptor without arguments owns no arrays, so release changes nothing |
| Invoker.Dispatch | luaffi.c:192 | `checktype` in the call switches yields a tag exactly for the 13 table descriptors, and that tag's descriptor is the one looked up |
| Invoker.EncodeArg | luaffi.c:192-229 | one argument is rejected exactly when its check fails, naming stack position n+2; an integer member holds the integer modulo 2^k; void, long double and unknown slots are left unwritten |
| Invoker.EncodeArgs | luaffi.c:191-231 | the argument loop succeeds if and only if every argument passes its check; otherwise it fails at the first failing position; on success it gives one slot per declared type, in order |
| Invoker.Push | luaffi.c:238-278 | a void return pushes nothing; an integer return pushes the in-range integer congruent to the member; float and double push a number, pointer pushes a string, and long double or an unknown type leave the stack top |
| Invoker.DecodeReturn | luaffi.c:238-278 | at most one result, and none exactly for a void return type |
| Invoker.Call | luaffi.c:178-279 | a call succeeds if and only if every declared argument passes its check; failure names the first position whose check fails, every earlier one having passed; success yields no value for void and one value otherwise |
| Invoker.DispatchDescribed | luaffi.c:112 | at call time `checktype` gives back exactly the types the descriptor was built from |
| Invoker.CallMarshalsInOrder | luaffi.c:191-233 | integer arguments reach the native function in declared order, each as the bytes of its declared member; extra Lua arguments are ignored |
| Invoker.CallRoundTrip | luaffi.c:193-261 | an integer passed through a call and returned unchanged comes back wrapped to the declared type, and unchanged if and only if it is in range |
| Scenarios.ArgNameParses | luaffi.c:102-113 | every table name is accepted as a by-value argument of its type |
| Scenarios.ArgNamesParse | luaffi.c:102-113 | any list of table names parses to by-value slots of those types, in the same order |
| Scenarios.BuildFromNames | luaffi.c:84-128 | every signature spelled with table names builds, and the descriptor describes that return type and those argument types, by value, in order, all fixed |
| Scenarios.InvalidOptionStopsAtNul | luaffi.c:95 | the invalid-option error for `*int32` followed by a NUL and junk names only `*int32`, as bad argument #2 |
| Scenarios.InvalidOptionPositions | luaffi.c:95-143 | an unknown return-type name is bad argument #2 of `prep_cif` and bad argument #3 of `prep_cif_var` |
| Scenarios.UnknownReturnTypeFirst | luaffi.c:95 | an unknown return-type name fails as an invalid option even when the argument names are also unknown |
| Scenarios.UnknownArgumentFails | luaffi.c:106-110 | one unknown argument name among known ones fails the whole construction with "unknown argument type" |
| Scenarios.VariadicCountCheckedFirst | luaffi.c:142-143 | a non-integer fixed count is reported as bad argument #2 even when the return-type name is also unknown |
| Scenarios.VariadicCountWraps | luaffi.c:137-145 | a fixed-argument count of -1 becomes 4294967295 on a descriptor with no arguments |
| Scenarios.VoidReturnsNothing | luaffi.c:272-273 | a successful call of a void function returns no Lua value |
| Scenarios.VariadicMarshalsInOrder | luaffi.c:145-233 | a built variadic descriptor passes integer arguments in declared order whatever its fixed count |
| Scenarios.BuildAdd | luaffi.c:84-128 | `int32 (int32, int32)` built from its names describes exactly that signature |
| Scenarios.CallAdds | luaffi.c:208-255 | calling an `add` callee that wraps its `int32_t` sum (C leaves the overflow undefined) returns that sum of the two arguments, each first converted to `int32_t`, read back through the `int32` return member |
| Scenarios.AddExample | luaffi.c:208-255 | `add(7, 5)` returns 12 |
| Scenarios.AddOverflowExample | luaffi.c:208-255 | with the wrapping callee, `add(2147483647, 1)` comes back as -2147483648: how the `int32` return member is read back, not a result C guarantees |
| Layout.BufferAsWrittenFitsIff | luaffi.c:188-230 | with the buffer as allocated, every slot's write fits if and only if there is at most one argument |
| Layout.BufferAsWrittenCounterexample | luaffi.c:188-230 | with two `uint8` arguments the second byte lands at offset 16 of a 16-byte buffer |
| Layout.BufferFits | luaffi.c:188-230 | with `nargs * sizeof(ffi_val)` bytes every write of up to a whole union fits |
| Layout.BufferMinimal | luaffi.c:188-230 | no smaller buffer holds a whole union in every slot |
| Layout.EncodedSlotsFit | luaffi.c:191-231 | every write the argument loop makes, integer member or float, double or pointer value, fits the corrected buffer at its slot's offset |

## Left out

- libffi: `ffi_prep_cif`, `ffi_prep_cif_var` and `ffi_call` are parameters. The model does not say which cifs libffi accepts, or what a cif holds after a non-OK status.
- `FFI_DEFAULT_ABI` is not recorded in the cif, because nothing in the binding varies it.
- Floating-point values: `float` and `double` arguments are recorded as `Foreign` slots holding the Lua value, and such returns as `PushedNumber`; the conversions themselves are not modelled. `long double` has no case in either switch, so where libffi keeps a separate `long double` type object (see the Registry.CheckTypeOfAbi line below) the model, like the code, leaves its argument slot `Unwritten` and gives its return as `StackTop`.
- Pointer and string marshalling: a `pointer` argument is a `Foreign` slot, and a `pointer` return is `PushedString`. Raw memory behind the address is not modelled.
- Lua plumbing: the stack, userdata, metatables, `luaopen_ffi` with its constants table, and `luaL_checkudata` on the first argument.
- `printf` diagnostics in the default branches are left out; only their effect on the result is modelled.
- `luaL_checkinteger` coercion: which Lua values it accepts (integers, integral floats, numeric strings) is abstracted, as the `Integer`/`Other` split for call arguments and as `Some`/`None` for the fixed count of a variadic descriptor.
- `luaL_checknumber` and `luaL_checkstring` failures: any present value passes them in the model.
- Memory: `malloc` failure is not modelled. Neither are the leaks when a check raises in the middle of a loop after the arrays were allocated (luaffi.c:99-103 and 188-194).
- Invoker.Call: requires a live descriptor. Calling a released descriptor with arguments reads freed memory through the cif, and that is not modelled.
- The by-reference flag is stored only, because `luaffi_call` never reads it.
- Byte order: union members are laid out little-endian.
- Registry.CheckTypeOfAbi: assumes the 13 libffi type objects are distinct, as on x86-64 and aarch64 Linux (the target whose 16-byte `ffi_val` the model also assumes). Where `long double` is no wider than `double` (macOS on arm64, 32-bit ARM Linux, MSVC), libffi defines `ffi_type_longdouble` as `ffi_type_double`. There `checktype` maps a `longdouble` descriptor to the double case: its argument is read with `luaL_checknumber` and stored as a double, and its return pushes a number. On such targets the `Unwritten` and `StackTop` results for `long double` in Invoker.EncodeArg, Invoker.Push and Invoker.DispatchDescribed do not hold.
- Marshal.Store: reduces an out-of-range `lua_Integer` assigned to `int8_t`, `int16_t` or `int32_t` modulo 2^k, which is what two's-complement targets do. C leaves that conversion implementation-defined.
- Marshal.Load: reads a `uint64_t` above 2^63 back as the two's-complement negative `lua_Integer`, which is what common targets do. C leaves that conversion implementation-defined.
- Builder.ParseArg: has no contract of its own; Builder.ParseArgSpec states what it accepts.

## Findings

| source | as written | input that shows it | evidently intended | confidence | as-written member | corrected member |
|---|---|---|---|---|---|---|
| luaffi.c:188 | the argument buffer holds `nargs * sizeof(ffi_arg)` bytes (8 each on LP64), but slot `n` is written at `n * sizeof(ffi_val)` (16 on x86-64 and aarch64 Linux) | a call with two `uint8` arguments: the second write covers byte 16 of a 16-byte buffer | `nargs * sizeof(ffi_val)` bytes | high where `long double` is 16 bytes, and on ILP32 targets (4-byte `ffi_arg`, union of at least 8 bytes), where even one 64-bit argument overflows; absent only where `sizeof(ffi_val) == sizeof(ffi_arg)` (LP64 with an 8-byte `long double`); not executed | Layout.BufferAsWrittenFitsIff | Layout.BufferFits |
