/** The argument buffer of `luaffi_call`: one `ffi_val` per declared argument,
    reached as `argval[n]`, so slot `n` starts `n * sizeof(ffi_val)` bytes in. The
    buffer is sized `nargs * sizeof(ffi_arg)`, which is smaller than that, and the
    corrected size `nargs * sizeof(ffi_val)`. */
module Layout {
  import opened Wrappers
  import opened Registry
  import opened Marshal
  import opened Invoker

  /** `sizeof(ffi_arg)` on LP64 targets: libffi's unsigned integer of pointer width. */
  const SizeofArg: nat := 8

  /** The widest member the argument loop ever assigns (`uint64_t`, `int64_t`,
      `double`, `void *`); `long double` is never written there. */
  const WidestWrite: nat := 8

  /** A write of `width` bytes to `argval[n]` stays inside a buffer of `size` bytes. */
  predicate WriteFits(size: nat, n: nat, width: nat)
  {
    n * SizeofVal + width <= size
  }

  /** Every slot `0 <= n < nargs` takes a write of `width` bytes inside the buffer. */
  predicate AllWritesFit(size: nat, nargs: nat, width: nat)
  {
    forall n :: 0 <= n < nargs ==> WriteFits(size, n, width)
  }

  /** The allocation as written: `malloc(nargs * sizeof(ffi_arg))`. */
  function BufferAsWritten(nargs: nat): (size: nat)
    ensures nargs > 0 ==> size < nargs * SizeofVal
  {
    nargs * SizeofArg
  }

  /** The corrected allocation: `malloc(nargs * sizeof(ffi_val))`. */
  function Buffer(nargs: nat): (size: nat)
    ensures size == 0 <==> nargs == 0
  {
    nargs * SizeofVal
  }

  /** As written, the writes of a call fit exactly when it has at most one argument:
      from the second argument on, even a one-byte member lands past the end. */
  lemma BufferAsWrittenFitsIff(nargs: nat, width: nat)
    requires 1 <= width <= WidestWrite
    ensures AllWritesFit(BufferAsWritten(nargs), nargs, width) <==> nargs <= 1
  {
    if nargs >= 2 {
      var n := nargs - 1;
      assert n * 16 + width > nargs * 8;
      assert !WriteFits(BufferAsWritten(nargs), n, width);
    } else {
      forall n | 0 <= n < nargs
        ensures WriteFits(BufferAsWritten(nargs), n, width)
      {
        assert n == 0;
      }
    }
  }

  /** The smallest witness: two `uint8` arguments; the second one's byte is at offset
      16 of a 16-byte buffer. */
  lemma BufferAsWrittenCounterexample()
    ensures BufferAsWritten(2) == 16
    ensures !WriteFits(BufferAsWritten(2), 1, Width(UInt8))
  {
  }

  /** With the corrected size every write of any member up to a whole union fits. */
  lemma BufferFits(nargs: nat, width: nat)
    requires width <= SizeofVal
    ensures AllWritesFit(Buffer(nargs), nargs, width)
  {
    forall n | 0 <= n < nargs
      ensures WriteFits(Buffer(nargs), n, width)
    {
      assert n * 16 + width <= (n + 1) * 16;
      assert (n + 1) * 16 <= nargs * 16;
    }
  }

  /** And it is the least size that holds a whole union in every slot. */
  lemma BufferMinimal(size: nat, nargs: nat)
    requires AllWritesFit(size, nargs, SizeofVal)
    ensures Buffer(nargs) <= size
  {
    if nargs > 0 {
      assert WriteFits(size, nargs - 1, SizeofVal);
      assert (nargs - 1) * 16 + 16 == nargs * 16;
    }
  }

  /** The bytes the argument loop writes into a slot: an integer member's width,
      `sizeof(float)` or `sizeof(double)`, or `sizeof(void *)` on LP64 targets;
      nothing for a slot the switch leaves alone. */
  function WriteWidth(s: ArgSlot): (w: nat)
    ensures s.Foreign? ==> w <= WidestWrite
    ensures s.Unwritten? ==> w == 0
  {
    match s
    case Member(bytes) => |bytes|
    case Foreign(tag, _) => if tag == Float then 4 else 8
    case Unwritten => 0
  }

  /** The slots the argument loop produces all fit the corrected buffer: slot `j`'s
      write, integer member or float, double or pointer value, goes at
      `j * sizeof(ffi_val)`, inside `Buffer(nargs)`. */
  lemma EncodedSlotsFit(kinds: seq<Option<TypeTag>>, args: seq<LuaValue>)
    requires EncodeArgs(kinds, args, 0).Success?
    ensures var slots := EncodeArgs(kinds, args, 0).value;
            forall j :: 0 <= j < |slots| ==> WriteFits(Buffer(|kinds|), j, WriteWidth(slots[j]))
  {
    var slots := EncodeArgs(kinds, args, 0).value;
    forall j | 0 <= j < |slots|
      ensures WriteFits(Buffer(|kinds|), j, WriteWidth(slots[j]))
    {
      if slots[j].Member? {
        var e := EncodeArg(kinds[j], ArgAt(args, j), j);
        assert e == Success(slots[j]);
        assert kinds[j].Some? && IsInteger(kinds[j].value);
      }
      BufferFits(|kinds|, WriteWidth(slots[j]));
    }
  }
}
