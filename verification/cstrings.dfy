/** Lua strings may contain NUL characters, but `luaL_checkstring` hands C a pointer to
    them and every comparison in the binding (`strcmp`, `*name == '*'`) stops at the
    first NUL. `CStr` is the string C sees. */
module CStrings {

  const NUL: char := '\0'

  /** The characters before the first NUL: what `strcmp` compares. */
  function CStr(s: string): (c: string)
    ensures |c| <= |s| && c == s[..|c|]
    ensures NUL !in c
    ensures |c| < |s| ==> s[|c|] == NUL
  {
    if s == [] then []
    else if s[0] == NUL then []
    else [s[0]] + CStr(s[1..])
  }

  /** A string without NUL reaches C unchanged, and only such a prefix does. */
  lemma {:induction false} CStrIdentity(s: string)
    ensures CStr(s) == s <==> NUL !in s
  {
    if s != [] && s[0] != NUL {
      CStrIdentity(s[1..]);
      assert NUL in s <==> NUL in s[1..] by {
        assert s == [s[0]] + s[1..];
      }
    }
  }

  /** A C string ends at the first NUL whatever follows it. */
  lemma {:induction false} CStrStopsAtNul(a: string, b: string)
    requires NUL !in a
    ensures CStr(a + [NUL] + b) == a
  {
    if a != [] {
      assert (a + [NUL] + b)[1..] == a[1..] + [NUL] + b;
      CStrStopsAtNul(a[1..], b);
    }
  }
}
