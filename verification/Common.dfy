/** Values shared by every tool: optional results, C characters and C string comparison. */
module Common {

  datatype Option<+T> = None | Some(value: T) {
    predicate IsFailure() {
      None?
    }

    function PropagateFailure<U>(): Option<U>
      requires None?
    {
      None
    }

    function Extract(): T
      requires Some?
    {
      value
    }
  }

  lemma Glue(p: string, x: string, y: string)
    ensures (p + x) + y == p + (x + y)
  {
  }

  /** The byte that ends a C string. */
  const NUL: char := '\0'

  type U8 = x: int | 0 <= x < 0x100
  type U16 = x: int | 0 <= x < 0x1_0000
  type U32 = x: int | 0 <= x < 0x1_0000_0000
  type U64 = x: int | 0 <= x < 0x1_0000_0000_0000_0000

  /** The text a `char *` to the start of `s` denotes: everything before the first NUL. */
  function UntilNul(s: string): (t: string)
    ensures |t| <= |s| && t == s[..|t|]
    ensures NUL !in t
    ensures |t| < |s| ==> s[|t|] == NUL
    ensures NUL in s ==> |t| < |s|
  {
    if s == [] || s[0] == NUL then [] else [s[0]] + UntilNul(s[1..])
  }

  /** A buffer that starts with `t` and then a NUL denotes `t`, whatever follows. */
  lemma {:induction false} UntilNulOf(s: string, t: string)
    requires |t| < |s| && s[..|t|] == t && s[|t|] == NUL && NUL !in t
    ensures UntilNul(s) == t
  {
    if t != [] {
      assert s[0] == t[0];
      UntilNulOf(s[1..], t[1..]);
    }
  }

  /** A NUL after t ends the string no later than there. */
  lemma {:induction false} UntilNulPrefix(s: string, t: string)
    requires |t| < |s| && s[..|t|] == t && s[|t|] == NUL
    ensures UntilNul(s) == UntilNul(t)
  {
    if t != [] {
      assert s[0] == t[0];
      if t[0] != NUL {
        UntilNulPrefix(s[1..], t[1..]);
      }
    }
  }

  lemma {:induction false} UntilNulWhole(s: string)
    requires NUL !in s
    ensures UntilNul(s) == s
  {
    if s != [] {
      assert s[0] in s;
      assert NUL !in s[1..];
      UntilNulWhole(s[1..]);
    }
  }

  /** `!strncmp(s, t, n)`: at most n characters are compared, and the terminator counts. */
  predicate StrnEq(s: string, t: string, n: nat) {
    Take(s, n) == Take(t, n)
  }

  function Take(s: string, n: nat): string {
    if |s| <= n then s else s[..n]
  }

  /** `!strncmp(s, t, strlen(t))` asks whether s starts with t. */
  lemma StrnEqPrefix(s: string, t: string)
    ensures StrnEq(s, t, |t|) <==> t <= s
  {
  }

  /** One character more than the keyword and the test is for equality. */
  lemma StrnEqWhole(s: string, t: string)
    ensures StrnEq(s, t, |t| + 1) <==> s == t
  {
    if |s| > |t| {
      assert |Take(s, |t| + 1)| == |t| + 1;
    }
  }
}
