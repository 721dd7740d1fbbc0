/** The C library's strtok (section 7.24.5.8 of ISO/IEC 9899:2011): a tokeniser that writes
    terminators into the caller's buffer and remembers where to go on. */
module StrtokLib {
  import opened Common
  import opened Tokens

  class Strtok {
    var buf: array<char>
    var pos: nat          // the saved position
    ghost var text: string // what the buffer held when scanning began

    /** Everything from the saved position on is still as the caller passed it. */
    ghost predicate Valid()
      reads this, buf
    {
      && pos <= |text| < buf.Length
      && NUL !in text
      && buf[|text|] == NUL
      && buf[pos..|text|] == text[pos..]
    }

    constructor ()
      ensures Valid() && text == [] && pos == 0 && fresh(buf)
    {
      buf := new char[1](_ => NUL);
      pos := 0;
      text := [];
    }

    /** Starts on a new string. */
    method Begin(s: array<char>)
      requires NUL in s[..]
      modifies this
      ensures Valid() && buf == s && pos == 0 && text == UntilNul(s[..])
    {
      buf, pos, text := s, 0, UntilNul(s[..]);
    }

    /** `strtok(s, d)`: the first token of the string in s. */
    method First(s: array<char>, d: set<char>) returns (tok: Option<string>)
      requires NUL in s[..] && NUL !in d
      modifies this, s
      ensures Valid() && buf == s && text == UntilNul(old(s[..]))
      ensures Split(text, d) == if tok.None? then [] else [tok.value] + TokensFrom(text, d, pos)
    {
      Begin(s);
      tok := Next(d);
    }

    /** What lies at or after the saved position is read as the caller passed it. */
    lemma UnreadChar(k: nat)
      requires Valid() && pos <= k <= |text|
      ensures k < |text| ==> buf[k] == text[k]
      ensures buf[k] == NUL <==> k == |text|
    {
      if k < |text| {
        assert buf[pos..|text|][k - pos] == text[pos..][k - pos];
        assert text[k] in text;
      }
    }

    /** Skips delimiters from the saved position. */
    method SkipDelims(d: set<char>) returns (lo: nat)
      requires Valid()
      ensures lo == SkipEnd(text, d, pos)
      ensures buf[lo] == NUL <==> lo == |text|
    {
      lo := pos;
      UnreadChar(lo);
      while buf[lo] != NUL && buf[lo] in d
        invariant pos <= lo <= |text|
        invariant SkipEnd(text, d, pos) == SkipEnd(text, d, lo)
        invariant lo < |text| ==> buf[lo] == text[lo]
        invariant buf[lo] == NUL <==> lo == |text|
        decreases |text| - lo
      {
        lo := lo + 1;
        UnreadChar(lo);
      }
    }

    /** Finds the end of the run that starts at lo. */
    method FindEnd(d: set<char>, lo: nat) returns (hi: nat)
      requires Valid() && pos <= lo <= |text|
      ensures hi == RunEnd(text, d, lo)
      ensures buf[hi] == NUL <==> hi == |text|
      ensures buf[lo..hi] == text[lo..hi]
    {
      hi := lo;
      UnreadChar(hi);
      while buf[hi] != NUL && buf[hi] !in d
        invariant lo <= hi <= |text|
        invariant RunEnd(text, d, lo) == RunEnd(text, d, hi)
        invariant hi < |text| ==> buf[hi] == text[hi]
        invariant buf[hi] == NUL <==> hi == |text|
        invariant buf[lo..hi] == text[lo..hi]
        decreases |text| - hi
      {
        hi := hi + 1;
        UnreadChar(hi);
      }
    }

    /** `strtok(NULL, d)`: the next token, NUL-terminated in place, or None at the end. The
        position moves past the token, so no consumed character is looked at again. */
    method Next(d: set<char>) returns (tok: Option<string>)
      requires Valid() && NUL !in d
      modifies this`pos, buf
      ensures Valid() && old(pos) <= pos
      ensures tok.Some? ==> old(pos) < pos
      ensures TokensFrom(text, d, old(pos)) ==
              if tok.None? then [] else [tok.value] + TokensFrom(text, d, pos)
      ensures tok.None? ==> pos == |text| && buf[..] == old(buf[..])
      ensures tok.Some? ==>
                var lo := SkipEnd(text, d, old(pos));
                lo < |text| && var hi := RunEnd(text, d, lo);
                && tok.value == text[lo..hi] == UntilNul(buf[lo..])
                && pos == (if hi < |text| then hi + 1 else hi)
                && buf[..] == old(buf[..])[hi := NUL]
    {
      hide TokensFrom, SkipEnd, RunEnd, UntilNul;
      var lo := SkipDelims(d);
      if buf[lo] == NUL {
        TokensNone(text, d, pos);
        pos := lo;
        return None;
      }
      var hi := FindEnd(d, lo);
      TokensStep(text, d, pos, lo, hi);
      var t := buf[lo..hi];
      assert NUL !in t;
      ghost var unread := buf[pos..|text|];
      pos := if buf[hi] == NUL then hi else hi + 1;
      buf[hi] := NUL;
      assert buf[pos..|text|] == unread[pos - old(pos)..] == text[pos..];
      if hi < |text| {
        TokensSkip(text, d, hi);
      }
      assert buf[lo..][..hi - lo] == t && buf[lo..][hi - lo] == NUL;
      UntilNulOf(buf[lo..], t);
      tok := Some(t);
    }
  }

  /** The tokens a strtok loop has still to look at: the one in hand and the unread ones. */
  ghost function Pending(st: Strtok, tok: Option<string>, d: set<char>): (r: seq<string>)
    requires st.Valid()
    reads st, st.buf
  {
    match tok
    case None => []
    case Some(t) => [t] + TokensFrom(st.text, d, st.pos)
  }

  /** A fresh buffer of n bytes that holds the text and its terminator. */
  method NewBuffer(t: string, n: nat) returns (a: array<char>)
    requires |t| < n
    ensures fresh(a) && a.Length == n && a[..|t|] == t && a[|t|] == NUL
    ensures NUL !in t ==> UntilNul(a[..]) == t
  {
    a := new char[n](_ => NUL);
    for i := 0 to |t|
      invariant a[..i] == t[..i]
    {
      a[i] := t[i];
    }
    a[|t|] := NUL;
    if NUL !in t {
      assert a[..][..|t|] == t;
      UntilNulOf(a[..], t);
    }
  }
}
