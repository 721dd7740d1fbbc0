/** Splitting text into the maximal runs of characters that are not delimiters. */
module Tokens {

  /** The delimiters of a comma-separated list. */
  const COMMA: set<char> := {','}

  datatype Span = Span(lo: nat, hi: nat)

  /** The end of the delimiter-free run that starts at i. */
  function RunEnd(s: string, d: set<char>, i: nat): (e: nat)
    requires i <= |s|
    ensures i <= e <= |s|
    ensures forall j :: i <= j < e ==> s[j] !in d
    ensures e == |s| || s[e] in d
    decreases |s| - i
  {
    if i == |s| || s[i] in d then i else RunEnd(s, d, i + 1)
  }

  /** The start of the next run at or after i. */
  function SkipEnd(s: string, d: set<char>, i: nat): (e: nat)
    requires i <= |s|
    ensures i <= e <= |s|
    ensures forall j :: i <= j < e ==> s[j] in d
    ensures e == |s| || s[e] !in d
    decreases |s| - i
  {
    if i == |s| || s[i] !in d then i else SkipEnd(s, d, i + 1)
  }

  /** The runs of s from position i on, left to right. */
  function Spans(s: string, d: set<char>, i: nat): (r: seq<Span>)
    requires i <= |s|
    ensures forall k :: 0 <= k < |r| ==> i <= r[k].lo < r[k].hi <= |s|
    decreases |s| - i
  {
    var lo := SkipEnd(s, d, i);
    if lo == |s| then []
    else
      var hi := RunEnd(s, d, lo);
      [Span(lo, hi)] + Spans(s, d, hi)
  }

  /** The texts of the runs of s from position i on. */
  function TokensFrom(s: string, d: set<char>, i: nat): (r: seq<string>)
    requires i <= |s|
    decreases |s| - i
  {
    var lo := SkipEnd(s, d, i);
    if lo == |s| then []
    else
      var hi := RunEnd(s, d, lo);
      [s[lo..hi]] + TokensFrom(s, d, hi)
  }

  function Split(s: string, d: set<char>): seq<string> {
    TokensFrom(s, d, 0)
  }

  predicate DelimFree(s: string, d: set<char>) {
    forall j :: 0 <= j < |s| ==> s[j] !in d
  }

  /** sp is a maximal delimiter-free run of s. */
  predicate IsRun(s: string, d: set<char>, sp: Span) {
    && sp.lo < sp.hi <= |s|
    && (forall j :: sp.lo <= j < sp.hi ==> s[j] !in d)
    && (sp.lo == 0 || s[sp.lo - 1] in d)
    && (sp.hi == |s| || s[sp.hi] in d)
  }

  predicate Ordered(r: seq<Span>) {
    forall k, l :: 0 <= k < l < |r| ==> r[k].lo < r[l].lo
  }

  /** r lists exactly the maximal runs of s, each once, in order. */
  ghost predicate ListsRuns(s: string, d: set<char>, r: seq<Span>) {
    Ordered(r) && forall sp :: sp in r <==> IsRun(s, d, sp)
  }

  /** No run of s crosses position i. */
  predicate Boundary(s: string, d: set<char>, i: nat)
    requires i <= |s|
  {
    i == 0 || i == |s| || s[i - 1] in d || s[i] in d
  }

  /** A run that starts at or after i is the first span or starts after it. */
  lemma FirstRun(s: string, d: set<char>, i: nat, sp: Span)
    requires i <= |s| && Boundary(s, d, i)
    requires IsRun(s, d, sp) && i <= sp.lo
    ensures var lo := SkipEnd(s, d, i);
            lo < |s| && var hi := RunEnd(s, d, lo);
            sp == Span(lo, hi) || hi <= sp.lo
  {
    var lo := SkipEnd(s, d, i);
    assert s[sp.lo] !in d;
    assert lo <= sp.lo;
    var hi := RunEnd(s, d, lo);
    if sp.lo == lo {
      assert sp.hi == hi;
    }
  }

  lemma FirstSpanIsRun(s: string, d: set<char>, i: nat)
    requires i <= |s| && Boundary(s, d, i)
    ensures var lo := SkipEnd(s, d, i);
            lo < |s| ==> IsRun(s, d, Span(lo, RunEnd(s, d, lo)))
  {
    var lo := SkipEnd(s, d, i);
    if i < lo {
      assert s[lo - 1] in d;
    }
  }

  lemma {:induction false} SpansAreRuns(s: string, d: set<char>, i: nat)
    requires i <= |s| && Boundary(s, d, i)
    ensures Ordered(Spans(s, d, i))
    ensures forall sp :: sp in Spans(s, d, i) <==> IsRun(s, d, sp) && i <= sp.lo
    decreases |s| - i
  {
    var lo := SkipEnd(s, d, i);
    if lo < |s| {
      var hi := RunEnd(s, d, lo);
      SpansAreRuns(s, d, hi);
      FirstSpanIsRun(s, d, i);
    }
    forall sp ensures sp in Spans(s, d, i) <==> IsRun(s, d, sp) && i <= sp.lo {
      if IsRun(s, d, sp) && i <= sp.lo {
        FirstRun(s, d, i, sp);
      }
    }
  }

  lemma {:induction false} OrderedUnique(a: seq<Span>, b: seq<Span>)
    requires Ordered(a) && Ordered(b)
    requires forall sp :: sp in a <==> sp in b
    ensures a == b
  {
    assert b != [] ==> b[0] in a;
    assert a != [] ==> a[0] in b;
    if a != [] {
      assert a[0] in b && b != [] && b[0] in a;
      assert a[0] == b[0];
      forall sp ensures sp in a[1..] <==> sp in b[1..] {
        assert sp in a[1..] <==> sp in a && sp != a[0];
        assert sp in b[1..] <==> sp in b && sp != b[0];
      }
      OrderedUnique(a[1..], b[1..]);
    }
  }

  /** The tokeniser's spans are the maximal runs of s in order, and nothing else is. */
  lemma SplitIsMaximalRuns(s: string, d: set<char>, r: seq<Span>)
    ensures ListsRuns(s, d, r) <==> r == Spans(s, d, 0)
  {
    SpansAreRuns(s, d, 0);
    if ListsRuns(s, d, r) {
      OrderedUnique(r, Spans(s, d, 0));
    }
  }

  lemma {:induction false} TokensAreSpanTexts(s: string, d: set<char>, i: nat)
    requires i <= |s|
    ensures |TokensFrom(s, d, i)| == |Spans(s, d, i)|
    ensures forall k :: 0 <= k < |Spans(s, d, i)| ==>
              TokensFrom(s, d, i)[k] == s[Spans(s, d, i)[k].lo..Spans(s, d, i)[k].hi]
    decreases |s| - i
  {
    var lo := SkipEnd(s, d, i);
    if lo < |s| {
      TokensAreSpanTexts(s, d, RunEnd(s, d, lo));
    }
  }

  /** No token is empty and no token holds a delimiter. */
  lemma {:induction false} TokensAreWords(s: string, d: set<char>, i: nat)
    requires i <= |s|
    ensures forall t :: t in TokensFrom(s, d, i) ==> t != [] && DelimFree(t, d)
    decreases |s| - i
  {
    var lo := SkipEnd(s, d, i);
    if lo < |s| {
      var hi := RunEnd(s, d, lo);
      assert DelimFree(s[lo..hi], d);
      TokensAreWords(s, d, hi);
    }
  }

  /** One token off the front. */
  lemma TokensStep(s: string, d: set<char>, i: nat, lo: nat, hi: nat)
    requires i <= |s| && lo == SkipEnd(s, d, i) && lo < |s| && hi == RunEnd(s, d, lo)
    ensures TokensFrom(s, d, i) == [s[lo..hi]] + TokensFrom(s, d, hi)
  {
  }

  lemma TokensNone(s: string, d: set<char>, i: nat)
    requires i <= |s| && SkipEnd(s, d, i) == |s|
    ensures TokensFrom(s, d, i) == []
  {
  }

  /** The tokens of `s + t` from position |s| + i on are those of t from i on. */
  lemma {:induction false} TokensShift(s: string, t: string, d: set<char>, i: nat)
    requires i <= |t|
    ensures TokensFrom(s + t, d, |s| + i) == TokensFrom(t, d, i)
    decreases |t| - i
  {
    hide TokensFrom, SkipEnd, RunEnd;
    SkipShift(s, t, d, i);
    var lo := SkipEnd(t, d, i);
    if lo < |t| {
      RunShift(s, t, d, lo);
      var hi := RunEnd(t, d, lo);
      TokensStep(t, d, i, lo, hi);
      TokensStep(s + t, d, |s| + i, |s| + lo, |s| + hi);
      TokensShift(s, t, d, hi);
      assert (s + t)[|s| + lo..|s| + hi] == t[lo..hi];
    } else {
      TokensNone(t, d, i);
      TokensNone(s + t, d, |s| + i);
    }
  }

  lemma {:induction false} SkipShift(s: string, t: string, d: set<char>, i: nat)
    requires i <= |t|
    ensures SkipEnd(s + t, d, |s| + i) == |s| + SkipEnd(t, d, i)
    decreases |t| - i
  {
    if i < |t| && t[i] in d {
      assert (s + t)[|s| + i] == t[i];
      SkipShift(s, t, d, i + 1);
    }
  }

  lemma {:induction false} RunShift(s: string, t: string, d: set<char>, i: nat)
    requires i <= |t|
    ensures RunEnd(s + t, d, |s| + i) == |s| + RunEnd(t, d, i)
    decreases |t| - i
  {
    if i < |t| && t[i] !in d {
      assert (s + t)[|s| + i] == t[i];
      RunShift(s, t, d, i + 1);
    }
  }

  /** A delimiter is never part of a token. */
  lemma TokensSkip(s: string, d: set<char>, i: nat)
    requires i < |s| && s[i] in d
    ensures TokensFrom(s, d, i) == TokensFrom(s, d, i + 1)
  {
    assert SkipEnd(s, d, i) == SkipEnd(s, d, i + 1);
  }

  lemma TokensEmpty(d: set<char>)
    ensures Split([], d) == []
  {
  }

  /** A word, a delimiter and more text: the word is the first token. */
  lemma SplitCons(w: string, c: char, t: string, d: set<char>)
    requires w != [] && DelimFree(w, d) && c in d
    ensures Split(w + [c] + t, d) == [w] + Split(t, d)
  {
    var s := w + [c] + t;
    assert s[0] == w[0];
    assert SkipEnd(s, d, 0) == 0;
    assert forall j :: 0 <= j < |w| ==> s[j] == w[j];
    assert s[|w|] == c;
    RunEndAt(s, d, 0, |w|);
    TokensSkip(s, d, |w|);
    TokensShift(w + [c], t, d, 0);
    assert s[0..|w|] == w;
  }

  lemma {:induction false} RunEndAt(s: string, d: set<char>, i: nat, e: nat)
    requires i <= e <= |s|
    requires forall j :: i <= j < e ==> s[j] !in d
    requires e == |s| || s[e] in d
    ensures RunEnd(s, d, i) == e
    decreases e - i
  {
    if i < e {
      RunEndAt(s, d, i + 1, e);
    }
  }

  lemma SplitWord(w: string, d: set<char>)
    requires w != [] && DelimFree(w, d)
    ensures Split(w, d) == [w]
  {
    assert SkipEnd(w, d, 0) == 0;
    RunEndAt(w, d, 0, |w|);
    assert SkipEnd(w, d, |w|) == |w|;
    assert w[0..|w|] == w;
    assert TokensFrom(w, d, 0) == [w] + TokensFrom(w, d, |w|);
    assert SkipEnd(w, d, |w|) == |w|;
  }

  /** A text is its own only token exactly when no delimiter is in it. */
  lemma SplitWhole(s: string, d: set<char>)
    requires s != ""
    ensures Split(s, d) == [s] <==> DelimFree(s, d)
  {
    if DelimFree(s, d) {
      SplitWord(s, d);
    } else {
      TokensAreWords(s, d, 0);
      assert s in [s];
    }
  }

  /** Only a comma splits a comma-separated list: anything else is part of an item. */
  lemma OneItem(list: string)
    requires list != ""
    ensures Split(list, COMMA) == [list] <==> ',' !in list
  {
    SplitWhole(list, COMMA);
  }

  lemma SplitSkip(c: char, t: string, d: set<char>)
    requires c in d
    ensures Split([c] + t, d) == Split(t, d)
  {
    TokensSkip([c] + t, d, 0);
    TokensShift([c], t, d, 0);
  }

  /** A text that starts with a word: the word, one delimiter and the rest, or the word alone. */
  lemma FirstWord(s: string, d: set<char>) returns (w: string, u: string)
    requires s != [] && s[0] !in d
    ensures w != [] && DelimFree(w, d)
    ensures s == w || (|w| < |s| && s[|w|] in d && s == w + [s[|w|]] + u)
  {
    var e := RunEnd(s, d, 0);
    w := s[..e];
    u := if e < |s| then s[e + 1..] else [];
  }

  /** Splitting distributes over a delimiter between two texts. */
  lemma {:induction false} SplitConcat(s: string, c: char, t: string, d: set<char>)
    requires c in d
    ensures Split(s + [c] + t, d) == Split(s, d) + Split(t, d)
    decreases |s|
  {
    hide Split;
    if s == [] {
      TokensEmpty(d);
      assert s + [c] + t == [c] + t;
      SplitSkip(c, t, d);
    } else if s[0] in d {
      assert s == [s[0]] + s[1..];
      assert s + [c] + t == [s[0]] + (s[1..] + [c] + t);
      SplitSkip(s[0], s[1..], d);
      SplitSkip(s[0], s[1..] + [c] + t, d);
      SplitConcat(s[1..], c, t, d);
    } else {
      var w, u := FirstWord(s, d);
      if s == w {
        SplitWord(s, d);
        SplitCons(s, c, t, d);
      } else {
        var x := s[|w|];
        assert s + [c] + t == w + [x] + (u + [c] + t);
        SplitCons(w, x, u, d);
        SplitCons(w, x, u + [c] + t, d);
        SplitConcat(u, c, t, d);
      }
    }
  }

  /** Delimiters that do not occur in the text make no difference. */
  lemma {:induction false} SplitSameDelims(s: string, d: set<char>, e: set<char>, i: nat)
    requires i <= |s|
    requires forall j :: 0 <= j < |s| ==> (s[j] in d <==> s[j] in e)
    ensures TokensFrom(s, d, i) == TokensFrom(s, e, i)
    decreases |s| - i
  {
    SameEnds(s, d, e, i);
    var lo := SkipEnd(s, d, i);
    if lo < |s| {
      SameEnds(s, d, e, lo);
      SplitSameDelims(s, d, e, RunEnd(s, d, lo));
    }
  }

  lemma {:induction false} SameEnds(s: string, d: set<char>, e: set<char>, i: nat)
    requires i <= |s|
    requires forall j :: 0 <= j < |s| ==> (s[j] in d <==> s[j] in e)
    ensures SkipEnd(s, d, i) == SkipEnd(s, e, i) && RunEnd(s, d, i) == RunEnd(s, e, i)
    decreases |s| - i
  {
    if i < |s| {
      SameEnds(s, d, e, i + 1);
    }
  }
}
