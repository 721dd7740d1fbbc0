/** logger and watch: two strcat loops that build the same space-joined text. */
module Join {
  import opened Common
  import opened Tokens
  import opened StrtokLib

  const SPACE: set<char> := {' '}

  /** The words separated by single spaces. */
  function Joined(words: seq<string>): string {
    if words == [] then ""
    else if |words| == 1 then words[0]
    else words[0] + " " + Joined(words[1..])
  }

  predicate CStrings(words: seq<string>) {
    forall w :: w in words ==> NUL !in w
  }

  lemma JoinedCons(words: seq<string>)
    requires |words| > 1
    ensures Joined(words) == words[0] + " " + Joined(words[1..])
  {
  }

  lemma {:induction false} JoinedSnoc(words: seq<string>, w: string)
    ensures Joined(words + [w]) == if words == [] then w else Joined(words) + " " + w
  {
    if words == [] {
      assert words + [w] == [w];
    } else if |words| == 1 {
      assert (words + [w])[1..] == [w];
      JoinedCons(words + [w]);
    } else {
      assert (words + [w])[1..] == words[1..] + [w];
      JoinedSnoc(words[1..], w);
      JoinedCons(words);
      JoinedCons(words + [w]);
      var rest := Joined(words[1..]);
      Glue(words[0] + " ", rest, " ");
      Glue(words[0] + " ", rest + " ", w);
    }
  }

  /** One space stands between any two neighbours, and nothing else is added. */
  lemma {:induction false} JoinedConcat(a: seq<string>, b: seq<string>)
    requires a != [] && b != []
    ensures Joined(a + b) == Joined(a) + " " + Joined(b)
    ensures |a| == 1 ==> Joined(a) == a[0]
  {
    if |b| == 1 {
      assert b == [b[0]];
      JoinedSnoc(a, b[0]);
    } else {
      var init, last := b[..|b| - 1], b[|b| - 1];
      assert b == init + [last] && a + b == (a + init) + [last];
      JoinedConcat(a, init);
      JoinedSnoc(a + init, last);
      JoinedSnoc(init, last);
      hide Joined;
      Glue(Joined(a) + " ", Joined(init), " ");
      Glue(Joined(a) + " ", Joined(init) + " ", last);
    }
  }

  /** The joined text can be taken apart again exactly when no word is empty or holds a space. */
  lemma JoinedSplits(words: seq<string>)
    ensures Split(Joined(words), SPACE) == words <==>
            forall w :: w in words ==> w != "" && DelimFree(w, SPACE)
  {
    if forall w :: w in words ==> w != "" && DelimFree(w, SPACE) {
      WordsSplit(words);
    } else {
      TokensAreWords(Joined(words), SPACE, 0);
    }
  }

  lemma {:induction false} WordsSplit(words: seq<string>)
    requires forall w :: w in words ==> w != "" && DelimFree(w, SPACE)
    ensures Split(Joined(words), SPACE) == words
  {
    hide Split;
    if words == [] {
      TokensEmpty(SPACE);
    } else if |words| == 1 {
      assert words[0] in words;
      SplitWord(words[0], SPACE);
    } else {
      assert words[0] in words && forall w :: w in words[1..] ==> w in words;
      SplitCons(words[0], ' ', Joined(words[1..]), SPACE);
      WordsSplit(words[1..]);
    }
  }

  /** The position of the terminator. */
  method FindNul(a: array<char>) returns (n: nat)
    requires NUL in a[..]
    ensures n == |UntilNul(a[..])| < a.Length && a[n] == NUL && a[..n] == UntilNul(a[..])
  {
    hide UntilNul;
    ghost var s := UntilNul(a[..]);
    assert forall k :: 0 <= k < |s| ==> a[k] == s[k] && s[k] in s;
    n := 0;
    while a[n] != NUL
      invariant n <= |s|
      decreases |s| - n
    {
      assert a[|s|] == NUL;
      n := n + 1;
    }
    assert n == |s|;
  }

  /** strcat: t is written over the terminator, and a new one after it. */
  method Strcat(a: array<char>, t: string)
    requires NUL in a[..] && NUL !in t && |UntilNul(a[..])| + |t| < a.Length
    modifies a
    ensures UntilNul(a[..]) == UntilNul(old(a[..])) + t
    ensures NUL in a[..]
  {
    hide UntilNul;
    var n := FindNul(a);
    ghost var s := UntilNul(a[..]);
    for i := 0 to |t|
      invariant a[..n] == s
      invariant a[n..n + i] == t[..i]
    {
      a[n + i] := t[i];
    }
    a[n + |t|] := NUL;
    assert a[..][..n + |t|] == a[..n] + a[n..n + |t|] == s + t;
    UntilNulOf(a[..], s + t);
    assert a[..][n + |t|] == NUL;
  }

  /** calloc: a buffer of n zero bytes. */
  method Calloc(n: nat) returns (a: array<char>)
    requires n > 0
    ensures fresh(a) && a.Length == n && NUL in a[..] && UntilNul(a[..]) == ""
  {
    a := new char[n](_ => NUL);
    assert a[..][0] == NUL;
    UntilNulOf(a[..], "");
  }

  // ---------- logger ----------

  datatype LoggerOutcome = Help | Version | Logged(text: string)

  predicate IsOption(w: string) {
    w == "-h" || w == "-v"
  }

  /** What logger's buffer holds before the last space is cut off. */
  function Padded(words: seq<string>): string {
    if words == [] then "" else Padded(words[..|words| - 1]) + words[|words| - 1] + " "
  }

  lemma PaddedSnoc(words: seq<string>, i: nat)
    requires i < |words|
    ensures Padded(words[..i + 1]) == Padded(words[..i]) + words[i] + " "
  {
    assert words[..i + 1][..i] == words[..i];
  }

  lemma {:induction false} PaddedIsJoined(words: seq<string>)
    requires words != []
    ensures Padded(words) == Joined(words) + " "
  {
    hide Joined;
    var init, last := words[..|words| - 1], words[|words| - 1];
    assert words == init + [last];
    JoinedSnoc(init, last);
    assert Padded(words) == Padded(init) + last + " ";
    if init == [] {
      PaddedNothing();
    } else {
      PaddedIsJoined(init);
    }
  }

  lemma {:induction false} PaddedChars(words: seq<string>)
    requires CStrings(words)
    ensures NUL !in Padded(words)
  {
    if words != [] {
      PaddedChars(words[..|words| - 1]);
      assert words[|words| - 1] in words;
    }
  }

  lemma JoinedChars(words: seq<string>)
    requires CStrings(words)
    ensures NUL !in Joined(words)
  {
    if words != [] {
      PaddedChars(words);
      PaddedIsJoined(words);
      assert forall c :: c in Joined(words) ==> c in Padded(words);
    }
  }

  /** The first of the words that is an option. */
  function FirstOption(words: seq<string>): (k: nat)
    ensures k <= |words|
    ensures forall j :: 0 <= j < k ==> !IsOption(words[j])
    ensures k < |words| ==> IsOption(words[k])
  {
    if words == [] || IsOption(words[0]) then 0 else 1 + FirstOption(words[1..])
  }

  /** The counting loop: one option word ends the program, otherwise the size is the length of
      the joined text plus one. */
  method Measure(words: seq<string>) returns (option: nat, totalSize: nat)
    ensures option == FirstOption(words)
    ensures option == |words| > 0 ==> totalSize == |Joined(words)| + 1
  {
    hide IsOption;
    totalSize := 0;
    option := 0;
    while option < |words|
      invariant option <= |words| && option <= FirstOption(words)
      invariant totalSize == |Padded(words[..option])|
    {
      if IsOption(words[option]) {
        return;
      }
      PaddedSnoc(words, option);
      totalSize := totalSize + |words[option]| + 1;
      option := option + 1;
    }
    assert words[..|words|] == words;
    if words != [] {
      PaddedIsJoined(words);
    }
  }

  /** logger with at least one argument. */
  method Logger(words: seq<string>) returns (out: LoggerOutcome)
    requires words != [] && CStrings(words)
    ensures (forall w :: w in words ==> w != "-h" && w != "-v") ==> out == Logged(Joined(words))
    ensures forall k :: 0 <= k < |words| && (forall j :: 0 <= j < k ==> words[j] != "-h" && words[j] != "-v") ==>
              (words[k] == "-h" ==> out == Help) && (words[k] == "-v" ==> out == Version)
  {
    hide UntilNul, Joined, Padded, FirstOption;
    var option, totalSize := Measure(words);
    if option < |words| {
      assert IsOption(words[option]) && words[option] in words;
      return if words[option] == "-h" then Help else Version;
    }
    PaddedIsJoined(words);
    JoinedChars(words);
    var buf := Calloc(totalSize + 1);
    PaddedNothing();
    assert words[..0] == [];
    for i := 0 to |words|
      invariant NUL in buf[..] && UntilNul(buf[..]) == Padded(words[..i])
    {
      PaddedSnoc(words, i);
      PaddedPrefix(words, i + 1);
      assert words[i] in words;
      Strcat(buf, words[i]);
      Strcat(buf, " ");
    }
    assert words[..|words|] == words;
    assert buf[..][..|Padded(words)|] == Padded(words);
    buf[totalSize - 1] := NUL;
    assert buf[..][..totalSize - 1] == Joined(words);
    UntilNulOf(buf[..], Joined(words));
    out := Logged(UntilNul(buf[..]));
  }

  lemma PaddedNothing()
    ensures Padded([]) == ""
  {
  }

  lemma {:induction false} PaddedPrefix(words: seq<string>, i: nat)
    requires i <= |words|
    ensures |Padded(words[..i])| <= |Padded(words)|
  {
    if i == |words| {
      assert words[..i] == words;
    } else {
      var init := words[..|words| - 1];
      assert words[..i] == init[..i];
      PaddedPrefix(init, i);
    }
  }

  // ---------- watch ----------

  /** watch: the command line as one string, and its measured length. */
  method Watch(words: seq<string>) returns (text: string, cmdLen: nat)
    requires words != [] && CStrings(words)
    ensures text == Joined(words) && cmdLen == |Joined(words)|
  {
    hide UntilNul, Joined;
    cmdLen := |words[0]|;
    JoinedFirst(words);
    for i := 1 to |words|
      invariant cmdLen == |Joined(words[..i])|
    {
      JoinedUpTo(words, i);
      cmdLen := cmdLen + 1 + |words[i]|;
    }
    assert words[..|words|] == words;
    var buf := Calloc(cmdLen + 1);
    assert words[0] in words;
    JoinedPrefix(words, 1);
    Strcat(buf, words[0]);
    for i := 1 to |words|
      invariant NUL in buf[..] && UntilNul(buf[..]) == Joined(words[..i])
    {
      JoinedUpTo(words, i);
      JoinedPrefix(words, i + 1);
      assert words[i] in words;
      Strcat(buf, " ");
      Strcat(buf, words[i]);
    }
    text := UntilNul(buf[..]);
  }

  lemma JoinedFirst(words: seq<string>)
    requires words != []
    ensures Joined(words[..1]) == words[0]
  {
  }

  lemma JoinedUpTo(words: seq<string>, i: nat)
    requires 0 < i < |words|
    ensures Joined(words[..i + 1]) == Joined(words[..i]) + " " + words[i]
  {
    assert words[..i + 1] == words[..i] + [words[i]];
    JoinedSnoc(words[..i], words[i]);
  }

  lemma JoinedPrefix(words: seq<string>, i: nat)
    requires 0 < i <= |words|
    ensures |Joined(words[..i])| <= |Joined(words)|
  {
    PaddedPrefix(words, i);
    PaddedIsJoined(words);
    PaddedIsJoined(words[..i]);
  }
}
