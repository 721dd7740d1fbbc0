/** The fstab reader seen line by line: what fgets's 150-byte buffer makes of lines of any
    length, and of comments in particular. */
module FstabLines {
  import opened Common
  import opened Tokens
  import opened MountFlags
  import opened Devices
  import opened Fstab

  function Unlines(lines: seq<string>): string {
    if lines == [] then "" else lines[0] + "\n" + Unlines(lines[1..])
  }

  predicate NewlineFree(s: string) {
    forall i :: 0 <= i < |s| ==> s[i] != '\n'
  }

  /** The terminated lines of a file, without their newlines, and what follows the last newline. */
  function LinesIn(f: string): (r: (seq<string>, string))
    ensures Unlines(r.0) + r.1 == f
    ensures (forall l :: l in r.0 ==> NewlineFree(l)) && NewlineFree(r.1)
    decreases |f|
  {
    var e := RunEnd(f, {'\n'}, 0);
    if e == |f| then ([], f)
    else
      var r := LinesIn(f[e + 1..]);
      assert Unlines([f[..e]] + r.0) + r.1 == f by { SplitLineOff(f, e, r.0, r.1); }
      ([f[..e]] + r.0, r.1)
  }

  lemma SplitLineOff(f: string, e: nat, lines: seq<string>, last: string)
    requires e < |f| && f[e] == '\n' && Unlines(lines) + last == f[e + 1..]
    ensures Unlines([f[..e]] + lines) + last == f
  {
    assert ([f[..e]] + lines)[1..] == lines;
    Glue(f[..e] + "\n", Unlines(lines), last);
    assert f[..e] + "\n" + f[e + 1..] == f;
  }

  /** What fgets makes of a line with its newline: 149 characters at a time. */
  function Pieces(s: string): seq<string>
    decreases |s|
  {
    if |s| < BUFFER_SIZE then [s]
    else [s[..BUFFER_SIZE - 1]] + Pieces(s[BUFFER_SIZE - 1..])
  }

  function Flatten(pieces: seq<string>): string {
    if pieces == [] then "" else pieces[0] + Flatten(pieces[1..])
  }

  /** The pieces make up the line, and all but the last have 149 characters. */
  lemma {:induction false} PiecesMeaning(s: string)
    ensures Flatten(Pieces(s)) == s
    ensures forall k :: 0 <= k < |Pieces(s)| ==> |Pieces(s)[k]| <= 149
    ensures forall k :: 0 <= k < |Pieces(s)| - 1 ==> |Pieces(s)[k]| == 149
    decreases |s|
  {
    if |s| < BUFFER_SIZE {
      assert Flatten([s]) == s + Flatten([s][1..]);
    } else {
      var p, t := s[..BUFFER_SIZE - 1], s[BUFFER_SIZE - 1..];
      PiecesMeaning(t);
      assert Pieces(s) == [p] + Pieces(t) && ([p] + Pieces(t))[1..] == Pieces(t);
      assert s == p + t;
    }
  }

  function FilePieces(lines: seq<string>, last: string): seq<string> {
    if lines != [] then Pieces(lines[0] + "\n") + FilePieces(lines[1..], last)
    else if last == "" then []
    else Pieces(last)
  }

  /** Comments, single characters (a blank line's newline among them) and at least six fields. */
  predicate WellFormed(piece: string) {
    var t := UntilNul(piece);
    |t| == 1 || (t != "" && t[0] == '#') || |Split(t, SPACES)| >= 6
  }

  /** The longest prefix of well-formed pieces. */
  function GoodPrefix(pieces: seq<string>): (k: nat)
    ensures k <= |pieces|
    ensures forall j :: 0 <= j < k ==> WellFormed(pieces[j])
    ensures k < |pieces| ==> !WellFormed(pieces[k])
  {
    if pieces == [] || !WellFormed(pieces[0]) then 0 else 1 + GoodPrefix(pieces[1..])
  }

  /** What a piece asks for: nothing for a comment or fewer than six fields; otherwise exactly
      one mount, whatever follows the sixth field, of the first field, or of the device found
      for its UUID if there is one. */
  function Attempts(S: System, piece: string): seq<Action> {
    var t := UntilNul(piece);
    var f := Split(t, SPACES);
    if "#" <= t || |f| < 6 then []
    else
      var fsType := if "ext" <= f[2] then S.types.ext else if "fat" <= f[2] then S.types.fat else 0;
      var flags := FstabMask(S.flags, f[3]);
      if !("UUID=" <= f[0]) then [Mount(f[0], f[1], fsType, flags)]
      else match SearchFrom(S.dev, f[0][5..], 0)
        case Some(name) => [Mount(name, f[1], fsType, flags)]
        case None => [DeviceNotFound(f[0][5..])]
  }

  function PieceActions(S: System, pieces: seq<string>): seq<Action> {
    if pieces == [] then [] else Attempts(S, pieces[0]) + PieceActions(S, pieces[1..])
  }

  /** The loop body does what the piece asks for, and stops at a malformed one. */
  lemma TreatMeaning(S: System, piece: string)
    ensures var t := Treat(S, UntilNul(piece));
            && Attempts(S, piece) == (if t.Do? then [t.action] else [])
            && (t.Stop? <==> !WellFormed(piece))
  {
    var t := UntilNul(piece);
    var f := Split(t, SPACES);
    if |f| >= 6 {
      StringToTypeMeaning(S.types, f[2]);
      StrnEqPrefix(f[0], "UUID=");
    }
    hide UntilNul, Split, StringToType, StrnEq, FstabMask, SearchFrom;
  }

  /** Anything after the sixth field is ignored, however many fields it holds. */
  lemma ExtraFieldsIgnored(S: System, line: string, extra: string)
    requires NUL !in line && NUL !in extra && |Split(line, SPACES)| >= 6
    ensures Attempts(S, line + " " + extra) == Attempts(S, line)
    ensures !("#" <= line) ==> |Attempts(S, line)| == 1
  {
    var longer := line + " " + extra;
    UntilNulWhole(line);
    UntilNulWhole(longer);
    hide UntilNul, FstabMask, SearchFrom;
    if line == "" {
      TokensEmpty(SPACES);
    }
    hide Split;
    SplitConcat(line, ' ', extra, SPACES);
    assert line + [' '] + extra == longer;
    assert longer[0] == line[0];
    var f, g := Split(line, SPACES), Split(longer, SPACES);
    assert f[0] == g[0] && f[1] == g[1] && f[2] == g[2] && f[3] == g[3];
  }

  /** The pieces one after the other, then `tail` unless one of them ends the reading. */
  function Then(S: System, pieces: seq<string>, tail: seq<Action>): seq<Action> {
    if pieces == [] then tail
    else match Treat(S, UntilNul(pieces[0]))
      case Skip => Then(S, pieces[1..], tail)
      case Stop => []
      case Do(a) => [a] + Then(S, pieces[1..], tail)
  }

  lemma {:induction false} ThenConcat(S: System, a: seq<string>, b: seq<string>, tail: seq<Action>)
    ensures Then(S, a + b, tail) == Then(S, a, Then(S, b, tail))
  {
    hide Treat, UntilNul;
    if a == [] {
      assert a + b == b;
    } else {
      assert (a + b)[1..] == a[1..] + b;
      ThenConcat(S, a[1..], b, tail);
    }
  }

  lemma {:induction false} ThenIsPrefix(S: System, pieces: seq<string>)
    ensures Then(S, pieces, []) == PieceActions(S, pieces[..GoodPrefix(pieces)])
  {
    if pieces != [] {
      ThenIsPrefix(S, pieces[1..]);
      TreatMeaning(S, pieces[0]);
      hide Treat, UntilNul, WellFormed, Attempts;
      var k := GoodPrefix(pieces);
      if k > 0 {
        assert pieces[..k][1..] == pieces[1..][..k - 1];
      }
    }
  }

  /** fgets takes exactly p: it ends with the only newline, or fills the buffer, or ends the file. */
  lemma {:induction false} FgetsPiece(p: string, rest: string, i: nat, room: nat)
    requires i < |p| && |p| - i <= room
    requires forall j :: i <= j < |p| - 1 ==> p[j] != '\n'
    requires p[|p| - 1] == '\n' || |p| - i == room || rest == ""
    ensures FgetsEnd(p + rest, i, room) == |p|
    decreases room
  {
    if i < |p| - 1 {
      FgetsPiece(p, rest, i + 1, room - 1);
    }
  }

  /** One buffer, then the rest of the file. */
  lemma CutPiece(S: System, p: string, rest: string)
    requires p != "" && NextEnd(p + rest, 0) == |p|
    ensures Read(S, p + rest) == Then(S, [p], Read(S, rest))
  {
    hide Treat, NextEnd, UntilNul;
    assert (p + rest)[0..|p|] == p;
    ReadShift(S, p, rest, 0);
    assert [p][1..] == [];
  }

  /** One line of any length, then the rest of the file. */
  lemma {:induction false} PiecesThen(S: System, s: string, rest: string)
    requires s != "" && NewlineFree(s[..|s| - 1])
    requires s[|s| - 1] == '\n' || rest == ""
    ensures Read(S, s + rest) == Then(S, Pieces(s), Read(S, rest))
    decreases |s|
  {
    hide Treat, UntilNul, Read;
    assert forall j :: 0 <= j < |s| - 1 ==> s[j] == s[..|s| - 1][j];
    if |s| < BUFFER_SIZE {
      FgetsPiece(s, rest, 0, BUFFER_SIZE - 1);
      CutPiece(S, s, rest);
    } else {
      var p, t := s[..BUFFER_SIZE - 1], s[BUFFER_SIZE - 1..];
      assert s + rest == p + (t + rest);
      FgetsPiece(p, t + rest, 0, BUFFER_SIZE - 1);
      CutPiece(S, p, t + rest);
      PiecesThen(S, t, rest);
      ThenConcat(S, [p], Pieces(t), Read(S, rest));
    }
  }

  lemma {:induction false} ReadIsThen(S: System, lines: seq<string>, last: string)
    requires (forall l :: l in lines ==> NewlineFree(l)) && NewlineFree(last)
    ensures Read(S, Unlines(lines) + last) == Then(S, FilePieces(lines, last), [])
  {
    hide Treat, UntilNul, Read, Pieces;
    ReadNothing(S);
    if lines != [] {
      var s, rest := lines[0] + "\n", Unlines(lines[1..]) + last;
      assert lines[0] in lines && s[..|s| - 1] == lines[0];
      Glue(s, Unlines(lines[1..]), last);
      PiecesThen(S, s, rest);
      ReadIsThen(S, lines[1..], last);
      ThenConcat(S, Pieces(s), FilePieces(lines[1..], last), []);
    } else if last != "" {
      assert Unlines(lines) + last == last + "";
      PiecesThen(S, last, "");
    } else {
      assert Unlines(lines) + last == "";
    }
  }

  /** The reader is a fold over the lines of any file, each cut into pieces of at most 149
      characters: it attempts what the longest well-formed prefix of pieces says, piece by
      piece, and nothing after it. */
  lemma ReadIsFold(S: System, f: string)
    ensures var pieces := FilePieces(LinesIn(f).0, LinesIn(f).1);
            Read(S, f) == PieceActions(S, pieces[..GoodPrefix(pieces)])
  {
    hide Read, Then, FilePieces, GoodPrefix, PieceActions, Unlines;
    var (lines, last) := LinesIn(f);
    ReadIsThen(S, lines, last);
    ThenIsPrefix(S, FilePieces(lines, last));
  }

  // ---------- long comments ----------

  predicate Comment(c: string) {
    c != "" && c[0] == '#' && NewlineFree(c)
  }

  lemma CommentPiece(S: System, p: string, rest: string)
    requires p != "" && p[0] == '#' && NextEnd(p + rest, 0) == |p|
    ensures Read(S, p + rest) == Read(S, rest)
  {
    CutPiece(S, p, rest);
    assert UntilNul(p)[0] == '#';
    hide UntilNul, Read, NextEnd, Split, ActionOf;
    assert [p][1..] == [];
  }

  /** A comment of up to 149 characters is passed over. What exceeds 149 characters in a longer
      one is read as a line of its own. */
  lemma CommentLine(S: System, c: string, rest: string)
    requires Comment(c)
    ensures Read(S, c + "\n" + rest) ==
            if |c| <= 149 then Read(S, rest) else Read(S, c[149..] + "\n" + rest)
  {
    hide Read, Treat;
    var n := BUFFER_SIZE - 1;
    if |c| < n {
      FgetsPiece(c + "\n", rest, 0, n);
      CommentPiece(S, c + "\n", rest);
    } else {
      var p, t := c[..n], c[n..] + "\n" + rest;
      assert c + "\n" + rest == p + t;
      FgetsPiece(p, t, 0, n);
      CommentPiece(S, p, t);
      if |c| == n {
        assert t == "\n" + rest;
        BlankLine(S, rest);
      }
    }
  }

  lemma BlankLine(S: System, rest: string)
    ensures Read(S, "\n" + rest) == Read(S, rest)
  {
    hide Read;
    FgetsPiece("\n", rest, 0, BUFFER_SIZE - 1);
    CutPiece(S, "\n", rest);
    UntilNulWhole("\n");
    TokensEmpty(SPACES);
    SplitSkip('\n', "", SPACES);
    assert ['\n'] + "" == "\n";
    assert Treat(S, "\n") == Skip;
    assert ["\n"][1..] == [];
  }

  predicate Ignored(S: System, c: string, rest: string) {
    Read(S, c + "\n" + rest) == Read(S, rest)
  }

  function Repeat(c: char, k: nat): (s: string)
    ensures |s| == k && forall i :: 0 <= i < k ==> s[i] == c
  {
    if k == 0 then [] else Repeat(c, k - 1) + [c]
  }

  /** A word alone on its line, however long, is malformed. */
  lemma WordStops(S: System, k: nat, rest: string)
    requires k > 0
    ensures Read(S, Repeat('x', k) + "\n" + rest) == []
  {
    var n := BUFFER_SIZE - 1;
    var w := Repeat('x', k);
    if k < n {
      OneField(S, w, w + "\n");
      FgetsPiece(w + "\n", rest, 0, n);
      CutPiece(S, w + "\n", rest);
    } else {
      var p, t := w[..n], w[n..] + "\n" + rest;
      OneField(S, p, p);
      assert w + "\n" + rest == p + t;
      FgetsPiece(p, t, 0, n);
      CutPiece(S, p, t);
    }
  }

  lemma OneField(S: System, w: string, line: string)
    requires w != "" && (forall i :: 0 <= i < |w| ==> w[i] == 'x')
    requires line == w + "\n" || (line == w && |w| > 1)
    ensures Treat(S, UntilNul(line)) == Stop
  {
    UntilNulWhole(line);
    assert line[0] == 'x';
    if line == w {
      SplitWord(w, SPACES);
    } else {
      LastField(w);
    }
    hide Split, UntilNul, ActionOf;
  }

  /** 149 is exact: a length of comment is safe from being acted on if and only if it is not
      larger. */
  lemma CommentLimit(S: System, n: nat)
    requires n > 0
    ensures (forall c, rest :: |c| == n && Comment(c) ==> Ignored(S, c, rest)) <==> n <= 149
  {
    hide Read;
    if n < BUFFER_SIZE {
      forall c, rest | |c| == n && Comment(c) ensures Ignored(S, c, rest) {
        CommentLine(S, c, rest);
      }
    } else {
      var k := n - (BUFFER_SIZE - 1);
      var c := "#" + Repeat('x', BUFFER_SIZE - 2) + Repeat('x', k);
      var rest := SixFieldLine("a", "b", "c", "d", "e", "f") + "\n";
      assert |c| == n && Comment(c) && c[BUFFER_SIZE - 1..] == Repeat('x', k);
      CommentLine(S, c, rest);
      WordStops(S, k, rest);
      SixLettersRead(S);
      assert !Ignored(S, c, rest);
    }
  }

  lemma SixLettersRead(S: System)
    ensures Read(S, SixFieldLine("a", "b", "c", "d", "e", "f") + "\n") != []
  {
    var line := SixFieldLine("a", "b", "c", "d", "e", "f");
    assert |line| == 11 && line[0] == 'a' && NUL !in line && '\n' !in line;
    hide SixFieldLine, Read, ActionOf;
    SixFieldSplit("a", "b", "c", "d", "e", "f");
    hide Split;
    assert (line + "\n")[0] == 'a';
    ReadLine(S, line);
  }

  /** In particular a mount written behind 149 characters of comment is attempted. */
  lemma CommentedMount(S: System, c: string, a: string, b: string, t: string, o: string, d: string, p: string)
    requires Comment(c) && |c| == BUFFER_SIZE - 1
    requires forall w :: w in [a, b, t, o, d, p] ==> w != "" && DelimFree(w, SPACES)
    requires a != "" && a[0] != '#' && '\n' !in SixFieldLine(a, b, t, o, d, p) && NUL !in SixFieldLine(a, b, t, o, d, p)
    requires |SixFieldLine(a, b, t, o, d, p)| + 1 < BUFFER_SIZE
    ensures Read(S, c + SixFieldLine(a, b, t, o, d, p) + "\n") == [ActionOf(S, [a, b, t, o, d, p])]
  {
    var line := SixFieldLine(a, b, t, o, d, p);
    SixFieldSplit(a, b, t, o, d, p);
    assert a in [a, b, t, o, d, p] && (line + "\n")[0] == a[0];
    hide SixFieldLine, Read, ActionOf, Split;
    ReadLine(S, line);
    assert c + line + "\n" == c + (line + "\n");
    FgetsPiece(c, line + "\n", 0, BUFFER_SIZE - 1);
    CommentPiece(S, c, line + "\n");
  }
}
