/** The text strace prints, and a reader that recovers the transcript from it. */
module StraceText {
  import opened Common
  import opened Numerals
  import opened Strace
  import opened StraceRuns

  datatype SyscallInfo = SyscallInfo(name: string, argCount: nat)

  const MAX_SYSCALL_IDX := 101

  /** The syscall numbers of the headers and the table of names; None is an undefined slot. */
  datatype Config = Config(numbers: Numbers, table: seq<Option<SyscallInfo>>)
  {
    predicate Valid() {
      && |table| == MAX_SYSCALL_IDX + 1
      && (forall i :: 0 <= i < |table| && table[i].Some? ==>
            table[i].value.name != "" && '(' !in table[i].value.name)
      && (forall i, j :: 0 <= i < j < |table| && table[i].Some? && table[j].Some? ==>
            table[i].value.name != table[j].value.name)
    }

    /** The number is out of the table's range or has a name. */
    predicate Prints(s: Registers)
      requires Valid()
    {
      s.rax > MAX_SYSCALL_IDX || table[s.rax].Some?
    }

    predicate PrintsLine(l: Line)
      requires Valid()
    {
      l.entry ==> Prints(l.event.state)
    }
  }

  type ValidConfig = c: Config | c.Valid()
    witness Config(Numbers(0, 0, 0), seq(102, i => None))

  // ---------- printing ----------

  function Arg(v: nat): string {
    "0x" + Numeral(v, 16)
  }

  function ArgsText(args: seq<nat>): string {
    if args == [] then ""
    else if |args| == 1 then Arg(args[0])
    else ArgsText(args[..|args| - 1]) + ", " + Arg(args[|args| - 1])
  }

  /** The registers that carry arguments, in order. */
  function ArgRegisters(s: Registers): (r: seq<nat>)
    ensures |r| == 6
  {
    [s.rdi, s.rsi, s.rdx, s.r12, s.r8, s.r9]
  }

  datatype Args = Listed(values: seq<nat>) | TooMany

  datatype Call = Named(name: string, args: Args) | Numbered(number: nat, args: Args)

  /** What an entry line says about the registers. */
  function CallOf(C: ValidConfig, s: Registers): Call
    requires C.Prints(s)
  {
    if s.rax > MAX_SYSCALL_IDX then Numbered(s.rax, Listed(ArgRegisters(s)))
    else
      var info := C.table[s.rax].value;
      Named(info.name, if info.argCount <= 6 then Listed(ArgRegisters(s)[..info.argCount]) else TooMany)
  }

  function ArgsOrNot(a: Args): string {
    match a
    case Listed(values) => ArgsText(values)
    case TooMany => "too many args"
  }

  function CallText(c: Call): string {
    match c
    case Named(name, args) => name + ("(" + (ArgsOrNot(args) + ")"))
    case Numbered(n, args) => "(" + (Numeral(n, 10) + (")(" + (ArgsOrNot(args) + ")")))
  }

  function ErrorText(s: Registers): string {
    " = 0x" + (Numeral(s.rax, 16) + if s.rdx != 0 then " (" + (Numeral(s.rdx, 10) + ")") else "")
  }

  function LineText(C: ValidConfig, l: Line): string
    requires C.PrintsLine(l)
  {
    if l.entry then Numeral(l.event.tid, 10) + (": " + (CallText(CallOf(C, l.event.state)) + "\n"))
    else "\t" + (Numeral(l.event.tid, 10) + (": " + (ErrorText(l.event.state) + "\n")))
  }

  function LinesText(C: ValidConfig, ls: seq<Line>): string
    requires forall l :: l in ls ==> C.PrintsLine(l)
  {
    if ls == [] then "" else LineText(C, ls[0]) + LinesText(C, ls[1..])
  }

  function Trailer(status: nat): string {
    "+++ exited with " + (Numeral(status, 10) + " +++\n")
  }

  // ---------- reading ----------

  datatype Observed =
    | Entered(tid: nat, call: Call)
    | Returned(tid: nat, rax: nat, rdx: nat)

  /** What a line shows of its event. */
  function Observe(C: ValidConfig, l: Line): Observed
    requires C.PrintsLine(l)
  {
    if l.entry then Entered(l.event.tid, CallOf(C, l.event.state))
    else Returned(l.event.tid, l.event.state.rax, l.event.state.rdx)
  }

  function ObserveAll(C: ValidConfig, ls: seq<Line>): seq<Observed>
    requires forall l :: l in ls ==> C.PrintsLine(l)
  {
    if ls == [] then [] else [Observe(C, ls[0])] + ObserveAll(C, ls[1..])
  }

  /** The rest of s after a fixed text. */
  function After(s: string, t: string): (r: Option<string>)
    ensures r.Some? ==> s == t + r.value
  {
    if t <= s then Some(s[|t|..]) else None
  }

  /** One or more arguments up to the closing parenthesis. */
  function ReadList(s: string): (r: Option<(seq<nat>, string)>)
    ensures r.Some? ==> |r.value.1| < |s|
    decreases |s|
  {
    var s1 :- After(s, "0x");
    var (v, s2) :- ReadNumeral(s1, 16);
    match After(s2, ")")
    case Some(rest) => Some(([v], rest))
    case None =>
      var s3 :- After(s2, ", ");
      var (vs, rest) :- ReadList(s3);
      Some(([v] + vs, rest))
  }

  function ReadArgs(s: string): (r: Option<(Args, string)>)
    ensures r.Some? ==> |r.value.1| < |s|
  {
    match After(s, ")")
    case Some(rest) => Some((Listed([]), rest))
    case None =>
      match After(s, "too many args)")
      case Some(rest) => Some((TooMany, rest))
      case None =>
        var (vs, rest) :- ReadList(s);
        Some((Listed(vs), rest))
  }

  /** How many characters come before the first parenthesis. */
  function NameLength(s: string): (k: nat)
    ensures k <= |s| && '(' !in s[..k] && (k < |s| ==> s[k] == '(')
  {
    if s == [] || s[0] == '(' then 0
    else
      var k := NameLength(s[1..]);
      assert s[..1 + k] == [s[0]] + s[1..][..k];
      1 + k
  }

  function ReadCall(s: string): (r: Option<(Call, string)>)
    ensures r.Some? ==> |r.value.1| < |s|
  {
    match After(s, "(")
    case Some(s1) =>
      var (n, s2) :- ReadNumeral(s1, 10);
      var s3 :- After(s2, ")(");
      var (args, rest) :- ReadArgs(s3);
      Some((Numbered(n, args), rest))
    case None =>
      var k := NameLength(s);
      var s1 :- After(s[k..], "(");
      var (args, rest) :- ReadArgs(s1);
      Some((Named(s[..k], args), rest))
  }

  function ReadEntry(s: string): (r: Option<(Observed, string)>)
    ensures r.Some? ==> |r.value.1| < |s|
  {
    var (tid, s1) :- ReadNumeral(s, 10);
    var s2 :- After(s1, ": ");
    var (call, s3) :- ReadCall(s2);
    var rest :- After(s3, "\n");
    Some((Entered(tid, call), rest))
  }

  /** rax, then rdx in parentheses; a missing parenthesis means rdx was zero. */
  function ReadResult(s: string): (r: Option<(nat, nat, string)>)
    ensures r.Some? ==> |r.value.2| < |s|
  {
    var s3 :- After(s, " = 0x");
    var (rax, s4) :- ReadNumeral(s3, 16);
    match After(s4, "\n")
    case Some(rest) => Some((rax, 0, rest))
    case None =>
      var s5 :- After(s4, " (");
      var (rdx, s6) :- ReadNumeral(s5, 10);
      var rest :- After(s6, ")\n");
      Some((rax, rdx, rest))
  }

  /** The part after the tab. */
  function ReadReturn(s: string): (r: Option<(Observed, string)>)
    ensures r.Some? ==> |r.value.1| < |s|
  {
    var (tid, s1) :- ReadNumeral(s, 10);
    var s2 :- After(s1, ": ");
    var (rax, rdx, rest) :- ReadResult(s2);
    Some((Returned(tid, rax, rdx), rest))
  }

  function ReadLine(s: string): (r: Option<(Observed, string)>)
    ensures r.Some? ==> |r.value.1| < |s|
  {
    match After(s, "\t")
    case Some(s1) => ReadReturn(s1)
    case None => ReadEntry(s)
  }

  /** A whole transcript: lines, then the trailer with the exit status. */
  function Decode(s: string): Option<(seq<Observed>, nat)>
    decreases |s|
  {
    match After(s, "+++ exited with ")
    case Some(s1) =>
      var (status, s2) :- ReadNumeral(s1, 10);
      if s2 == " +++\n" then Some(([], status)) else None
    case None =>
      var (o, rest) :- ReadLine(s);
      var (os, status) :- Decode(rest);
      Some(([o] + os, status))
  }

  // ---------- reading what was printed ----------

  lemma AfterOf(t: string, rest: string)
    ensures After(t + rest, t) == Some(rest)
  {
  }

  lemma AfterOther(s: string, t: string)
    requires t != "" && (s == "" || s[0] != t[0])
    ensures After(s, t) == None
  {
  }

  /** A decimal or hexadecimal numeral, then something that is no digit. */
  lemma NumeralThen(n: nat, base: Base, rest: string)
    requires rest != "" && !IsDigit(rest[0], base)
    ensures ReadNumeral(Numeral(n, base) + rest, base) == Some((n, rest))
  {
    ReadNumeralOf(n, base, rest);
  }

  lemma NumeralStart(n: nat, base: Base, rest: string)
    ensures IsDigit((Numeral(n, base) + rest)[0], base)
  {
    assert (Numeral(n, base) + rest)[0] == Numeral(n, base)[0];
  }

  lemma {:induction false} ArgsCons(x: nat, args: seq<nat>)
    requires args != []
    ensures ArgsText([x] + args) == Arg(x) + (", " + ArgsText(args))
  {
    hide Arg;
    var all := [x] + args;
    var init := args[..|args| - 1];
    assert all[..|all| - 1] == [x] + init;
    var last := Arg(args[|args| - 1]);
    if init == [] {
      assert all[..|all| - 1] == [x];
      assert Arg(x) + ", " + last == Arg(x) + (", " + last);
    } else {
      ArgsCons(x, init);
      assert ArgsText(args) == ArgsText(init) + ", " + last;
      assert (Arg(x) + (", " + ArgsText(init))) + ", " + last == Arg(x) + (", " + (ArgsText(init) + ", " + last));
    }
  }

  /** The last argument of a list. */
  lemma ReadLastArg(x: nat, rest: string)
    ensures ReadList("0x" + (Numeral(x, 16) + (")" + rest))) == Some(([x], rest))
  {
    hide Numeral, ReadNumeral, IsDigit;
    var end := ")" + rest;
    PunctuationIsNoDigit();
    AfterOf("0x", Numeral(x, 16) + end);
    NumeralThen(x, 16, end);
    AfterOf(")", rest);
    hide After;
  }

  /** An argument that is followed by others. */
  lemma {:induction false} ReadMoreArgs(x: nat, tail: string)
    ensures ReadList("0x" + (Numeral(x, 16) + (", " + tail))) ==
            match ReadList(tail) case Some((vs, rest)) => Some(([x] + vs, rest)) case None => None
  {
    hide Numeral, ReadNumeral, IsDigit;
    var end := ", " + tail;
    PunctuationIsNoDigit();
    AfterOf("0x", Numeral(x, 16) + end);
    NumeralThen(x, 16, end);
    AfterOther(end, ")");
    AfterOf(", ", tail);
    hide After;
  }

  lemma {:induction false} ReadListOf(args: seq<nat>, rest: string)
    requires args != []
    ensures ReadList(ArgsText(args) + (")" + rest)) == Some((args, rest))
    decreases |args|
  {
    hide Numeral, ReadList;
    var x, end := args[0], ")" + rest;
    var h := Numeral(x, 16);
    if |args| == 1 {
      Glue("0x", h, end);
      ReadLastArg(x, rest);
      assert args == [x];
    } else {
      var more := ArgsText(args[1..]);
      assert args == [x] + args[1..];
      ArgsCons(x, args[1..]);
      Glue(Arg(x), ", " + more, end);
      Glue(", ", more, end);
      Glue("0x", h, ", " + (more + end));
      ReadMoreArgs(x, more + end);
      ReadListOf(args[1..], rest);
    }
  }

  lemma PunctuationIsNoDigit()
    ensures forall c, b: Base :: c in ")(, :\n\t +" ==> !IsDigit(c, b)
  {
  }

  lemma ReadArgsOf(a: Args, rest: string)
    ensures ReadArgs(ArgsOrNot(a) + (")" + rest)) == Some((a, rest))
  {
    hide Numeral, ReadList, ArgsText;
    var s := ArgsOrNot(a) + (")" + rest);
    if a == Listed([]) {
      ArgsTextEmpty();
      assert s == ")" + rest;
      AfterOf(")", rest);
    } else if a.TooMany? {
      assert s == "too many args)" + rest;
      AfterOf("too many args)", rest);
      AfterOther(s, ")");
    } else {
      ArgsTextStart(a.values);
      assert s[0] == ArgsText(a.values)[0] == '0';
      AfterOther(s, ")");
      AfterOther(s, "too many args)");
      ReadListOf(a.values, rest);
    }
  }

  lemma ArgsTextEmpty()
    ensures ArgsText([]) == ""
  {
  }

  lemma {:induction false} ArgsTextStart(args: seq<nat>)
    requires args != []
    ensures ArgsText(args) != "" && ArgsText(args)[0] == '0'
  {
    hide Numeral;
    if |args| > 1 {
      ArgsTextStart(args[..|args| - 1]);
    }
  }

  /** A call that print_syscall can print: a proper name, if it has one. */
  predicate ProperCall(c: Call) {
    c.Named? ==> c.name != "" && '(' !in c.name
  }

  lemma {:induction false} NameLengthOf(name: string, rest: string)
    requires '(' !in name
    ensures NameLength(name + ("(" + rest)) == |name|
  {
    if name != "" {
      assert name[0] in name;
      assert (name + ("(" + rest))[1..] == name[1..] + ("(" + rest);
      NameLengthOf(name[1..], rest);
    }
  }

  lemma ReadCallOf(c: Call, rest: string)
    requires ProperCall(c)
    ensures ReadCall(CallText(c) + rest) == Some((c, rest))
  {
    hide Numeral, ReadNumeral, IsDigit, ReadArgs, ArgsOrNot, NameLength;
    var args := ArgsOrNot(c.args) + (")" + rest);
    ReadArgsOf(c.args, rest);
    match c {
      case Named(name, _) =>
        var s := name + ("(" + args);
        assert CallText(c) + rest == s;
        assert name[0] in name && s[0] == name[0];
        AfterOther(s, "(");
        NameLengthOf(name, args);
        assert s[..|name|] == name && s[|name|..] == "(" + args;
        AfterOf("(", args);
      case Numbered(n, _) =>
        var s1 := Numeral(n, 10) + (")(" + args);
        assert CallText(c) + rest == "(" + s1;
        AfterOf("(", s1);
        PunctuationIsNoDigit();
        NumeralThen(n, 10, ")(" + args);
        AfterOf(")(", args);
    }
  }

  lemma ReadEntryOf(tid: nat, c: Call, rest: string)
    requires ProperCall(c)
    ensures ReadEntry(Numeral(tid, 10) + (": " + (CallText(c) + "\n")) + rest) == Some((Entered(tid, c), rest))
  {
    hide Numeral, ReadNumeral, IsDigit, ReadCall, CallText;
    var s2 := CallText(c) + ("\n" + rest);
    assert Numeral(tid, 10) + (": " + (CallText(c) + "\n")) + rest == Numeral(tid, 10) + (": " + s2);
    PunctuationIsNoDigit();
    NumeralThen(tid, 10, ": " + s2);
    AfterOf(": ", s2);
    ReadCallOf(c, "\n" + rest);
    AfterOf("\n", rest);
  }

  lemma ReadResultOf(s: Registers, rest: string)
    ensures ReadResult(ErrorText(s) + ("\n" + rest)) == Some((s.rax, s.rdx, rest))
  {
    hide Numeral, ReadNumeral, IsDigit;
    PunctuationIsNoDigit();
    var h, d := Numeral(s.rax, 16), Numeral(s.rdx, 10);
    var end := "\n" + rest;
    if s.rdx == 0 {
      assert ErrorText(s) + end == " = 0x" + (h + end);
      AfterOf(" = 0x", h + end);
      NumeralThen(s.rax, 16, end);
      AfterOf("\n", rest);
    } else {
      assert ")\n" + rest == ")" + end;
      var s5 := d + (")\n" + rest);
      assert ErrorText(s) + end == " = 0x" + (h + (" (" + s5));
      AfterOf(" = 0x", h + (" (" + s5));
      NumeralThen(s.rax, 16, " (" + s5);
      AfterOther(" (" + s5, "\n");
      AfterOf(" (", s5);
      NumeralThen(s.rdx, 10, ")\n" + rest);
      AfterOf(")\n", rest);
    }
  }

  lemma ReadReturnOf(tid: nat, s: Registers, rest: string)
    ensures ReadReturn(Numeral(tid, 10) + (": " + (ErrorText(s) + "\n")) + rest) ==
            Some((Returned(tid, s.rax, s.rdx), rest))
  {
    hide Numeral, ReadNumeral, IsDigit, ErrorText, ReadResult;
    var s2 := ErrorText(s) + ("\n" + rest);
    assert Numeral(tid, 10) + (": " + (ErrorText(s) + "\n")) + rest == Numeral(tid, 10) + (": " + s2);
    PunctuationIsNoDigit();
    NumeralThen(tid, 10, ": " + s2);
    AfterOf(": ", s2);
    ReadResultOf(s, rest);
  }

  /** Reading a printed line gives what the line shows, and leaves the text after it. */
  lemma ReadLineOf(C: ValidConfig, l: Line, rest: string)
    requires C.PrintsLine(l)
    ensures ReadLine(LineText(C, l) + rest) == Some((Observe(C, l), rest))
    ensures LineText(C, l) != "" && LineText(C, l)[0] != '+'
  {
    hide Numeral, ReadEntry, ReadReturn, ErrorText, CallText;
    var n := Numeral(l.event.tid, 10);
    var text := LineText(C, l);
    PunctuationIsNoDigit();
    if l.entry {
      var c := CallOf(C, l.event.state);
      assert ProperCall(c);
      ReadEntryOf(l.event.tid, c, rest);
      NumeralStart(l.event.tid, 10, ": " + (CallText(c) + "\n"));
      assert (text + rest)[0] == text[0];
      assert '\t' in ")(, :\n\t +" && '+' in ")(, :\n\t +";
      AfterOther(text + rest, "\t");
    } else {
      var t := n + (": " + (ErrorText(l.event.state) + "\n"));
      ReadReturnOf(l.event.tid, l.event.state, rest);
      assert text + rest == "\t" + (t + rest);
      AfterOf("\t", t + rest);
    }
  }

  /** The printed transcript can be read back: for any lines whose in-range syscall numbers are
      defined, the reader recovers from the text alone the tids, the kinds of line, the names or
      raw numbers, every printed register, and both result registers of each return line. */
  lemma {:induction false} DecodeText(C: ValidConfig, ls: seq<Line>, status: nat)
    requires forall l :: l in ls ==> C.PrintsLine(l)
    ensures Decode(LinesText(C, ls) + Trailer(status)) == Some((ObserveAll(C, ls), status))
  {
    hide Numeral, ReadNumeral, ReadLine, LineText, IsDigit, Observe;
    if ls == [] {
      var s1 := Numeral(status, 10) + " +++\n";
      assert LinesText(C, ls) + Trailer(status) == "+++ exited with " + s1;
      AfterOf("+++ exited with ", s1);
      PunctuationIsNoDigit();
      NumeralThen(status, 10, " +++\n");
    } else {
      var rest := LinesText(C, ls[1..]) + Trailer(status);
      var s := LinesText(C, ls) + Trailer(status);
      assert s == LineText(C, ls[0]) + rest;
      ReadLineOf(C, ls[0], rest);
      AfterOther(s, "+++ exited with ");
      DecodeText(C, ls[1..], status);
    }
  }

  // ---------- what the text determines ----------

  /** An entry line determines the syscall number, because names are distinct. */
  lemma CallDeterminesNumber(C: ValidConfig, a: Registers, b: Registers)
    requires C.Prints(a) && C.Prints(b) && CallOf(C, a) == CallOf(C, b)
    ensures a.rax == b.rax
  {
  }

  lemma ObservationsDetermine(C: ValidConfig, a: Line, b: Line)
    requires C.PrintsLine(a) && C.PrintsLine(b) && Observe(C, a) == Observe(C, b)
    ensures a.entry == b.entry && a.event.tid == b.event.tid
    ensures a.event.state.rax == b.event.state.rax
  {
    if a.entry {
      CallDeterminesNumber(C, a.event.state, b.event.state);
    }
  }

  lemma {:induction false} SameObservationsSameModes(C: ValidConfig, m: Modes, a: seq<Event>, b: seq<Event>)
    requires forall l :: l in LinesFrom(C.numbers, m, a) ==> C.PrintsLine(l)
    requires forall l :: l in LinesFrom(C.numbers, m, b) ==> C.PrintsLine(l)
    requires ObserveAll(C, LinesFrom(C.numbers, m, a)) == ObserveAll(C, LinesFrom(C.numbers, m, b))
    ensures ModesAfter(C.numbers, m, a) == ModesAfter(C.numbers, m, b)
    decreases |a|
  {
    var x, y := LinesFrom(C.numbers, m, a), LinesFrom(C.numbers, m, b);
    hide Observe;
    if x != [] && y != [] {
      assert ObserveAll(C, x)[0] == Observe(C, x[0]) && ObserveAll(C, y)[0] == Observe(C, y[0]);
      ObservationsDetermine(C, x[0], y[0]);
      var next := StepModes(C.numbers, m, a[0]);
      assert next == StepModes(C.numbers, m, b[0]);
      assert x[1..] == LinesFrom(C.numbers, next, a[1..]) && y[1..] == LinesFrom(C.numbers, next, b[1..]);
      assert ObserveAll(C, x)[1..] == ObserveAll(C, x[1..]) && ObserveAll(C, y)[1..] == ObserveAll(C, y[1..]);
      SameObservationsSameModes(C, next, a[1..], b[1..]);
    }
  }

  /** Two runs that print the same file showed the same thing line by line and left every thread
      in the same state: the text loses only registers it does not print. */
  lemma TextDeterminesRun(C: ValidConfig, a: seq<Event>, b: seq<Event>, i: nat, j: nat)
    requires forall l :: l in Transcript(C.numbers, a) ==> C.PrintsLine(l)
    requires forall l :: l in Transcript(C.numbers, b) ==> C.PrintsLine(l)
    requires LinesText(C, Transcript(C.numbers, a)) + Trailer(i) == LinesText(C, Transcript(C.numbers, b)) + Trailer(j)
    ensures i == j
    ensures ObserveAll(C, Transcript(C.numbers, a)) == ObserveAll(C, Transcript(C.numbers, b))
    ensures FinalModes(C.numbers, a) == FinalModes(C.numbers, b)
  {
    hide LinesText, Trailer, Decode, ObserveAll, LinesFrom, ModesAfter;
    DecodeText(C, Transcript(C.numbers, a), i);
    DecodeText(C, Transcript(C.numbers, b), j);
    SameObservationsSameModes(C, map[], a, b);
  }

  // ---------- what the lines show, register by register ----------

  /** The first n argument registers, one by one. */
  predicate ListsArguments(s: Registers, values: seq<nat>, n: nat) {
    && |values| == n <= 6
    && (n > 0 ==> values[0] == s.rdi)
    && (n > 1 ==> values[1] == s.rsi)
    && (n > 2 ==> values[2] == s.rdx)
    && (n > 3 ==> values[3] == s.r12)
    && (n > 4 ==> values[4] == s.r8)
    && (n > 5 ==> values[5] == s.r9)
  }

  /** What a reader learns from an entry line: for a number up to 101 the name in its slot and as
      many argument registers as the slot says, unless it says more than six; for a larger
      number the number itself and six registers. */
  predicate ShowsCall(C: ValidConfig, s: Registers, c: Call) {
    if s.rax <= 101 then
      && C.table[s.rax].Some? && c.Named? && c.name == C.table[s.rax].value.name
      && if C.table[s.rax].value.argCount > 6 then c.args.TooMany?
         else c.args.Listed? && ListsArguments(s, c.args.values, C.table[s.rax].value.argCount)
    else
      c.Numbered? && c.number == s.rax && c.args.Listed? && ListsArguments(s, c.args.values, 6)
  }

  predicate ShowsLine(C: ValidConfig, l: Line, o: Observed) {
    && o.tid == l.event.tid
    && if l.entry then o.Entered? && ShowsCall(C, l.event.state, o.call)
       else o.Returned? && o.rax == l.event.state.rax && o.rdx == l.event.state.rdx
  }

  lemma ObserveShows(C: ValidConfig, l: Line)
    requires C.PrintsLine(l)
    ensures ShowsLine(C, l, Observe(C, l))
  {
    if l.entry {
      var s := l.event.state;
      var r := ArgRegisters(s);
      assert r[0] == s.rdi && r[1] == s.rsi && r[2] == s.rdx && r[3] == s.r12 && r[4] == s.r8 && r[5] == s.r9;
    }
  }

  lemma {:induction false} ObserveAllShows(C: ValidConfig, ls: seq<Line>)
    requires forall l :: l in ls ==> C.PrintsLine(l)
    ensures |ObserveAll(C, ls)| == |ls|
    ensures forall k :: 0 <= k < |ls| ==> ShowsLine(C, ls[k], ObserveAll(C, ls)[k])
  {
    if ls != [] {
      ObserveAllShows(C, ls[1..]);
      ObserveShows(C, ls[0]);
      hide ShowsLine, Observe;
      assert forall k :: 0 < k < |ls| ==> ObserveAll(C, ls)[k] == ObserveAll(C, ls[1..])[k - 1] && ls[k] == ls[1..][k - 1];
    }
  }

  /** The file of a run tells a reader, line by line, the thread, the kind of line, the syscall
      and the registers it prints, and the exit status at the end. */
  lemma FileShowsRun(C: ValidConfig, es: seq<Event>, status: nat)
    requires forall l :: l in Transcript(C.numbers, es) ==> C.PrintsLine(l)
    ensures var ls := Transcript(C.numbers, es);
            var read := Decode(LinesText(C, ls) + Trailer(status));
            && read.Some? && read.value.1 == status && |read.value.0| == |es|
            && forall k :: 0 <= k < |es| ==> ShowsLine(C, ls[k], read.value.0[k])
  {
    hide Decode, LinesText, Trailer, ObserveAll, ShowsLine;
    DecodeText(C, Transcript(C.numbers, es), status);
    ObserveAllShows(C, Transcript(C.numbers, es));
  }

  // ---------- the formats ----------

  function Hex(v: nat): string { Numeral(v, 16) }

  function Dec(v: nat): string { Numeral(v, 10) }

  /** Return lines and the trailer in full. */
  lemma ReturnFormat(C: ValidConfig, e: Event, status: nat)
    ensures LineText(C, Line(false, e)) ==
            if e.state.rdx != 0
            then "\t" + Dec(e.tid) + ":  = 0x" + Hex(e.state.rax) + " (" + Dec(e.state.rdx) + ")\n"
            else "\t" + Dec(e.tid) + ":  = 0x" + Hex(e.state.rax) + "\n"
    ensures Trailer(status) == "+++ exited with " + Dec(status) + " +++\n"
  {
    hide Numeral;
    var t, a, d := Dec(e.tid), Dec(e.state.rdx), Hex(e.state.rax);
    assert ": " + " = 0x" == ":  = 0x" && ")" + "\n" == ")\n";
    if e.state.rdx != 0 {
      assert LineText(C, Line(false, e)) ==
             "\t" + (t + (": " + ((" = 0x" + (d + (" (" + (a + ")")))) + "\n")));
    } else {
      assert LineText(C, Line(false, e)) == "\t" + (t + (": " + ((" = 0x" + (d + "")) + "\n")));
    }
  }

  /** The argument text, count by count. */
  lemma FirstArgs(s: Registers)
    ensures var r := ArgRegisters(s);
            && ArgsText(r[..0]) == "" && ArgsText(r[..1]) == Arg(s.rdi)
            && ArgsText(r[..2]) == Arg(s.rdi) + ", " + Arg(s.rsi)
            && ArgsText(r[..3]) == Arg(s.rdi) + ", " + Arg(s.rsi) + ", " + Arg(s.rdx)
            && ArgsText(r[..4]) == Arg(s.rdi) + ", " + Arg(s.rsi) + ", " + Arg(s.rdx) + ", " + Arg(s.r12)
            && ArgsText(r[..5]) == Arg(s.rdi) + ", " + Arg(s.rsi) + ", " + Arg(s.rdx) + ", " + Arg(s.r12)
                                   + ", " + Arg(s.r8)
            && ArgsText(r[..6]) == Arg(s.rdi) + ", " + Arg(s.rsi) + ", " + Arg(s.rdx) + ", " + Arg(s.r12)
                                   + ", " + Arg(s.r8) + ", " + Arg(s.r9)
            && r[..6] == r
  {
    hide Arg;
    var r := ArgRegisters(s);
    assert r[..1] == [s.rdi];
    OneMoreArg(r, 1);
    OneMoreArg(r, 2);
    OneMoreArg(r, 3);
    OneMoreArg(r, 4);
    OneMoreArg(r, 5);
  }

  lemma OneMoreArg(args: seq<nat>, k: nat)
    requires 0 < k < |args|
    ensures ArgsText(args[..k + 1]) == ArgsText(args[..k]) + ", " + Arg(args[k])
  {
    assert args[..k + 1][..k] == args[..k];
  }


  /** A call on its line, with the parts from the left. */
  lemma NamedLine(t: string, name: string, args: string)
    ensures t + (": " + ((name + ("(" + (args + ")"))) + "\n")) == t + ": " + name + "(" + args + ")\n"
  {
  }

  lemma NumberedLine(t: string, n: string, args: string)
    ensures t + (": " + (("(" + (n + (")(" + (args + ")")))) + "\n")) == t + ": (" + n + ")(" + args + ")\n"
  {
  }

  /** Entry lines in full: each argument count has its own format, and a number without a name
      is printed with six registers. */
  lemma EntryFormat(C: ValidConfig, e: Event)
    requires C.Prints(e.state)
    ensures forall v: nat :: Arg(v) == "0x" + Hex(v)
    ensures var s, t, line := e.state, Dec(e.tid) + ": ", LineText(C, Line(true, e));
            var a, b, c, d, f, g := Arg(s.rdi), Arg(s.rsi), Arg(s.rdx), Arg(s.r12), Arg(s.r8), Arg(s.r9);
            if s.rax > 101 then
              line == Dec(e.tid) + ": (" + Dec(s.rax) + ")(" +
                      (a + ", " + b + ", " + c + ", " + d + ", " + f + ", " + g) + ")\n"
            else
              var h := t + C.table[s.rax].value.name + "(";
              match C.table[s.rax].value.argCount
              case 0 => line == h + "" + ")\n"
              case 1 => line == h + a + ")\n"
              case 2 => line == h + (a + ", " + b) + ")\n"
              case 3 => line == h + (a + ", " + b + ", " + c) + ")\n"
              case 4 => line == h + (a + ", " + b + ", " + c + ", " + d) + ")\n"
              case 5 => line == h + (a + ", " + b + ", " + c + ", " + d + ", " + f) + ")\n"
              case 6 => line == h + (a + ", " + b + ", " + c + ", " + d + ", " + f + ", " + g) + ")\n"
              case _ => line == h + "too many args" + ")\n"
  {
    var s, t := e.state, Dec(e.tid);
    FirstArgs(s);
    hide Numeral, ArgsText;
    if s.rax > 101 {
      hide Arg;
      NumberedLine(t, Dec(s.rax), ArgsText(ArgRegisters(s)));
    } else {
      var info := C.table[s.rax].value;
      var args := if info.argCount <= 6 then Listed(ArgRegisters(s)[..info.argCount]) else TooMany;
      NamedLine(t, info.name, ArgsOrNot(args));
      hide Arg;
    }
  }
}
