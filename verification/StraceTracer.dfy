/** strace's main loop over its growable array of threads. */
module StraceTracer {
  import opened Numerals
  import opened Strace
  import opened StraceRuns
  import opened StraceText

  class Tracer {
    const config: ValidConfig
    var infos: array<ThreadInfo>
    var threadCount: nat
    var out: string

    ghost predicate Valid()
      reads this, infos
    {
      infos.Length == threadCount && Distinct(infos[..])
    }

    constructor (config: ValidConfig)
      ensures Valid() && fresh(infos) && this.config == config
      ensures infos[..] == [] && out == ""
    {
      this.config := config;
      infos := new ThreadInfo[0];
      threadCount := 0;
      out := "";
    }

    /** print_syscall. */
    method PrintSyscall(state: Registers)
      requires config.Prints(state)
      modifies this`out
      ensures out == old(out) + CallText(CallOf(config, state))
    {
      hide Arg, Numeral, ArgsText;
      ghost var start := out;
      if state.rax > MAX_SYSCALL_IDX {
        FirstArgs(state);
        var args := Arg(state.rdi) + ", " + Arg(state.rsi) + ", " + Arg(state.rdx) + ", "
                    + Arg(state.r12) + ", " + Arg(state.r8) + ", " + Arg(state.r9);
        out := out + "(" + Numeral(state.rax, 10) + ")(" + args + ")";
        NumberedPieces(start, Numeral(state.rax, 10), args);
      } else {
        var info := config.table[state.rax].value;
        out := out + info.name + "(";
        PrintArguments(info.argCount, state);
        out := out + ")";
        var args := if info.argCount <= 6 then Listed(ArgRegisters(state)[..info.argCount]) else TooMany;
        assert out == start + info.name + "(" + ArgsOrNot(args) + ")";
        NamedPieces(start, info.name, ArgsOrNot(args));
      }
    }

    /** The switch on the argument count. */
    method PrintArguments(argCount: nat, state: Registers)
      modifies this`out
      ensures out == old(out) + ArgsOrNot(if argCount <= 6 then Listed(ArgRegisters(state)[..argCount])
                                          else TooMany)
    {
      hide Arg, ArgsText;
      FirstArgs(state);
      var a, b, c := Arg(state.rdi), Arg(state.rsi), Arg(state.rdx);
      var d, e, f := Arg(state.r12), Arg(state.r8), Arg(state.r9);
      match argCount {
        case 0 =>
          assert out + "" == out;
        case 1 => out := out + a;
        case 2 => out := out + (a + ", " + b);
        case 3 => out := out + (a + ", " + b + ", " + c);
        case 4 => out := out + (a + ", " + b + ", " + c + ", " + d);
        case 5 => out := out + (a + ", " + b + ", " + c + ", " + d + ", " + e);
        case 6 => out := out + (a + ", " + b + ", " + c + ", " + d + ", " + e + ", " + f);
        case _ => out := out + "too many args";
      }
    }

    /** print_error. */
    method PrintError(state: Registers)
      modifies this`out
      ensures out == old(out) + ErrorText(state)
    {
      hide Numeral;
      var h, d := Numeral(state.rax, 16), Numeral(state.rdx, 10);
      if state.rdx != 0 {
        out := out + (" = 0x" + (h + (" (" + (d + ")"))));
      } else {
        assert h + "" == h;
        out := out + (" = 0x" + h);
      }
    }

    /** The loop over the table for one event. It does not stop at a match. */
    method Scan(e: Event) returns (found: bool)
      requires Valid()
      requires forall l :: l in ScanLines(infos[..], e) ==> config.PrintsLine(l)
      modifies infos, this`out
      ensures Valid()
      ensures infos[..] == ScanSlots(config.numbers, old(infos[..]), e)
      ensures out == old(out) + LinesText(config, ScanLines(old(infos[..]), e))
      ensures found <==> Known(old(infos[..]), e.tid)
    {
      hide ScanSlots, ScanLines, LinesText, LineText, Known, Distinct, NextMode;
      found := false;
      ghost var before := infos[..];
      ghost var start := out;
      var i := 0;
      NoLines(config);
      NoSlots(config.numbers, e);
      assert before[..0] == [];
      while i < threadCount
        invariant i <= threadCount == infos.Length && infos[i..] == before[i..]
        invariant infos[..i] == ScanSlots(config.numbers, before[..i], e)
        invariant forall l :: l in ScanLines(before[..i], e) ==> config.PrintsLine(l)
        invariant out == start + LinesText(config, ScanLines(before[..i], e))
        invariant found <==> Known(before[..i], e.tid)
      {
        assert infos[i] == infos[i..][0] == before[i..][0] == before[i];
        ScanSnoc(config.numbers, before, e, i);
        LinesSubset(before, e, i + 1);
        if infos[i].tid == e.tid {
          PrintLine(Line(infos[i].isSyscall, e));
          LinesSnoc(config, ScanLines(before[..i], e), Line(before[i].isSyscall, e));
          infos[i] := infos[i].(isSyscall := NextMode(config.numbers, infos[i].isSyscall, e.state));
          found := true;
        }
        i := i + 1;
      }
      assert before[..i] == before && infos[..i] == infos[..];
      KeepsDistinct(config.numbers, before, e);
    }

    /** One whole line: prefix, body and newline. */
    method PrintLine(l: Line)
      requires config.PrintsLine(l)
      modifies this`out
      ensures out == old(out) + LineText(config, l)
    {
      hide Numeral, CallText, ErrorText, CallOf;
      ghost var start := out;
      var n := Numeral(l.event.tid, 10);
      if l.entry {
        out := out + n + ": ";
        PrintSyscall(l.event.state);
        out := out + "\n";
        var c := CallText(CallOf(config, l.event.state));
        assert start + n + ": " + c + "\n" == start + (n + (": " + (c + "\n")));
      } else {
        out := out + "\t" + n + ": ";
        PrintError(l.event.state);
        out := out + "\n";
        var c := ErrorText(l.event.state);
        assert start + "\t" + n + ": " + c + "\n" == start + ("\t" + (n + (": " + (c + "\n"))));
      }
    }

    /** The reallocation for a thread seen for the first time. */
    method Append(t: Tid)
      requires Valid() && !Known(infos[..], t)
      modifies this`infos, this`threadCount
      ensures Valid() && fresh(infos)
      ensures infos[..] == old(infos[..]) + [ThreadInfo(t, true)]
    {
      var n := threadCount;
      var bigger := new ThreadInfo[n + 1](_ => ThreadInfo(t, true));
      for i := 0 to n
        invariant infos == old(infos) && bigger[..i] == infos[..i]
        invariant bigger[n] == ThreadInfo(t, true)
      {
        bigger[i] := infos[i];
      }
      AppendSlot(infos[..], t);
      assert infos[..n] == infos[..];
      assert bigger[..] == infos[..] + [ThreadInfo(t, true)];
      infos := bigger;
      threadCount := n + 1;
    }

    /** One event, from the read to the end of the loop body. `memory` is realloc's answer,
        should it be asked; a refusal ends the program. The replay after an append always finds
        the thread, so there is at most one. */
    method Handle(e: Event, memory: bool) returns (ok: bool, ghost replays: nat)
      requires Valid()
      requires Known(infos[..], e.tid) || memory ==>
                 forall l :: l in StepLines(infos[..], e) ==> config.PrintsLine(l)
      modifies this`infos, this`threadCount, this`out, infos
      ensures Valid() && (infos == old(infos) || fresh(infos))
      ensures ok <==> Known(old(infos[..]), e.tid) || memory
      ensures ok ==> infos[..] == StepTable(config.numbers, old(infos[..]), e)
      ensures ok ==> out == old(out) + LinesText(config, StepLines(old(infos[..]), e))
      ensures ok ==> replays == if Known(old(infos[..]), e.tid) then 0 else 1
      ensures !ok ==> infos[..] == old(infos[..]) && out == old(out)
    {
      ok := true;
      hide ScanLines, ScanSlots, LinesText, Distinct;
      replays := 0;
      if !Known(infos[..], e.tid) {
        ScanUnknown(config.numbers, infos[..], e);
      }
      NoLines(config);
      var found := Scan(e);
      while !found
        invariant Valid() && (infos == old(infos) || fresh(infos))
        invariant found ==> Known(old(infos[..]), e.tid) || memory
        invariant found ==> infos[..] == StepTable(config.numbers, old(infos[..]), e)
                            && out == old(out) + LinesText(config, StepLines(old(infos[..]), e))
        invariant !found ==> replays == 0 && infos[..] == old(infos[..]) && out == old(out)
                             && !Known(infos[..], e.tid)
        invariant replays == if found && !Known(old(infos[..]), e.tid) then 1 else 0
        invariant ok && (found || !Known(old(infos[..]), e.tid))
        decreases !found
      {
        if !memory {
          return false, 0;
        }
        Append(e.tid);
        assert infos[|old(infos[..])|].tid == e.tid;
        found := Scan(e);
        replays := replays + 1;
      }
    }

    /** The trailer after the child has exited. */
    method Finish(status: nat)
      modifies this`out
      ensures out == old(out) + Trailer(status)
    {
      hide Numeral;
      ghost var start := out;
      out := out + "+++ exited with " + Numeral(status, 10) + " +++\n";
      var n := Numeral(status, 10);
      assert start + "+++ exited with " + n + " +++\n" == start + ("+++ exited with " + (n + " +++\n"));
    }
  }

  /** What ends the main loop: the child's exit is seen, poll fails, or realloc refuses a slot
      for the thread of one more event. */
  datatype Ending = ChildExited(status: nat) | PollFailed | NoMemory(last: Event)

  /** A whole run over the events handled before its end: the file is the text of the transcript,
      with the trailer only if the child's exit was seen, and the table is the one reached from
      the empty table. */
  method Trace(config: ValidConfig, es: seq<Event>, ending: Ending)
    returns (tracer: Tracer, status: int)
    requires forall l :: l in Transcript(config.numbers, es) ==> config.PrintsLine(l)
    requires ending.NoMemory? ==> EventsOf(es, ending.last.tid) == []
    ensures tracer.Valid() && tracer.config == config
    ensures tracer.out == LinesText(config, Transcript(config.numbers, es)) +
                          if ending.ChildExited? then Trailer(ending.status) else ""
    ensures status == if ending.ChildExited? then 0 else 1
    ensures tracer.infos[..] == TableAfter(config.numbers, [], es)
    ensures Denotes(tracer.infos[..]) == FinalModes(config.numbers, es)
  {
    hide StepTable, StepLines, ScanLines, Trailer, LinesText, Distinct, StepModes, Tids, StepSeen;
    hide TableAfter, TableLines, ModesAfter, LinesFrom;
    tracer := new Tracer(config);
    var N := config.numbers;
    TableRefinesMap(N, [], es);
    assert Denotes([]) == map[];
    assert es[0..] == es;
    ghost var text := LinesText(config, Transcript(N, es));
    for k := 0 to |es|
      invariant tracer.Valid() && tracer.config == config && fresh(tracer) && fresh(tracer.infos)
      invariant TableAfter(N, [], es) == TableAfter(N, tracer.infos[..], es[k..])
      invariant forall l :: l in TableLines(N, tracer.infos[..], es[k..]) ==> config.PrintsLine(l)
      invariant text == tracer.out + LinesText(config, TableLines(N, tracer.infos[..], es[k..]))
    {
      RunStep(config, tracer.infos[..], es, k);
      var ok;
      ghost var replays;
      ok, replays := tracer.Handle(es[k], true);
    }
    assert es[|es|..] == [];
    RunEnd(config, tracer.infos[..]);
    match ending {
      case ChildExited(code) =>
        tracer.Finish(code);
        status := 0;
      case PollFailed => status := 1;
      case NoMemory(last) =>
        Unseen(N, es, last.tid);
        var ok;
        ghost var replays;
        ok, replays := tracer.Handle(last, false);
        status := 1;
    }
  }

  /** A thread without events has no slot. */
  lemma Unseen(N: Numbers, es: seq<Event>, t: Tid)
    requires EventsOf(es, t) == []
    ensures !Known(TableAfter(N, [], es), t)
  {
    TableRefinesMap(N, [], es);
    assert Denotes([]) == map[];
    Demultiplexing(N, es, t);
    DenotesKeys(TableAfter(N, [], es));
  }

  /** One event of a run, and the rest of it. */
  lemma RunStep(C: ValidConfig, table: seq<ThreadInfo>, es: seq<Event>, k: nat)
    requires k < |es|
    requires forall l :: l in TableLines(C.numbers, table, es[k..]) ==> C.PrintsLine(l)
    ensures var next := StepTable(C.numbers, table, es[k]);
            && TableAfter(C.numbers, table, es[k..]) == TableAfter(C.numbers, next, es[k + 1..])
            && (forall l :: l in StepLines(table, es[k]) ==> C.PrintsLine(l))
            && (forall l :: l in TableLines(C.numbers, next, es[k + 1..]) ==> C.PrintsLine(l))
            && LinesText(C, TableLines(C.numbers, table, es[k..])) ==
               LinesText(C, StepLines(table, es[k])) + LinesText(C, TableLines(C.numbers, next, es[k + 1..]))
  {
    hide StepTable, StepLines, LinesText;
    assert es[k..][0] == es[k] && es[k..][1..] == es[k + 1..];
    LinesConcat(C, StepLines(table, es[k]), TableLines(C.numbers, StepTable(C.numbers, table, es[k]), es[k + 1..]));
  }

  lemma RunEnd(C: ValidConfig, table: seq<ThreadInfo>)
    ensures TableAfter(C.numbers, table, []) == table
    ensures TableLines(C.numbers, table, []) == [] && LinesText(C, []) == ""
  {
  }

  // ---------- the pieces the methods print ----------

  lemma NamedPieces(start: string, name: string, args: string)
    ensures start + name + "(" + args + ")" == start + (name + ("(" + (args + ")")))
  {
  }

  lemma NumberedPieces(start: string, n: string, args: string)
    ensures start + "(" + n + ")(" + args + ")" == start + ("(" + (n + (")(" + (args + ")"))))
  {
  }

  lemma NoLines(C: ValidConfig)
    ensures LinesText(C, []) == ""
  {
  }

  lemma NoSlots(N: Numbers, e: Event)
    ensures ScanSlots(N, [], e) == [] && ScanLines([], e) == [] && !Known([], e.tid)
  {
  }

  lemma {:induction false} LinesConcat(C: ValidConfig, a: seq<Line>, b: seq<Line>)
    requires forall l :: l in a + b ==> C.PrintsLine(l)
    ensures (forall l :: l in a ==> C.PrintsLine(l)) && (forall l :: l in b ==> C.PrintsLine(l))
    ensures LinesText(C, a + b) == LinesText(C, a) + LinesText(C, b)
  {
    hide LineText;
    assert forall l :: l in a ==> l in a + b;
    assert forall l :: l in b ==> l in a + b;
    if a == [] {
      assert a + b == b;
    } else {
      assert (a + b)[1..] == a[1..] + b;
      assert forall l :: l in a[1..] + b ==> l in a + b;
      LinesConcat(C, a[1..], b);
    }
  }

  lemma LinesSnoc(C: ValidConfig, a: seq<Line>, l: Line)
    requires forall x :: x in a + [l] ==> C.PrintsLine(x)
    ensures (forall x :: x in a ==> C.PrintsLine(x)) && C.PrintsLine(l)
    ensures LinesText(C, a + [l]) == LinesText(C, a) + LineText(C, l)
  {
    hide LineText;
    LinesConcat(C, a, [l]);
    assert [l][1..] == [];
  }

  /** One more slot scanned. */
  lemma {:induction false} ScanSnoc(N: Numbers, infos: seq<ThreadInfo>, e: Event, i: nat)
    requires i < |infos|
    ensures var s := infos[i];
            && ScanSlots(N, infos[..i + 1], e) == ScanSlots(N, infos[..i], e)
                 + [if s.tid == e.tid then s.(isSyscall := NextMode(N, s.isSyscall, e.state)) else s]
            && ScanLines(infos[..i + 1], e) ==
                 (if s.tid == e.tid then ScanLines(infos[..i], e) + [Line(s.isSyscall, e)]
                  else ScanLines(infos[..i], e))
            && (Known(infos[..i + 1], e.tid) <==> Known(infos[..i], e.tid) || s.tid == e.tid)
    decreases i
  {
    assert infos[..i + 1] == infos[..i] + [infos[i]];
    KnownConcat(infos[..i], infos[i], e.tid);
    if i > 0 {
      assert infos[..i + 1][1..] == infos[1..][..i] && infos[..i][1..] == infos[1..][..i - 1];
      ScanSnoc(N, infos[1..], e, i - 1);
    }
  }

  lemma KnownConcat(infos: seq<ThreadInfo>, last: ThreadInfo, t: Tid)
    ensures Known(infos + [last], t) <==> Known(infos, t) || last.tid == t
  {
    var r := infos + [last];
    assert r[|infos|] == last;
    assert forall i :: 0 <= i < |infos| ==> r[i] == infos[i];
  }

  lemma {:induction false} LinesSubset(infos: seq<ThreadInfo>, e: Event, i: nat)
    requires i <= |infos|
    ensures forall l :: l in ScanLines(infos[..i], e) ==> l in ScanLines(infos, e)
    decreases |infos| - i
  {
    if i < |infos| {
      LinesSubset(infos, e, i + 1);
      ScanSnoc(Numbers(0, 0, 0), infos, e, i);
    } else {
      assert infos[..i] == infos;
    }
  }

  lemma {:induction false} KeepsTids(N: Numbers, infos: seq<ThreadInfo>, e: Event, i: nat)
    requires i < |infos|
    ensures ScanSlots(N, infos, e)[i].tid == infos[i].tid
  {
    if i > 0 {
      KeepsTids(N, infos[1..], e, i - 1);
    }
  }

  lemma KeepsDistinct(N: Numbers, infos: seq<ThreadInfo>, e: Event)
    requires Distinct(infos)
    ensures Distinct(ScanSlots(N, infos, e))
  {
    forall i | 0 <= i < |infos| ensures ScanSlots(N, infos, e)[i].tid == infos[i].tid {
      KeepsTids(N, infos, e, i);
    }
  }
}
