/** What strace prints over whole runs, thread by thread. */
module StraceRuns {
  import opened Strace

  // ---------- whole runs ----------

  function ModesAfter(N: Numbers, m: Modes, es: seq<Event>): Modes
    decreases |es|
  {
    if es == [] then m else ModesAfter(N, StepModes(N, m, es[0]), es[1..])
  }

  /** One line for each event, in order. */
  function LinesFrom(N: Numbers, m: Modes, es: seq<Event>): (ls: seq<Line>)
    ensures |ls| == |es| && forall k :: 0 <= k < |es| ==> ls[k].event == es[k]
    decreases |es|
  {
    if es == [] then []
    else [Line(ModeOf(m, es[0].tid), es[0])] + LinesFrom(N, StepModes(N, m, es[0]), es[1..])
  }

  function SeenAfter(seen: seq<Tid>, es: seq<Event>): seq<Tid>
    decreases |es|
  {
    if es == [] then seen else SeenAfter(StepSeen(seen, es[0]), es[1..])
  }

  /** All that strace prints, and the map it ends with, from an empty table. */
  function Transcript(N: Numbers, es: seq<Event>): seq<Line> {
    LinesFrom(N, map[], es)
  }

  function FinalModes(N: Numbers, es: seq<Event>): Modes {
    ModesAfter(N, map[], es)
  }

  function TableAfter(N: Numbers, infos: seq<ThreadInfo>, es: seq<Event>): seq<ThreadInfo>
    decreases |es|
  {
    if es == [] then infos else TableAfter(N, StepTable(N, infos, es[0]), es[1..])
  }

  function TableLines(N: Numbers, infos: seq<ThreadInfo>, es: seq<Event>): seq<Line>
    decreases |es|
  {
    if es == [] then [] else StepLines(infos, es[0]) + TableLines(N, StepTable(N, infos, es[0]), es[1..])
  }

  /** The array is at every moment exactly the map, with its threads in the order they were
      first seen, and prints exactly the map's lines. */
  lemma {:induction false} TableRefinesMap(N: Numbers, infos: seq<ThreadInfo>, es: seq<Event>)
    requires Distinct(infos)
    ensures var r := TableAfter(N, infos, es);
            && Distinct(r)
            && Denotes(r) == ModesAfter(N, Denotes(infos), es)
            && Tids(r) == SeenAfter(Tids(infos), es)
            && TableLines(N, infos, es) == LinesFrom(N, Denotes(infos), es)
    decreases |es|
  {
    hide Denotes, Tids, StepTable, StepLines, StepModes, StepSeen, ModeOf, Distinct;
    if es != [] {
      StepRefines(N, infos, es[0]);
      TableRefinesMap(N, StepTable(N, infos, es[0]), es[1..]);
    }
  }

  // ---------- one thread ----------

  function EventsOf(es: seq<Event>, t: Tid): (r: seq<Event>)
    ensures forall e :: e in r <==> e in es && e.tid == t
  {
    if es == [] then []
    else if es[0].tid == t then [es[0]] + EventsOf(es[1..], t)
    else EventsOf(es[1..], t)
  }

  function LinesOf(ls: seq<Line>, t: Tid): (r: seq<Line>)
    ensures forall l :: l in r <==> l in ls && l.event.tid == t
  {
    if ls == [] then []
    else if ls[0].event.tid == t then [ls[0]] + LinesOf(ls[1..], t)
    else LinesOf(ls[1..], t)
  }

  /** The two-state automaton of one thread: entry lines and return lines alternate, and an
      entry that never returns keeps expecting an entry. */
  function Automaton(N: Numbers, entry: bool, es: seq<Event>): (ls: seq<Line>)
    ensures |ls| == |es|
    decreases |es|
  {
    if es == [] then []
    else [Line(entry, es[0])] + Automaton(N, NextMode(N, entry, es[0].state), es[1..])
  }

  function AutomatonMode(N: Numbers, entry: bool, es: seq<Event>): bool
    decreases |es|
  {
    if es == [] then entry else AutomatonMode(N, NextMode(N, entry, es[0].state), es[1..])
  }

  lemma {:induction false} DemuxFrom(N: Numbers, m: Modes, es: seq<Event>, t: Tid)
    ensures LinesOf(LinesFrom(N, m, es), t) == Automaton(N, ModeOf(m, t), EventsOf(es, t))
    ensures ModeOf(ModesAfter(N, m, es), t) == AutomatonMode(N, ModeOf(m, t), EventsOf(es, t))
    ensures t in ModesAfter(N, m, es) <==> t in m || EventsOf(es, t) != []
    decreases |es|
  {
    if es != [] {
      var e := es[0];
      var next := StepModes(N, m, e);
      DemuxFrom(N, next, es[1..], t);
      assert LinesFrom(N, m, es)[1..] == LinesFrom(N, next, es[1..]);
      if e.tid == t {
        assert EventsOf(es, t)[1..] == EventsOf(es[1..], t);
      }
    }
  }

  /** Demultiplexing: among all printed lines, those of thread t are what a two-state automaton
      started in "expect entry" prints for t's events alone. Other threads have no influence. */
  lemma {:induction false} Demultiplexing(N: Numbers, es: seq<Event>, t: Tid)
    ensures LinesOf(Transcript(N, es), t) == Automaton(N, true, EventsOf(es, t))
    ensures ModeOf(FinalModes(N, es), t) == AutomatonMode(N, true, EventsOf(es, t))
    ensures t in FinalModes(N, es) <==> EventsOf(es, t) != []
  {
    DemuxFrom(N, map[], es, t);
  }

  /** Any two interleavings of the same per-thread streams give every thread the same lines
      and leave the same map. */
  lemma InterleavingIrrelevant(N: Numbers, a: seq<Event>, b: seq<Event>)
    requires forall t: Tid :: EventsOf(a, t) == EventsOf(b, t)
    ensures forall t: Tid :: LinesOf(Transcript(N, a), t) == LinesOf(Transcript(N, b), t)
    ensures FinalModes(N, a) == FinalModes(N, b)
  {
    hide Transcript, FinalModes;
    forall t: Tid
      ensures LinesOf(Transcript(N, a), t) == LinesOf(Transcript(N, b), t)
      ensures t in FinalModes(N, a) <==> t in FinalModes(N, b)
      ensures ModeOf(FinalModes(N, a), t) == ModeOf(FinalModes(N, b), t)
    {
      Demultiplexing(N, a, t);
      Demultiplexing(N, b, t);
    }
    var x, y := FinalModes(N, a), FinalModes(N, b);
    forall t: Tid | t in x ensures x[t] == y[t] {
      assert ModeOf(x, t) == x[t] && ModeOf(y, t) == y[t];
    }
  }

  lemma {:induction false} EventsOfConcat(a: seq<Event>, b: seq<Event>, t: Tid)
    ensures EventsOf(a + b, t) == EventsOf(a, t) + EventsOf(b, t)
  {
    if a == [] {
      assert a + b == b;
    } else {
      assert (a + b)[1..] == a[1..] + b;
      EventsOfConcat(a[1..], b, t);
    }
  }

  /** In particular adjacent events of different threads may be swapped. */
  lemma SwapAdjacent(N: Numbers, before: seq<Event>, x: Event, y: Event, after: seq<Event>)
    requires x.tid != y.tid
    ensures var a, b := before + ([x, y] + after), before + ([y, x] + after);
            && (forall t: Tid :: LinesOf(Transcript(N, a), t) == LinesOf(Transcript(N, b), t))
            && FinalModes(N, a) == FinalModes(N, b)
  {
    var a, b := before + ([x, y] + after), before + ([y, x] + after);
    forall t: Tid ensures EventsOf(a, t) == EventsOf(b, t) {
      EventsOfConcat(before, [x, y] + after, t);
      EventsOfConcat(before, [y, x] + after, t);
      EventsOfConcat([x, y], after, t);
      EventsOfConcat([y, x], after, t);
      assert [x, y][1..] == [y] && [y, x][1..] == [x];
      assert [y][1..] == [] && [x][1..] == [];
      assert EventsOf([x, y], t) == EventsOf([y, x], t);
    }
    InterleavingIrrelevant(N, a, b);
  }

  // ---------- alternation ----------

  /** Within one thread: the first line is an entry, and a line is a return exactly when the
      line before it is the entry of a syscall that returns. */
  predicate Alternates(N: Numbers, ls: seq<Line>) {
    && (ls != [] ==> ls[0].entry)
    && (forall k {:trigger ls[k]} :: 0 < k < |ls| ==> (ls[k].entry <==> !OpensCall(N, ls[k - 1])))
  }

  predicate OpensCall(N: Numbers, l: Line) {
    l.entry && !NonReturning(N, l.event.state)
  }

  function EventsIn(ls: seq<Line>): (r: seq<Event>)
    ensures |r| == |ls| && forall k :: 0 <= k < |ls| ==> r[k] == ls[k].event
  {
    seq(|ls|, k requires 0 <= k < |ls| => ls[k].event)
  }

  lemma {:induction false} AutomatonSteps(N: Numbers, entry: bool, es: seq<Event>)
    ensures var ls := Automaton(N, entry, es);
            && (forall k :: 0 <= k < |es| ==> ls[k].event == es[k])
            && (es != [] ==> ls[0].entry == entry)
            && (forall k {:trigger ls[k]} :: 0 < k < |es| ==> (ls[k].entry <==> !OpensCall(N, ls[k - 1])))
    decreases |es|
  {
    if es != [] {
      var next := NextMode(N, entry, es[0].state);
      AutomatonSteps(N, next, es[1..]);
      var ls, tail := Automaton(N, entry, es), Automaton(N, next, es[1..]);
      forall k | 0 < k < |es| ensures ls[k].entry <==> !OpensCall(N, ls[k - 1]) {
        assert ls[k] == tail[k - 1];
        if k > 1 {
          assert ls[k - 1] == tail[k - 2];
        }
      }
    }
  }

  lemma {:induction false} SameLine(N: Numbers, a: seq<Line>, b: seq<Line>, k: nat)
    requires Alternates(N, a) && Alternates(N, b) && EventsIn(a) == EventsIn(b) && k < |a| == |b|
    ensures a[k] == b[k]
  {
    assert a[k].event == EventsIn(a)[k] == b[k].event;
    if k > 0 {
      SameLine(N, a, b, k - 1);
    }
  }

  /** Alternation is not only true of a thread's lines, it is all there is to say about them. */
  lemma AlternationExact(N: Numbers, ls: seq<Line>)
    ensures Alternates(N, ls) <==> ls == Automaton(N, true, EventsIn(ls))
  {
    var auto := Automaton(N, true, EventsIn(ls));
    AutomatonSteps(N, true, EventsIn(ls));
    assert EventsIn(auto) == EventsIn(ls);
    if Alternates(N, ls) {
      forall k | 0 <= k < |ls| ensures ls[k] == auto[k] {
        SameLine(N, ls, auto, k);
      }
    }
  }

  lemma {:induction false} ProjectEvents(ls: seq<Line>, t: Tid)
    ensures EventsIn(LinesOf(ls, t)) == EventsOf(EventsIn(ls), t)
  {
    if ls != [] {
      ProjectEvents(ls[1..], t);
      assert EventsIn(ls)[1..] == EventsIn(ls[1..]);
    }
  }

  lemma {:induction false} ProjectionsDetermine(a: seq<Line>, b: seq<Line>)
    requires EventsIn(a) == EventsIn(b)
    requires forall t: Tid :: LinesOf(a, t) == LinesOf(b, t)
    ensures a == b
  {
    assert |a| == |b|;
    if a != [] {
      assert a[0].event == EventsIn(a)[0] == b[0].event;
      var t0 := a[0].event.tid;
      assert LinesOf(a, t0)[0] == a[0] && LinesOf(b, t0)[0] == b[0];
      assert EventsIn(a[1..]) == EventsIn(a)[1..] == EventsIn(b)[1..] == EventsIn(b[1..]);
      forall t: Tid ensures LinesOf(a[1..], t) == LinesOf(b[1..], t) {
        assert LinesOf(a[1..], t) == if t == t0 then LinesOf(a, t)[1..] else LinesOf(a, t);
        assert LinesOf(b[1..], t) == if t == t0 then LinesOf(b, t)[1..] else LinesOf(b, t);
      }
      ProjectionsDetermine(a[1..], b[1..]);
    }
  }

  predicate EachAlternates(N: Numbers, ls: seq<Line>) {
    forall l :: l in ls ==> Alternates(N, LinesOf(ls, l.event.tid))
  }

  /** A list of lines is what strace prints for its events exactly when the lines of every
      single thread alternate. */
  lemma TranscriptExact(N: Numbers, ls: seq<Line>)
    ensures ls == Transcript(N, EventsIn(ls)) <==> EachAlternates(N, ls)
  {
    hide Transcript;
    var es := EventsIn(ls);
    forall t: Tid
      ensures Alternates(N, LinesOf(ls, t)) <==> LinesOf(ls, t) == LinesOf(Transcript(N, es), t)
    {
      AlternationExact(N, LinesOf(ls, t));
      ProjectEvents(ls, t);
      Demultiplexing(N, es, t);
    }
    if EachAlternates(N, ls) {
      forall t: Tid ensures Alternates(N, LinesOf(ls, t)) {
        if LinesOf(ls, t) != [] {
          assert LinesOf(ls, t)[0] in ls;
        }
      }
      TranscriptEvents(N, es);
      ProjectionsDetermine(ls, Transcript(N, es));
    }
  }

  lemma TranscriptEvents(N: Numbers, es: seq<Event>)
    ensures EventsIn(Transcript(N, es)) == es
  {
  }

  // ---------- the kind of every single line ----------

  /** The thread of event j had its last event before j at i. */
  predicate Previous(es: seq<Event>, i: nat, j: nat) {
    i < j < |es| && es[i].tid == es[j].tid && forall k :: i < k < j ==> es[k].tid != es[j].tid
  }

  /** Event j is the first of its thread. */
  predicate First(es: seq<Event>, j: nat) {
    j < |es| && forall k :: 0 <= k < j ==> es[k].tid != es[j].tid
  }

  lemma {:induction false} FirstLine(N: Numbers, m: Modes, es: seq<Event>, j: nat)
    requires First(es, j)
    ensures LinesFrom(N, m, es)[j].entry == ModeOf(m, es[j].tid)
    decreases j
  {
    if j > 0 {
      assert es[0].tid != es[j].tid;
      assert forall k :: 0 <= k < j - 1 ==> es[1..][k] == es[k + 1];
      FirstLine(N, StepModes(N, m, es[0]), es[1..], j - 1);
    }
  }

  lemma TailLine(N: Numbers, m: Modes, es: seq<Event>, k: nat)
    requires 0 < k < |es|
    ensures LinesFrom(N, m, es)[k] == LinesFrom(N, StepModes(N, m, es[0]), es[1..])[k - 1]
  {
  }

  lemma PreviousTail(es: seq<Event>, i: nat, j: nat)
    requires Previous(es, i, j)
    ensures i < j < |es| && es[i].tid == es[j].tid
    ensures i > 0 ==> Previous(es[1..], i - 1, j - 1)
    ensures i == 0 ==> First(es[1..], j - 1)
  {
    assert forall k :: 0 <= k < |es| - 1 ==> es[1..][k] == es[k + 1];
  }

  lemma HeadLine(N: Numbers, m: Modes, es: seq<Event>)
    requires es != []
    ensures LinesFrom(N, m, es)[0].entry == ModeOf(m, es[0].tid)
  {
  }

  lemma ModeAfterEvent(N: Numbers, m: Modes, e: Event)
    ensures var rax := e.state.rax;
            ModeOf(StepModes(N, m, e), e.tid) <==>
            !ModeOf(m, e.tid) || rax == N.exit || rax == N.exitThread || rax == N.exec
  {
  }

  lemma {:induction false} NextLine(N: Numbers, m: Modes, es: seq<Event>, i: nat, j: nat)
    requires Previous(es, i, j)
    ensures var ls := LinesFrom(N, m, es);
            var rax := es[i].state.rax;
            ls[j].entry <==> !ls[i].entry || rax == N.exit || rax == N.exitThread || rax == N.exec
    decreases i
  {
    PreviousTail(es, i, j);
    hide LinesFrom, StepModes, ModeOf, Previous, First;
    TailLine(N, m, es, j);
    var next := StepModes(N, m, es[0]);
    if i == 0 {
      FirstLine(N, next, es[1..], j - 1);
      HeadLine(N, m, es);
      ModeAfterEvent(N, m, es[0]);
    } else {
      TailLine(N, m, es, i);
      NextLine(N, next, es[1..], i - 1, j - 1);
    }
  }

  /** Which line every event prints: a thread's first is an entry, and any other is an entry if
      and only if the thread's line before it was a return, or the entry of exit, exit_thread or
      exec, which never return. */
  lemma LineKinds(N: Numbers, es: seq<Event>, j: nat)
    requires j < |es|
    ensures var ls := Transcript(N, es);
            && (First(es, j) ==> ls[j].entry)
            && forall i: nat :: Previous(es, i, j) ==>
                 (ls[j].entry <==>
                  !ls[i].entry || es[i].state.rax == N.exit || es[i].state.rax == N.exitThread
                  || es[i].state.rax == N.exec)
  {
    hide LinesFrom;
    if First(es, j) {
      FirstLine(N, map[], es, j);
    }
    forall i: nat | Previous(es, i, j)
      ensures Transcript(N, es)[j].entry <==>
              !Transcript(N, es)[i].entry || es[i].state.rax == N.exit || es[i].state.rax == N.exitThread
              || es[i].state.rax == N.exec
    {
      NextLine(N, map[], es, i, j);
    }
  }

  // ---------- conservation ----------

  function Entries(ls: seq<Line>): nat {
    if ls == [] then 0 else (if ls[0].entry then 1 else 0) + Entries(ls[1..])
  }

  function Returns(ls: seq<Line>): nat {
    if ls == [] then 0 else (if ls[0].entry then 0 else 1) + Returns(ls[1..])
  }

  /** Entry lines of exit, exit_thread and exec. */
  function FinalEntries(N: Numbers, ls: seq<Line>): nat {
    if ls == [] then 0
    else (if ls[0].entry && NonReturning(N, ls[0].event.state) then 1 else 0) + FinalEntries(N, ls[1..])
  }

  /** Threads inside a syscall. */
  function OpenThreads(m: Modes): set<Tid> {
    set t | t in m && !m[t]
  }

  function OpenSlots(infos: seq<ThreadInfo>): nat {
    if infos == [] then 0
    else OpenSlots(infos[..|infos| - 1]) + if infos[|infos| - 1].isSyscall then 0 else 1
  }

  lemma OpenWithOneMore(m: Modes, t: Tid, b: bool)
    requires t !in m
    ensures |OpenThreads(m[t := b])| == |OpenThreads(m)| + if b then 0 else 1
  {
    var before := OpenThreads(m);
    assert OpenThreads(m[t := b]) == if b then before else before + {t};
  }

  lemma {:induction false} OpenSlotsCount(infos: seq<ThreadInfo>)
    requires Distinct(infos)
    ensures OpenSlots(infos) == |OpenThreads(Denotes(infos))|
  {
    if infos != [] {
      var n := |infos| - 1;
      var last := infos[n];
      OpenSlotsCount(infos[..n]);
      DenotesKeys(infos[..n]);
      assert !Known(infos[..n], last.tid) by {
        assert forall i :: 0 <= i < n ==> infos[..n][i] == infos[i];
      }
      assert Denotes(infos) == Denotes(infos[..n])[last.tid := last.isSyscall];
      hide Denotes, OpenThreads;
      OpenWithOneMore(Denotes(infos[..n]), last.tid, last.isSyscall);
    }
  }

  lemma {:induction false} ConservationFrom(N: Numbers, m: Modes, es: seq<Event>)
    ensures var ls := LinesFrom(N, m, es);
            Entries(ls) + |OpenThreads(m)| ==
            Returns(ls) + FinalEntries(N, ls) + |OpenThreads(ModesAfter(N, m, es))|
    ensures Entries(LinesFrom(N, m, es)) + Returns(LinesFrom(N, m, es)) == |es|
    decreases |es|
  {
    if es != [] {
      var e := es[0];
      var next := StepModes(N, m, e);
      ConservationFrom(N, next, es[1..]);
      assert LinesFrom(N, m, es)[1..] == LinesFrom(N, next, es[1..]);
      OpenStep(N, m, e);
    }
  }

  lemma OpenStep(N: Numbers, m: Modes, e: Event)
    ensures |OpenThreads(StepModes(N, m, e))| ==
            |OpenThreads(m)| + if !ModeOf(m, e.tid) then -1
                               else if NonReturning(N, e.state) then 0 else 1
  {
    var o, p := OpenThreads(m), OpenThreads(StepModes(N, m, e));
    if !ModeOf(m, e.tid) {
      assert p == o - {e.tid} && e.tid in o;
    } else if NonReturning(N, e.state) {
      assert p == o;
    } else {
      assert p == o + {e.tid} && e.tid !in o;
    }
  }

  /** Conservation, at every moment of every run: each entry line is accounted for by a return
      line, by being an exit, exit_thread or exec, or by a table slot still waiting; and every
      event consumed printed one line. */
  lemma Conservation(N: Numbers, es: seq<Event>)
    ensures var ls, table := Transcript(N, es), TableAfter(N, [], es);
            && Entries(ls) == Returns(ls) + FinalEntries(N, ls) + OpenSlots(table)
            && Entries(ls) + Returns(ls) == |es|
  {
    hide LinesFrom, ModesAfter, TableAfter, Entries, Returns, FinalEntries, OpenSlots;
    ConservationFrom(N, map[], es);
    TableRefinesMap(N, [], es);
    OpenSlotsCount(TableAfter(N, [], es));
    assert OpenThreads(map[]) == {};
    assert Denotes([]) == map[];
  }

  // ---------- the bound on the table ----------

  predicate NoRepeats(s: seq<Tid>) {
    forall i, j :: 0 <= i < j < |s| ==> s[i] != s[j]
  }

  lemma {:induction false} Pigeonhole(s: seq<Tid>, n: nat)
    requires NoRepeats(s) && forall i :: 0 <= i < |s| ==> s[i] < n
    ensures |s| <= n
    decreases n
  {
    assert s != [] ==> s[0] < n;
    if s != [] {
      if k :| 0 <= k < |s| && s[k] == n - 1 {
        Pigeonhole(s[..k] + s[k + 1..], n - 1);
      } else {
        Pigeonhole(s, n - 1);
      }
    }
  }

  lemma {:induction false} SeenGrows(seen: seq<Tid>, es: seq<Event>)
    requires NoRepeats(seen)
    ensures NoRepeats(SeenAfter(seen, es)) && |SeenAfter(seen, es)| <= |seen| + |es|
    decreases |es|
  {
    if es != [] {
      SeenGrows(StepSeen(seen, es[0]), es[1..]);
    }
  }

  /** The table never has more slots than events, nor more than there are 16-bit tids. */
  lemma TableBound(N: Numbers, es: seq<Event>)
    ensures |TableAfter(N, [], es)| <= |es| && |TableAfter(N, [], es)| <= 0x1_0000
  {
    TableRefinesMap(N, [], es);
    assert Tids([]) == [];
    SeenGrows([], es);
    var s := SeenAfter([], es);
    assert s == Tids(TableAfter(N, [], es));
    Pigeonhole(s, 0x1_0000);
  }

  /** Where t first occurs, or the number of events. */
  function FirstIndex(es: seq<Event>, t: Tid): (k: nat)
    ensures k <= |es| && (k < |es| ==> es[k].tid == t)
    ensures forall j :: 0 <= j < k ==> es[j].tid != t
  {
    if es == [] || es[0].tid == t then 0 else 1 + FirstIndex(es[1..], t)
  }

  lemma {:induction false} SeenSnoc(seen: seq<Tid>, es: seq<Event>, e: Event)
    ensures SeenAfter(seen, es + [e]) == StepSeen(SeenAfter(seen, es), e)
    decreases |es|
  {
    if es == [] {
      assert es + [e] == [e];
      assert [e][1..] == [];
    } else {
      assert (es + [e])[1..] == es[1..] + [e];
      SeenSnoc(StepSeen(seen, es[0]), es[1..], e);
    }
  }

  lemma FirstIndexOf(es: seq<Event>, t: Tid, k: nat)
    requires k <= |es| && (k < |es| ==> es[k].tid == t)
    requires forall j :: 0 <= j < k ==> es[j].tid != t
    ensures FirstIndex(es, t) == k
  {
  }

  /** The table's threads are exactly those that had an event, in order of first appearance. */
  lemma {:induction false} SeenInOrder(es: seq<Event>)
    ensures var s := SeenAfter([], es);
            && (forall t: Tid :: t in s <==> FirstIndex(es, t) < |es|)
            && (forall i, j :: 0 <= i < j < |s| ==> FirstIndex(es, s[i]) < FirstIndex(es, s[j]))
    decreases |es|
  {
    if es != [] {
      var n := |es| - 1;
      var init, e := es[..n], es[n];
      assert es == init + [e];
      SeenInOrder(init);
      SeenSnoc([], init, e);
      var p, s := SeenAfter([], init), SeenAfter([], es);
      forall t: Tid
        ensures FirstIndex(es, t) == if FirstIndex(init, t) < n then FirstIndex(init, t)
                                     else if t == e.tid then n else n + 1
      {
        var k := FirstIndex(init, t);
        FirstIndexOf(es, t, if k < n then k else if t == e.tid then n else n + 1);
      }
      forall i, j | 0 <= i < j < |s| ensures FirstIndex(es, s[i]) < FirstIndex(es, s[j]) {
        assert s[i] == p[i] && p[i] in p;
        if j < |p| {
          assert s[j] == p[j] && p[j] in p;
        }
      }
    }
  }
}
