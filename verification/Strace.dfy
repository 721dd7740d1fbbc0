/** strace's demultiplexer: which line each event prints, and the table of threads behind it. */
module Strace {
  import opened Common

  type Tid = U16

  /** The registers that are printed or compared; the tracer reads and ignores the others. */
  datatype Registers = Registers(rax: U64, rdi: U64, rsi: U64, rdx: U64, r12: U64, r8: U64, r9: U64)

  datatype Event = Event(tid: Tid, state: Registers)

  /** SYSCALL_EXIT, SYSCALL_EXIT_THREAD and SYSCALL_EXEC of the system's headers. */
  datatype Numbers = Numbers(exit: U64, exitThread: U64, exec: U64)

  /** struct thread_info. */
  datatype ThreadInfo = ThreadInfo(tid: Tid, isSyscall: bool)

  /** A printed line: the entry to a syscall, or its return. */
  datatype Line = Line(entry: bool, event: Event)

  predicate NonReturning(N: Numbers, s: Registers) {
    s.rax == N.exit || s.rax == N.exitThread || s.rax == N.exec
  }

  /** Whether the thread's next event is an entry again, after this one. */
  function NextMode(N: Numbers, entry: bool, s: Registers): bool {
    if entry then NonReturning(N, s) else true
  }

  // ---------- one scan of the table ----------

  predicate Known(infos: seq<ThreadInfo>, t: Tid) {
    exists i :: 0 <= i < |infos| && infos[i].tid == t
  }

  /** The scan visits every slot; each one with the event's tid prints a line and flips. */
  function ScanSlots(N: Numbers, infos: seq<ThreadInfo>, e: Event): (r: seq<ThreadInfo>)
    ensures |r| == |infos|
  {
    if infos == [] then []
    else
      var i := infos[0];
      [if i.tid == e.tid then i.(isSyscall := NextMode(N, i.isSyscall, e.state)) else i]
      + ScanSlots(N, infos[1..], e)
  }

  function ScanLines(infos: seq<ThreadInfo>, e: Event): seq<Line> {
    if infos == [] then []
    else (if infos[0].tid == e.tid then [Line(infos[0].isSyscall, e)] else []) + ScanLines(infos[1..], e)
  }

  // ---------- one event on the abstract map ----------

  /** The mode of every thread seen so far; an unseen thread expects an entry. */
  type Modes = map<Tid, bool>

  function ModeOf(m: Modes, t: Tid): bool {
    if t in m then m[t] else true
  }

  function StepModes(N: Numbers, m: Modes, e: Event): Modes {
    m[e.tid := NextMode(N, ModeOf(m, e.tid), e.state)]
  }

  /** Threads in the order they were first seen. */
  function StepSeen(seen: seq<Tid>, e: Event): seq<Tid> {
    if e.tid in seen then seen else seen + [e.tid]
  }

  // ---------- the table denotes the map ----------

  predicate Distinct(infos: seq<ThreadInfo>) {
    forall i, j :: 0 <= i < j < |infos| ==> infos[i].tid != infos[j].tid
  }

  function Tids(infos: seq<ThreadInfo>): (r: seq<Tid>)
    ensures |r| == |infos| && forall i :: 0 <= i < |r| ==> r[i] == infos[i].tid
  {
    seq(|infos|, i requires 0 <= i < |infos| => infos[i].tid)
  }

  /** The table's slots, as a map; the last slot wins. */
  function Denotes(infos: seq<ThreadInfo>): Modes {
    if infos == [] then map[]
    else Denotes(infos[..|infos| - 1])[infos[|infos| - 1].tid := infos[|infos| - 1].isSyscall]
  }

  lemma {:induction false} DenotesKeys(infos: seq<ThreadInfo>)
    ensures forall t: Tid :: t in Denotes(infos) <==> Known(infos, t)
  {
    if infos != [] {
      var n := |infos| - 1;
      DenotesKeys(infos[..n]);
      forall t: Tid ensures t in Denotes(infos) <==> Known(infos, t) {
        if Known(infos[..n], t) {
          var i :| 0 <= i < n && infos[..n][i].tid == t;
          assert infos[i].tid == t;
        }
        if Known(infos, t) && t != infos[n].tid {
          var i :| 0 <= i < |infos| && infos[i].tid == t;
          assert infos[..n][i].tid == t;
        }
      }
    }
  }

  lemma {:induction false} DenotesAt(infos: seq<ThreadInfo>, k: nat)
    requires Distinct(infos) && k < |infos|
    ensures infos[k].tid in Denotes(infos) && Denotes(infos)[infos[k].tid] == infos[k].isSyscall
  {
    var n := |infos| - 1;
    if k < n {
      DenotesAt(infos[..n], k);
    }
  }

  /** A scan of a table without the tid changes and prints nothing. */
  lemma {:induction false} ScanUnknown(N: Numbers, infos: seq<ThreadInfo>, e: Event)
    requires !Known(infos, e.tid)
    ensures ScanSlots(N, infos, e) == infos && ScanLines(infos, e) == []
  {
    if infos != [] {
      assert infos[0].tid != e.tid;
      forall i | 0 <= i < |infos[1..]| ensures infos[1..][i].tid != e.tid {
        assert infos[1..][i] == infos[i + 1];
      }
      ScanUnknown(N, infos[1..], e);
    }
  }

  /** With distinct tids the scan, which does not stop at a match, prints exactly one line and
      changes exactly one slot. */
  lemma {:induction false} ScanKnown(N: Numbers, infos: seq<ThreadInfo>, e: Event, k: nat)
    requires Distinct(infos) && k < |infos| && infos[k].tid == e.tid
    ensures ScanLines(infos, e) == [Line(infos[k].isSyscall, e)]
    ensures ScanSlots(N, infos, e) ==
            infos[k := infos[k].(isSyscall := NextMode(N, infos[k].isSyscall, e.state))]
  {
    if k == 0 {
      assert !Known(infos[1..], e.tid) by {
        forall i | 0 <= i < |infos[1..]| ensures infos[1..][i].tid != e.tid {
          assert infos[1..][i] == infos[i + 1];
        }
      }
      ScanUnknown(N, infos[1..], e);
    } else {
      assert infos[0].tid != e.tid;
      ScanKnown(N, infos[1..], e, k - 1);
    }
  }

  lemma {:induction false} DenotesUpdate(infos: seq<ThreadInfo>, k: nat, b: bool)
    requires Distinct(infos) && k < |infos|
    ensures Denotes(infos[k := infos[k].(isSyscall := b)]) == Denotes(infos)[infos[k].tid := b]
  {
    var n := |infos| - 1;
    var r := infos[k := infos[k].(isSyscall := b)];
    if k == n {
      assert r[..n] == infos[..n];
    } else {
      assert r[..n] == infos[..n][k := infos[..n][k].(isSyscall := b)];
      DenotesUpdate(infos[..n], k, b);
    }
  }

  /** The table after one event: a scan, after a fresh slot for an unseen thread. */
  function StepTable(N: Numbers, infos: seq<ThreadInfo>, e: Event): seq<ThreadInfo> {
    ScanSlots(N, if Known(infos, e.tid) then infos else infos + [ThreadInfo(e.tid, true)], e)
  }

  function StepLines(infos: seq<ThreadInfo>, e: Event): seq<Line> {
    ScanLines(if Known(infos, e.tid) then infos else infos + [ThreadInfo(e.tid, true)], e)
  }

  lemma KnownIsSeen(infos: seq<ThreadInfo>, t: Tid)
    ensures Known(infos, t) <==> t in Tids(infos)
  {
    if t in Tids(infos) {
      var i :| 0 <= i < |Tids(infos)| && Tids(infos)[i] == t;
      assert infos[i].tid == t;
    }
    if Known(infos, t) {
      var i :| 0 <= i < |infos| && infos[i].tid == t;
      assert Tids(infos)[i] == t;
    }
  }

  /** What one event at slot k of a table with distinct tids does. */
  lemma {:induction false} StepAt(N: Numbers, infos: seq<ThreadInfo>, e: Event, k: nat)
    requires Distinct(infos) && k < |infos| && infos[k].tid == e.tid
    ensures var r := ScanSlots(N, infos, e);
            && Distinct(r)
            && Denotes(r) == Denotes(infos)[e.tid := NextMode(N, infos[k].isSyscall, e.state)]
            && Tids(r) == Tids(infos)
            && ScanLines(infos, e) == [Line(infos[k].isSyscall, e)]
            && Denotes(infos)[e.tid := infos[k].isSyscall] == Denotes(infos)
  {
    hide Denotes, ScanSlots, ScanLines;
    ScanKnown(N, infos, e, k);
    DenotesUpdate(infos, k, NextMode(N, infos[k].isSyscall, e.state));
    DenotesAt(infos, k);
  }

  lemma AppendSlot(infos: seq<ThreadInfo>, t: Tid)
    requires Distinct(infos) && !Known(infos, t)
    ensures var r := infos + [ThreadInfo(t, true)];
            && Distinct(r)
            && Denotes(r) == Denotes(infos)[t := true]
            && t !in Denotes(infos)
            && Tids(r) == Tids(infos) + [t]
  {
    var r := infos + [ThreadInfo(t, true)];
    DenotesKeys(infos);
    assert r[..|infos|] == infos;
    forall i | 0 <= i < |infos| ensures infos[i].tid != t {
    }
  }

  /** One event on the table is one event on the map, prints one line of the right kind, keeps
      the tids distinct and appends a new one at the end. */
  lemma StepRefines(N: Numbers, infos: seq<ThreadInfo>, e: Event)
    requires Distinct(infos)
    ensures var r := StepTable(N, infos, e);
            && Distinct(r)
            && Denotes(r) == StepModes(N, Denotes(infos), e)
            && Tids(r) == StepSeen(Tids(infos), e)
            && StepLines(infos, e) == [Line(ModeOf(Denotes(infos), e.tid), e)]
  {
    hide Denotes, ScanSlots, ScanLines, Tids;
    KnownIsSeen(infos, e.tid);
    if Known(infos, e.tid) {
      var k :| 0 <= k < |infos| && infos[k].tid == e.tid;
      StepAt(N, infos, e, k);
      DenotesAt(infos, k);
    } else {
      var t := infos + [ThreadInfo(e.tid, true)];
      AppendSlot(infos, e.tid);
      StepAt(N, t, e, |infos|);
      var m: Modes := Denotes(infos);
      assert m[e.tid := true][e.tid := NextMode(N, true, e.state)] == m[e.tid := NextMode(N, true, e.state)];
    }
  }
}
