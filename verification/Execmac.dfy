/** execmac: the option loop that decides which capabilities the command will run with. */
module Execmac {
  import opened Common
  import opened Tokens
  import opened StrtokLib
  import opened Masks

  const KEYWORDS := 16

  /** The MAC_CAP_* constants of the system's headers: the position of each one's single bit. */
  datatype CapBits = CapBits(sched: nat, spawn: nat, entropy: nat, sysMem: nat, useNet: nat,
                             sysNet: nat, sysMnt: nat, sysPwr: nat, ptrace: nat, setuid: nat,
                             sysMac: nat, clock: nat, signalAll: nat, setgid: nat, ipc: nat,
                             sysLog: nat)
  {
    /** The capability that keyword i stands for. */
    function Bit(i: nat): nat
      requires i < KEYWORDS
    {
      match i
      case 0 => sched
      case 1 => spawn
      case 2 => entropy
      case 3 => sysMem
      case 4 => useNet
      case 5 => sysNet
      case 6 => sysMnt
      case 7 => sysPwr
      case 8 => ptrace
      case 9 => setuid
      case 10 => sysMac
      case 11 => clock
      case 12 => signalAll
      case 13 => setgid
      case 14 => ipc
      case _ => sysLog
    }

    /** Distinct capabilities have distinct bits. */
    predicate Valid() {
      forall i: nat, j: nat :: i < KEYWORDS && j < KEYWORDS && Bit(i) == Bit(j) ==> i == j
    }
  }

  function Keyword(i: nat): string
    requires i < KEYWORDS
  {
    match i
    case 0 => "sched"
    case 1 => "spawn"
    case 2 => "entropy"
    case 3 => "mem"
    case 4 => "usenet"
    case 5 => "sysnet"
    case 6 => "mnt"
    case 7 => "pwr"
    case 8 => "ptrace"
    case 9 => "setuid"
    case 10 => "mac"
    case 11 => "clock"
    case 12 => "killall"
    case 13 => "setgid"
    case 14 => "ipc"
    case _ => "syslog"
  }

  /** The first keyword from number i on that tok starts with. */
  function FirstMatch(tok: string, i: nat): (r: Option<nat>)
    requires i <= KEYWORDS
    ensures r.Some? ==> i <= r.value < KEYWORDS && Keyword(r.value) <= tok
    ensures r.None? ==> forall j: nat :: i <= j < KEYWORDS ==> !(Keyword(j) <= tok)
    decreases KEYWORDS - i
  {
    if i == KEYWORDS then None
    else if Keyword(i) <= tok then Some(i)
    else FirstMatch(tok, i + 1)
  }

  /** No keyword is a prefix of another, so at most one matches and the order is irrelevant. */
  lemma KeywordsApart(t: string, i: nat, j: nat)
    requires i < KEYWORDS && j < KEYWORDS && Keyword(i) <= t && Keyword(j) <= t
    ensures i == j
  {
    var k, l := Keyword(i), Keyword(j);
    assert t[0] == k[0] == l[0] && t[1] == k[1] == l[1];
    assert |k| > 3 ==> t[3] == k[3];
    assert |l| > 3 ==> t[3] == l[3];
  }

  lemma MatchUnique(t: string, i: nat)
    requires i < KEYWORDS && Keyword(i) <= t
    ensures FirstMatch(t, 0) == Some(i)
  {
    KeywordsApart(t, i, FirstMatch(t, 0).value);
  }

  /** The test of branch i of the chain. */
  lemma BranchTest(t: string, i: nat)
    requires i < KEYWORDS
    ensures StrnEq(t, Keyword(i), |Keyword(i)|) <==> FirstMatch(t, 0) == Some(i)
  {
    StrnEqPrefix(t, Keyword(i));
    if Keyword(i) <= t {
      MatchUnique(t, i);
    }
  }

  function CapFlag(C: CapBits, tok: string): Option<nat> {
    match FirstMatch(tok, 0)
    case Some(i) => Some(C.Bit(i))
    case None => None
  }

  function CapChain(C: CapBits): Chain {
    (tok: string) => CapFlag(C, tok)
  }

  /** The if-chain over one capability token: its bit is added, or the parse fails. */
  method ApplyCapability(C: CapBits, tok: string, caps0: Mask) returns (caps: Option<Mask>)
    ensures caps == match CapFlag(C, tok) case Some(b) => Some(caps0 + {b}) case None => None
  {
    hide StrnEq, FirstMatch;
    forall i: nat | i < KEYWORDS
      ensures StrnEq(tok, Keyword(i), |Keyword(i)|) <==> FirstMatch(tok, 0) == Some(i)
    {
      BranchTest(tok, i);
    }
    ghost var branch: Option<nat> := None;
    if StrnEq(tok, "sched", 5) {
      caps := Some(caps0 + {C.sched});
      branch := Some(0);
    } else if StrnEq(tok, "spawn", 5) {
      caps := Some(caps0 + {C.spawn});
      branch := Some(1);
    } else if StrnEq(tok, "entropy", 7) {
      caps := Some(caps0 + {C.entropy});
      branch := Some(2);
    } else if StrnEq(tok, "mem", 3) {
      caps := Some(caps0 + {C.sysMem});
      branch := Some(3);
    } else if StrnEq(tok, "usenet", 6) {
      caps := Some(caps0 + {C.useNet});
      branch := Some(4);
    } else if StrnEq(tok, "sysnet", 6) {
      caps := Some(caps0 + {C.sysNet});
      branch := Some(5);
    } else if StrnEq(tok, "mnt", 3) {
      caps := Some(caps0 + {C.sysMnt});
      branch := Some(6);
    } else if StrnEq(tok, "pwr", 3) {
      caps := Some(caps0 + {C.sysPwr});
      branch := Some(7);
    } else if StrnEq(tok, "ptrace", 6) {
      caps := Some(caps0 + {C.ptrace});
      branch := Some(8);
    } else if StrnEq(tok, "setuid", 6) {
      caps := Some(caps0 + {C.setuid});
      branch := Some(9);
    } else if StrnEq(tok, "mac", 3) {
      caps := Some(caps0 + {C.sysMac});
      branch := Some(10);
    } else if StrnEq(tok, "clock", 5) {
      caps := Some(caps0 + {C.clock});
      branch := Some(11);
    } else if StrnEq(tok, "killall", 7) {
      caps := Some(caps0 + {C.signalAll});
      branch := Some(12);
    } else if StrnEq(tok, "setgid", 6) {
      caps := Some(caps0 + {C.setgid});
      branch := Some(13);
    } else if StrnEq(tok, "ipc", 3) {
      caps := Some(caps0 + {C.ipc});
      branch := Some(14);
    } else if StrnEq(tok, "syslog", 6) {
      caps := Some(caps0 + {C.sysLog});
      branch := Some(15);
    } else {
      caps := None;
    }
    assert branch == FirstMatch(tok, 0);
  }

  /** `(uint64_t)-1`: all 64 bits. */
  function AllCaps(): Mask {
    BitsBelow(64)
  }

  function BitsBelow(n: nat): (m: Mask)
    ensures forall b: nat :: b in m <==> b < n
  {
    if n == 0 then {} else BitsBelow(n - 1) + {n - 1}
  }

  /** The mask `-c list` assigns, or None when execmac gives up with "bad cap". */
  function CapMask(C: CapBits, list: string): Option<Mask> {
    if StrnEq(list, "all", 3) then Some(AllCaps())
    else ParseAll(CapChain(C), Split(list, COMMA))
  }

  lemma CapLoop(C: CapBits, list: string)
    requires !StrnEq(list, "all", 3)
    ensures Loop(CapChain(C), true, {}, Split(list, COMMA)) == CapMask(C, list)
  {
    LoopAddsBits(CapChain(C), true, {}, Split(list, COMMA));
    assert {} + Bits(CapChain(C), Split(list, COMMA)) == Bits(CapChain(C), Split(list, COMMA));
  }

  /** `case 'c'`: the old mask is discarded and the list parsed in place. */
  method ParseCapabilities(C: CapBits, st: Strtok, optarg: array<char>) returns (caps: Option<Mask>)
    requires NUL in optarg[..]
    modifies st, optarg
    ensures caps == CapMask(C, UntilNul(old(optarg[..])))
  {
    hide CapFlag, StrnEq;
    if StrnEq(UntilNul(optarg[..]), "all", 3) {
      return Some(AllCaps());
    }
    caps := Some({});
    var tok := st.First(optarg, COMMA);
    ghost var toks := Split(st.text, COMMA);
    while tok.Some?
      invariant st.Valid() && st.buf == optarg
      invariant caps.Some?
      invariant Loop(CapChain(C), true, {}, toks) ==
                Loop(CapChain(C), true, caps.value, Pending(st, tok, COMMA))
      decreases if tok.Some? then 1 + |st.text| - st.pos else 0
    {
      caps := ApplyCapability(C, tok.value, caps.value);
      if caps.None? {
        break;
      }
      tok := st.Next(COMMA);
    }
    CapLoop(C, UntilNul(old(optarg[..])));
  }

  predicate HasKeyword(t: string) {
    exists i: nat :: i < KEYWORDS && Keyword(i) <= t
  }

  /** What a list that does not start with `all` means: it is accepted exactly when every token
      starts with one of the 16 keywords, and then a capability is granted exactly when some
      token starts with its keyword. Order, repetition and empty items play no part. */
  lemma {:induction false} CapMaskMeaning(C: CapBits, list: string)
    requires C.Valid() && !("all" <= list)
    ensures var toks := Split(list, COMMA);
            && (CapMask(C, list).Some? <==> forall t :: t in toks ==> HasKeyword(t))
            && (CapMask(C, list).Some? ==>
                  && (forall i: nat :: i < KEYWORDS ==>
                        (C.Bit(i) in CapMask(C, list).value <==> exists t :: t in toks && Keyword(i) <= t))
                  && (forall b :: b in CapMask(C, list).value ==>
                        exists i: nat :: i < KEYWORDS && C.Bit(i) == b))
  {
    hide StrnEq, Keyword;
    StrnEqPrefix(list, "all");
    var toks := Split(list, COMMA);
    forall t: string ensures HasKeyword(t) <==> FirstMatch(t, 0).Some? {
    }
    if CapMask(C, list).Some? {
      var m := CapMask(C, list).value;
      forall i: nat | i < KEYWORDS
        ensures C.Bit(i) in m <==> exists t :: t in toks && Keyword(i) <= t
      {
        forall t | t in toks && Keyword(i) <= t ensures C.Bit(i) in m {
          MatchUnique(t, i);
          assert CapChain(C)(t) == Some(C.Bit(i));
        }
        if C.Bit(i) in m {
          var t :| t in toks && CapChain(C)(t) == Some(C.Bit(i));
          assert Keyword(i) <= t;
        }
      }
    }
  }

  /** Exactly the 64 bits of the word. */
  ghost predicate GrantsAll(m: Option<Mask>) {
    m.Some? && forall b: nat :: b in m.value <==> b < 64
  }

  /** `all` grants at least what any other list grants, as long as the capabilities fit the
      64-bit word. */
  lemma AllGrantsEverything(C: CapBits, list: string, other: string)
    requires "all" <= list
    requires forall i: nat :: i < KEYWORDS ==> C.Bit(i) < 64
    ensures GrantsAll(CapMask(C, list))
    ensures CapMask(C, other).Some? ==> CapMask(C, other).value <= CapMask(C, list).value
  {
    hide StrnEq, FirstMatch;
    StrnEqPrefix(list, "all");
    if CapMask(C, other).Some? && !StrnEq(other, "all", 3) {
      var toks := Split(other, COMMA);
      forall b | b in CapMask(C, other).value ensures b < 64 {
        var t :| t in toks && CapChain(C)(t) == Some(b);
      }
    }
  }

  /** The help text says `all` must be passed alone. What the code does: at the very start of
      the list it grants everything, whatever follows; as a later token it is rejected. */
  lemma AllOnlyAtTheStart(C: CapBits, list: string, t: string)
    requires t in Split(list, COMMA) && "all" <= t
    ensures if "all" <= list then GrantsAll(CapMask(C, list)) else CapMask(C, list).None?
  {
    StrnEqPrefix(list, "all");
    assert t[0] == 'a';
    if FirstMatch(t, 0).Some? {
      NoKeywordStartsWithA(FirstMatch(t, 0).value);
    }
    assert CapChain(C)(t) == CapFlag(C, t) == None;
  }

  lemma NoKeywordStartsWithA(i: nat)
    requires i < KEYWORDS
    ensures |Keyword(i)| > 0 && Keyword(i)[0] != 'a'
  {
  }

  /** A list that starts with `all` has a token that does. */
  lemma AllIsAToken(list: string) returns (t: string)
    requires "all" <= list
    ensures t in Split(list, COMMA) && "all" <= t
  {
    var hi := RunEnd(list, COMMA, 0);
    assert list[0] == 'a' && list[1] == 'l' && list[2] == 'l';
    assert hi >= 3;
    t := list[0..hi];
    TokensStep(list, COMMA, 0, 0, hi);
    assert TokensFrom(list, COMMA, 0)[0] == t;
  }

  /** Two lists with the same tokens, in any order and number, get the same answer if and only
      if both or neither start with `all`: that word is the only one whose place matters. */
  lemma CapOrderIrrelevant(C: CapBits, a: string, b: string)
    requires forall t :: t in Split(a, COMMA) <==> t in Split(b, COMMA)
    ensures CapMask(C, a) == CapMask(C, b) <==> ("all" <= a <==> "all" <= b)
  {
    hide CapFlag, StrnEq, Split;
    StrnEqPrefix(a, "all");
    StrnEqPrefix(b, "all");
    if "all" <= a {
      var t := AllIsAToken(a);
      AllOnlyAtTheStart(C, b, t);
      AllOnlyAtTheStart(C, a, t);
    } else if "all" <= b {
      var t := AllIsAToken(b);
      AllOnlyAtTheStart(C, a, t);
    } else {
      ParseOfSet(CapChain(C), Split(a, COMMA), Split(b, COMMA));
    }
  }

  /** An input of each kind: the same two words, accepted in one order, rejected in the other. */
  lemma AllWithOthers(C: CapBits)
    ensures GrantsAll(CapMask(C, "all,mem"))
    ensures CapMask(C, "mem,all") == None
  {
    var m, a := "mem", "all";
    assert "all,mem" == a + [','] + m && "mem,all" == m + [','] + a;
    SplitCons(m, ',', a, COMMA);
    SplitWord(a, COMMA);
    StrnEqPrefix("all,mem", "all");
    assert "mem,all"[0] == 'm' && "all"[0] == 'a';
    hide StrnEq, Split;
    assert ([m] + [a])[1] == a;
    AllOnlyAtTheStart(C, "mem,all", a);
  }

  /** The token starts with one of the words of the help text. */
  predicate KnownWord(t: string) {
    || "sched" <= t || "spawn" <= t || "entropy" <= t || "mem" <= t || "usenet" <= t || "sysnet" <= t
    || "mnt" <= t || "pwr" <= t || "ptrace" <= t || "setuid" <= t || "mac" <= t || "clock" <= t
    || "killall" <= t || "setgid" <= t || "ipc" <= t || "syslog" <= t
  }

  /** Some item of the list starts with the word. */
  predicate Asks(list: string, word: string) {
    exists t :: t in Split(list, COMMA) && word <= t
  }

  lemma KeywordWords(t: string)
    ensures HasKeyword(t) <==> KnownWord(t)
  {
    if KnownWord(t) {
      var i: nat := if "sched" <= t then 0 else if "spawn" <= t then 1 else if "entropy" <= t then 2
                    else if "mem" <= t then 3 else if "usenet" <= t then 4 else if "sysnet" <= t then 5
                    else if "mnt" <= t then 6 else if "pwr" <= t then 7 else if "ptrace" <= t then 8
                    else if "setuid" <= t then 9 else if "mac" <= t then 10 else if "clock" <= t then 11
                    else if "killall" <= t then 12 else if "setgid" <= t then 13 else if "ipc" <= t then 14
                    else 15;
      assert Keyword(i) <= t;
    }
  }

  /** The list in the words of the help text: each word grants the capability it names. */
  lemma CapMaskWords(C: CapBits, list: string)
    requires C.Valid() && !("all" <= list)
    ensures CapMask(C, list).Some? <==> forall t :: t in Split(list, COMMA) ==> KnownWord(t)
    ensures CapMask(C, list).Some? ==>
              var m := CapMask(C, list).value;
              && (C.sched in m <==> Asks(list, "sched")) && (C.spawn in m <==> Asks(list, "spawn"))
              && (C.entropy in m <==> Asks(list, "entropy")) && (C.sysMem in m <==> Asks(list, "mem"))
              && (C.useNet in m <==> Asks(list, "usenet")) && (C.sysNet in m <==> Asks(list, "sysnet"))
              && (C.sysMnt in m <==> Asks(list, "mnt")) && (C.sysPwr in m <==> Asks(list, "pwr"))
              && (C.ptrace in m <==> Asks(list, "ptrace")) && (C.setuid in m <==> Asks(list, "setuid"))
              && (C.sysMac in m <==> Asks(list, "mac")) && (C.clock in m <==> Asks(list, "clock"))
              && (C.signalAll in m <==> Asks(list, "killall")) && (C.setgid in m <==> Asks(list, "setgid"))
              && (C.ipc in m <==> Asks(list, "ipc")) && (C.sysLog in m <==> Asks(list, "syslog"))
  {
    CapMaskMeaning(C, list);
    forall t ensures HasKeyword(t) <==> KnownWord(t) {
      KeywordWords(t);
    }
    hide CapMask, HasKeyword, KnownWord;
    if CapMask(C, list).Some? {
      var m := CapMask(C, list).value;
      forall i: nat | i < KEYWORDS ensures C.Bit(i) in m <==> Asks(list, Keyword(i)) {
      }
      hide Asks;
      CapNames(C);
      KeywordNames();
      hide Keyword;
    }
  }

  lemma KeywordNames()
    ensures Keyword(0) == "sched" && Keyword(1) == "spawn" && Keyword(2) == "entropy" && Keyword(3) == "mem"
    ensures Keyword(4) == "usenet" && Keyword(5) == "sysnet" && Keyword(6) == "mnt" && Keyword(7) == "pwr"
    ensures Keyword(8) == "ptrace" && Keyword(9) == "setuid" && Keyword(10) == "mac" && Keyword(11) == "clock"
    ensures Keyword(12) == "killall" && Keyword(13) == "setgid" && Keyword(14) == "ipc" && Keyword(15) == "syslog"
  {
  }

  lemma CapNames(C: CapBits)
    ensures C.Bit(0) == C.sched && C.Bit(1) == C.spawn && C.Bit(2) == C.entropy && C.Bit(3) == C.sysMem
    ensures C.Bit(4) == C.useNet && C.Bit(5) == C.sysNet && C.Bit(6) == C.sysMnt && C.Bit(7) == C.sysPwr
    ensures C.Bit(8) == C.ptrace && C.Bit(9) == C.setuid && C.Bit(10) == C.sysMac && C.Bit(11) == C.clock
    ensures C.Bit(12) == C.signalAll && C.Bit(13) == C.setgid && C.Bit(14) == C.ipc && C.Bit(15) == C.sysLog
  {
  }

  // ---------- the option loop ----------

  /** One parsed command-line option. `denied` is the kernel's answer to the permission request
      of -f; Unknown stands for anything getopt hands to the default branch without a missing
      argument, where option parsing ends and the command starts. */
  datatype Opt =
    | Help
    | Version
    | Caps(list: string)
    | Filter(path: string, denied: bool)
    | Policy(name: string)
    | MissingArg
    | Unknown

  datatype Enforcement = Deny | DenyAndScream | Kill

  datatype Effect =
    | AddPermissions(path: string, perms: nat)
    | SetEnforcement(policy: Enforcement)

  /** Exit with a status, or go on to run the command under a mask. */
  datatype Outcome = Exit(status: int) | Run(caps: Mask)

  const DEV_PERMS := 0x5F
  const FILE_PERMS := 0x1F

  function PolicyOf(name: string): Option<Enforcement> {
    if StrnEq(name, "D", 1) then Some(Deny)
    else if StrnEq(name, "S", 1) then Some(DenyAndScream)
    else if StrnEq(name, "K", 1) then Some(Kill)
    else None
  }

  /** The option neither ends the loop nor the program. */
  predicate Proceeds(C: CapBits, o: Opt) {
    match o
    case Caps(list) => CapMask(C, list).Some?
    case Filter(_, denied) => !denied
    case Policy(name) => PolicyOf(name).Some?
    case _ => false
  }

  /** The first option that does not proceed, or the number of options. */
  function FirstStop(C: CapBits, opts: seq<Opt>): (k: nat)
    ensures k <= |opts|
    ensures forall j :: 0 <= j < k ==> Proceeds(C, opts[j])
    ensures k < |opts| ==> !Proceeds(C, opts[k])
  {
    if opts == [] || !Proceeds(C, opts[0]) then 0 else 1 + FirstStop(C, opts[1..])
  }

  /** Read from the back: the last -c decides, and without one the mask is inherited. */
  function FinalMask(C: CapBits, inherited: Mask, opts: seq<Opt>): Mask
    requires forall j :: 0 <= j < |opts| ==> Proceeds(C, opts[j])
  {
    if opts == [] then inherited
    else
      var last := opts[|opts| - 1];
      assert Proceeds(C, last);
      if last.Caps? then CapMask(C, last.list).value
      else FinalMask(C, inherited, opts[..|opts| - 1])
  }

  function Verdict(C: CapBits, inherited: Mask, opts: seq<Opt>): Outcome {
    var k := FirstStop(C, opts);
    if k == |opts| || opts[k].Unknown? then Run(FinalMask(C, inherited, opts[..k]))
    else Exit(if opts[k].Help? || opts[k].Version? then 0 else 1)
  }

  function EffectOf(o: Opt): seq<Effect> {
    match o
    case Filter(path, _) =>
      if "/dev/" <= path then [AddPermissions(path[5..], DEV_PERMS)]
      else [AddPermissions(path, FILE_PERMS)]
    case Policy(name) =>
      if PolicyOf(name).Some? then [SetEnforcement(PolicyOf(name).value)] else []
    case _ => []
  }

  function EffectsOf(opts: seq<Opt>): seq<Effect> {
    if opts == [] then [] else EffectsOf(opts[..|opts| - 1]) + EffectOf(opts[|opts| - 1])
  }

  /** The index where the loop stands, once everything before it has proceeded. */
  lemma FirstStopAt(C: CapBits, opts: seq<Opt>, k: nat)
    requires k <= |opts|
    requires forall j :: 0 <= j < k ==> Proceeds(C, opts[j])
    requires k < |opts| ==> !Proceeds(C, opts[k])
    ensures FirstStop(C, opts) == k
  {
    hide Proceeds;
  }

  lemma NoOptions(C: CapBits, inherited: Mask)
    ensures FinalMask(C, inherited, []) == inherited && EffectsOf([]) == []
  {
  }

  /** One more option processed. */
  lemma StepOption(C: CapBits, inherited: Mask, opts: seq<Opt>, k: nat)
    requires k < |opts|
    requires forall j :: 0 <= j < k ==> Proceeds(C, opts[j])
    ensures EffectsOf(opts[..k + 1]) == EffectsOf(opts[..k]) + EffectOf(opts[k])
    ensures !Proceeds(C, opts[k]) ==> FirstStop(C, opts) == k
    ensures Proceeds(C, opts[k]) ==>
              FinalMask(C, inherited, opts[..k + 1]) ==
              if opts[k].Caps? then CapMask(C, opts[k].list).value
              else FinalMask(C, inherited, opts[..k])
  {
    hide CapMask;
    if !Proceeds(C, opts[k]) {
      FirstStopAt(C, opts, k);
    }
    assert opts[..k + 1][..k] == opts[..k];
  }

  method RequestFilter(path: string) returns (e: Effect)
    ensures forall denied :: [e] == EffectOf(Filter(path, denied))
    ensures forall rest :: path == "/dev/" + rest ==> e == AddPermissions(rest, 95)
    ensures !("/dev/" <= path) ==> e == AddPermissions(path, 31)
  {
    StrnEqPrefix(path, "/dev/");
    if StrnEq(path, "/dev/", 5) {
      e := AddPermissions(path[5..], DEV_PERMS);
    } else {
      e := AddPermissions(path, FILE_PERMS);
    }
  }

  /** The whole option loop. */
  method Options(C: CapBits, inherited: Mask, opts: seq<Opt>)
    returns (out: Outcome, effects: seq<Effect>)
    requires forall o :: o in opts && o.Caps? ==> NUL !in o.list
    ensures out == Verdict(C, inherited, opts)
    ensures var k := FirstStop(C, opts);
            effects == EffectsOf(opts[..if k < |opts| then k + 1 else k])
  {
    hide CapMask, PolicyOf, UntilNul, FinalMask, EffectsOf, FirstStop;
    NoOptions(C, inherited);
    assert opts[..0] == [];
    var translated := inherited;
    effects := [];
    var k := 0;
    while k < |opts|
      invariant k <= |opts|
      invariant forall j :: 0 <= j < k ==> Proceeds(C, opts[j])
      invariant translated == FinalMask(C, inherited, opts[..k])
      invariant effects == EffectsOf(opts[..k])
    {
      StepOption(C, inherited, opts, k);
      match opts[k] {
        case Help => return Exit(0), effects;
        case Version => return Exit(0), effects;
        case Caps(list) =>
          var st := new Strtok();
          var optarg := NewBuffer(list, |list| + 1);
          var caps := ParseCapabilities(C, st, optarg);
          if caps.None? {
            return Exit(1), effects;
          }
          translated := caps.value;
        case Filter(path, denied) =>
          var e := RequestFilter(path);
          effects := effects + [e];
          if denied {
            return Exit(1), effects;
          }
        case Policy(name) =>
          var p := PolicyOf(name);
          if p.None? {
            return Exit(1), effects;
          }
          effects := effects + [SetEnforcement(p.value)];
        case MissingArg => return Exit(1), effects;
        case Unknown => return Run(translated), effects;
      }
      k := k + 1;
    }
    FirstStopAt(C, opts, k);
    assert opts[..k] == opts;
    out := Run(translated);
  }

  /** Option k is the last -c of the list. */
  predicate IsLastCaps(opts: seq<Opt>, k: nat) {
    k < |opts| && opts[k].Caps? && forall j :: k < j < |opts| ==> !opts[j].Caps?
  }

  lemma {:induction false} FinalMaskMeaning(C: CapBits, inherited: Mask, run: seq<Opt>)
    requires forall j :: 0 <= j < |run| ==> Proceeds(C, run[j])
    ensures forall k: nat :: IsLastCaps(run, k) ==>
              CapMask(C, run[k].list) == Some(FinalMask(C, inherited, run))
    ensures (forall j :: 0 <= j < |run| ==> !run[j].Caps?) ==> FinalMask(C, inherited, run) == inherited
  {
    hide CapMask, PolicyOf;
    if run != [] {
      var n := |run| - 1;
      FinalMaskMeaning(C, inherited, run[..n]);
      assert Proceeds(C, run[n]);
      forall k: nat | IsLastCaps(run, k)
        ensures CapMask(C, run[k].list) == Some(FinalMask(C, inherited, run))
      {
        if k < n {
          assert IsLastCaps(run[..n], k);
        }
      }
    }
  }

  /** For every list of options: the command is run exactly when the options that proceed are
      all of them or are followed by an unrecognised one, which ends the options. Then the last
      -c among them decides the mask, whatever came before it, and without any -c the
      inherited mask is kept. */
  lemma LastCapsDecides(C: CapBits, inherited: Mask, opts: seq<Opt>)
    ensures var run, v := opts[..FirstStop(C, opts)], Verdict(C, inherited, opts);
            && (v.Run? <==> |run| == |opts| || opts[|run|].Unknown?)
            && (v.Run? ==> forall k: nat :: IsLastCaps(run, k) ==> CapMask(C, run[k].list) == Some(v.caps))
            && (v.Run? && (forall j :: 0 <= j < |run| ==> !run[j].Caps?) ==> v.caps == inherited)
  {
    hide CapMask, PolicyOf;
    FinalMaskMeaning(C, inherited, opts[..FirstStop(C, opts)]);
  }

  // ---------- what single options do ----------

  predicate StartsWith(s: string, c: char) {
    s != "" && s[0] == c
  }

  /** When an option lets the loop go on, and the status of the program when it does not. */
  lemma OptionEnds(C: CapBits, inherited: Mask, before: seq<Opt>, o: Opt, after: seq<Opt>)
    requires forall p :: p in before ==> Proceeds(C, p)
    ensures var v := Verdict(C, inherited, before + [o] + after);
            match o
            case Help => v == Exit(0)
            case Version => v == Exit(0)
            case MissingArg => v == Exit(1)
            case Unknown => v == Run(FinalMask(C, inherited, before))
            case Caps(list) => CapMask(C, list).None? ==> v == Exit(1)
            case Filter(_, denied) => denied ==> v == Exit(1)
            case Policy(name) =>
              !StartsWith(name, 'D') && !StartsWith(name, 'S') && !StartsWith(name, 'K') ==> v == Exit(1)
    ensures Proceeds(C, o) <==>
              match o
              case Caps(list) => CapMask(C, list).Some?
              case Filter(_, denied) => !denied
              case Policy(name) => StartsWith(name, 'D') || StartsWith(name, 'S') || StartsWith(name, 'K')
              case _ => false
  {
    hide CapMask, FinalMask;
    var all, k := before + [o] + after, |before|;
    assert all[k] == o && all[..k] == before;
    assert forall j :: 0 <= j < k ==> all[j] in before;
    if o.Policy? {
      PolicyLetters(o.name);
    }
    hide PolicyOf;
    if !Proceeds(C, o) {
      FirstStopAt(C, all, k);
    }
  }

  lemma PolicyLetters(name: string)
    ensures PolicyOf(name) == Some(Deny) <==> StartsWith(name, 'D')
    ensures PolicyOf(name) == Some(DenyAndScream) <==> StartsWith(name, 'S')
    ensures PolicyOf(name) == Some(Kill) <==> StartsWith(name, 'K')
  {
    StrnEqPrefix(name, "D");
    StrnEqPrefix(name, "S");
    StrnEqPrefix(name, "K");
    hide StrnEq;
  }

  lemma {:induction false} EffectsConcat(a: seq<Opt>, b: seq<Opt>)
    ensures EffectsOf(a + b) == EffectsOf(a) + EffectsOf(b)
  {
    hide EffectOf;
    if b == [] {
      assert a + b == a;
    } else {
      var s := a + b;
      assert s[..|s| - 1] == a + b[..|b| - 1];
      EffectsConcat(a, b[..|b| - 1]);
    }
  }

  /** What each option asks of the kernel, in the order of the options. */
  lemma OptionRequests(before: seq<Opt>, o: Opt)
    ensures EffectsOf([]) == []
    ensures EffectsOf(before + [o]) == EffectsOf(before) +
              match o
              case Filter(path, _) =>
                if "/dev/" <= path then [AddPermissions(path[5..], 95)] else [AddPermissions(path, 31)]
              case Policy(name) =>
                if StartsWith(name, 'D') then [SetEnforcement(Deny)]
                else if StartsWith(name, 'S') then [SetEnforcement(DenyAndScream)]
                else if StartsWith(name, 'K') then [SetEnforcement(Kill)]
                else []
              case _ => []
  {
    assert (before + [o])[..|before|] == before;
    if o.Policy? {
      PolicyLetters(o.name);
    }
    hide PolicyOf;
  }
}
