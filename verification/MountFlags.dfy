/** The two parsers of comma-separated mount flags: `mount -f`, which matches by prefix and
    rejects what it does not know, and the fstab options column, which matches whole words
    and ignores the rest. */
module MountFlags {
  import opened Common
  import opened Tokens
  import opened StrtokLib
  import opened Masks

  /** The MS_* constants of the system's headers: the position of each one's single bit. */
  datatype FlagBits = FlagBits(rdonly: nat, relatime: nat, noatime: nat, remount: nat) {
    predicate Valid() {
      && rdonly != relatime && rdonly != noatime && rdonly != remount
      && relatime != noatime && relatime != remount && noatime != remount
    }
  }

  const FSTAB_DELIMS: set<char> := {' ', ','}

  /** One token of `mount -f`: three words match as prefixes, `noatime` only whole. */
  function OptionFlag(F: FlagBits, tok: string): Option<nat> {
    if tok == "noatime" then Some(F.noatime)
    else if "relatime" <= tok then Some(F.relatime)
    else if "ro" <= tok then Some(F.rdonly)
    else if "remount" <= tok then Some(F.remount)
    else None
  }

  /** One token of an fstab options column. */
  function FstabFlag(F: FlagBits, tok: string): Option<nat> {
    if tok == "ro" then Some(F.rdonly)
    else if tok == "relatime" then Some(F.relatime)
    else if tok == "noatime" then Some(F.noatime)
    else None
  }

  function OptionChain(F: FlagBits): Chain {
    (tok: string) => OptionFlag(F, tok)
  }

  function FstabChain(F: FlagBits): Chain {
    (tok: string) => FstabFlag(F, tok)
  }

  /** What `-f list` ORs into the flags, or None when mount gives up. */
  function OptionMask(F: FlagBits, list: string): Option<Mask> {
    ParseAll(OptionChain(F), Split(list, COMMA))
  }

  /** What an options column of an fstab line means. */
  function FstabMask(F: FlagBits, options: string): Mask {
    Bits(FstabChain(F), Split(options, FSTAB_DELIMS))
  }

  lemma OptionLoop(F: FlagBits, flags0: Mask, list: string)
    ensures Loop(OptionChain(F), true, flags0, Split(list, COMMA)) ==
            match OptionMask(F, list) case Some(m) => Some(flags0 + m) case None => None
  {
    LoopAddsBits(OptionChain(F), true, flags0, Split(list, COMMA));
  }

  /** No flag word is a prefix of another: one token never matches two of them. */
  lemma WordsApart(t: string)
    ensures !("remount" <= t && "ro" <= t)
    ensures !("remount" <= t && "relatime" <= t)
    ensures !("ro" <= t && "relatime" <= t)
    ensures t == "noatime" ==> !("remount" <= t) && !("ro" <= t) && !("relatime" <= t)
  {
    assert "remount" <= t ==> t[0] == 'r' && t[1] == 'e' && t[2] == 'm';
    assert "ro" <= t ==> t[0] == 'r' && t[1] == 'o';
    assert "relatime" <= t ==> t[0] == 'r' && t[1] == 'e' && t[2] == 'l';
    assert t == "noatime" ==> t[0] == 'n';
  }

  /** The body of the -f loop: the bit of one token, or failure. */
  method ApplyOption(F: FlagBits, tok: string, flags0: Mask) returns (flags: Option<Mask>)
    ensures flags == match OptionFlag(F, tok) case Some(b) => Some(flags0 + {b}) case None => None
  {
    StrnEqPrefix(tok, "remount");
    StrnEqPrefix(tok, "ro");
    StrnEqPrefix(tok, "relatime");
    StrnEqWhole(tok, "noatime");
    WordsApart(tok);
    hide StrnEq;
    if StrnEq(tok, "remount", 7) {
      flags := Some(flags0 + {F.remount});
    } else if StrnEq(tok, "ro", 2) {
      flags := Some(flags0 + {F.rdonly});
    } else if StrnEq(tok, "relatime", 8) {
      flags := Some(flags0 + {F.relatime});
    } else if StrnEq(tok, "noatime", 8) {
      flags := Some(flags0 + {F.noatime});
    } else {
      flags := None;
    }
  }

  /** The loop of `case 'f'`: flags accumulate over several -f options; None is exit status 1. */
  method ParseOptionFlags(F: FlagBits, st: Strtok, optarg: array<char>, flags0: Mask)
    returns (flags: Option<Mask>)
    requires NUL in optarg[..]
    modifies st, optarg
    ensures st.Valid()
    ensures flags == match OptionMask(F, UntilNul(old(optarg[..])))
                     case Some(m) => Some(flags0 + m)
                     case None => None
  {
    hide OptionFlag;
    flags := Some(flags0);
    var tok := st.First(optarg, COMMA);
    ghost var toks := Split(st.text, COMMA);
    while tok.Some?
      invariant st.Valid() && st.buf == optarg
      invariant flags.Some?
      invariant Loop(OptionChain(F), true, flags0, toks) ==
                Loop(OptionChain(F), true, flags.value, Pending(st, tok, COMMA))
      decreases if tok.Some? then 1 + |st.text| - st.pos else 0
    {
      flags := ApplyOption(F, tok.value, flags.value);
      if flags.None? {
        break;
      }
      tok := st.Next(COMMA);
    }
    OptionLoop(F, flags0, UntilNul(old(optarg[..])));
  }

  /** The strtok loop over the options buffer of one fstab line. */
  method ParseFstabOptions(F: FlagBits, st: Strtok, options: array<char>) returns (flags: Mask)
    requires NUL in options[..]
    modifies st, options
    ensures st.Valid() && st.buf == options
    ensures flags == FstabMask(F, UntilNul(old(options[..])))
  {
    flags := {};
    var tok := st.First(options, FSTAB_DELIMS);
    ghost var toks := Split(st.text, FSTAB_DELIMS);
    LoopAddsBits(FstabChain(F), false, {}, toks);
    while tok.Some?
      invariant st.Valid() && st.buf == options
      invariant Loop(FstabChain(F), false, {}, toks) ==
                Loop(FstabChain(F), false, flags, Pending(st, tok, FSTAB_DELIMS))
      decreases if tok.Some? then 1 + |st.text| - st.pos else 0
    {
      if tok.value == "ro" {
        flags := flags + {F.rdonly};
      } else if tok.value == "relatime" {
        flags := flags + {F.relatime};
      } else if tok.value == "noatime" {
        flags := flags + {F.noatime};
      }
      tok := st.Next(FSTAB_DELIMS);
    }
  }

  /** t is one of the three words both parsers know, or starts with one that is in the list. */
  predicate Covered(t: string, toks: seq<string>) {
    || t == "noatime"
    || ("ro" <= t && "ro" in toks)
    || ("relatime" <= t && "relatime" in toks)
  }

  /** No token matches two branches of the -f chain, so their order is irrelevant. */
  lemma OptionFlagMeaning(F: FlagBits, t: string)
    ensures "remount" <= t ==> OptionFlag(F, t) == Some(F.remount)
    ensures "ro" <= t ==> OptionFlag(F, t) == Some(F.rdonly)
    ensures "relatime" <= t ==> OptionFlag(F, t) == Some(F.relatime)
    ensures t == "noatime" ==> OptionFlag(F, t) == Some(F.noatime)
    ensures OptionFlag(F, t).Some? ==>
              "remount" <= t || "ro" <= t || "relatime" <= t || t == "noatime"
  {
    WordsApart(t);
  }

  /** On covered lists each parser finds every bit the other finds. */
  lemma CoveredAgree(F: FlagBits, toks: seq<string>)
    requires forall t :: t in toks ==> Covered(t, toks)
    ensures ParseAll(OptionChain(F), toks) == Some(Bits(FstabChain(F), toks))
  {
    hide OptionFlag;
    forall t | t in toks
      ensures OptionFlag(F, t).Some? && OptionFlag(F, t).value in Bits(FstabChain(F), toks)
      ensures FstabFlag(F, t).Some? ==> FstabFlag(F, t) == OptionFlag(F, t)
    {
      OptionFlagMeaning(F, t);
      WordsApart(t);
      var w := if t == "noatime" then t else if "ro" <= t then "ro" else "relatime";
      assert w in toks && FstabChain(F)(w) == OptionFlag(F, t);
    }
    assert Bits(OptionChain(F), toks) == Bits(FstabChain(F), toks);
  }

  lemma AgreeCovered(F: FlagBits, toks: seq<string>, t: string)
    requires F.Valid() && t in toks
    requires ParseAll(OptionChain(F), toks) == Some(Bits(FstabChain(F), toks))
    ensures Covered(t, toks)
  {
    hide OptionFlag;
    OptionFlagMeaning(F, t);
    assert OptionChain(F)(t) == OptionFlag(F, t);
    var b := OptionFlag(F, t).value;
    assert b in Bits(OptionChain(F), toks);
    var u :| u in toks && FstabChain(F)(u) == Some(b);
  }

  /** The two parsers give one list the same mask if and only if each token is `noatime`, or
      starts with `ro` or `relatime` and the bare word is in the list too. In particular they
      agree on every list of exactly those three words, and never on a list with `remount`.
      An options column is a white-space-delimited field, so it never holds a space. */
  lemma FlagParsersAgree(F: FlagBits, list: string)
    requires F.Valid() && ' ' !in list
    ensures OptionMask(F, list) == Some(FstabMask(F, list)) <==>
            forall t :: t in Split(list, COMMA) ==> Covered(t, Split(list, COMMA))
  {
    var toks := Split(list, COMMA);
    SplitSameDelims(list, COMMA, FSTAB_DELIMS, 0);
    if OptionMask(F, list) == Some(FstabMask(F, list)) {
      forall t | t in toks ensures Covered(t, toks) {
        AgreeCovered(F, toks, t);
      }
    } else if forall t :: t in toks ==> Covered(t, toks) {
      CoveredAgree(F, toks);
    }
  }

  /** Joining two -f lists with a comma ORs their masks and fails if either fails. */
  lemma OptionMaskConcat(F: FlagBits, a: string, b: string)
    ensures OptionMask(F, a + [','] + b) ==
            if OptionMask(F, a).Some? && OptionMask(F, b).Some?
            then Some(OptionMask(F, a).value + OptionMask(F, b).value) else None
  {
    hide OptionFlag;
    SplitConcat(a, ',', b, COMMA);
    ParseConcat(OptionChain(F), Split(a, COMMA), Split(b, COMMA));
  }

  /** Joining two options columns with a comma ORs their masks. */
  lemma FstabMaskConcat(F: FlagBits, a: string, b: string)
    ensures FstabMask(F, a + [','] + b) == FstabMask(F, a) + FstabMask(F, b)
  {
    hide FstabFlag;
    SplitConcat(a, ',', b, FSTAB_DELIMS);
    var x, y := Split(a, FSTAB_DELIMS), Split(b, FSTAB_DELIMS);
    assert forall t :: t in x + y <==> t in x || t in y;
  }

  /** Reordering or repeating flags, and empty items, do not change what -f makes of a list. */
  lemma OptionOrderIrrelevant(F: FlagBits, a: string, b: string)
    requires forall t :: t in Split(a, COMMA) <==> t in Split(b, COMMA)
    ensures OptionMask(F, a) == OptionMask(F, b)
  {
    hide OptionFlag;
    ParseOfSet(OptionChain(F), Split(a, COMMA), Split(b, COMMA));
  }

  /** Nor what an options column means. */
  lemma FstabOrderIrrelevant(F: FlagBits, a: string, b: string)
    requires forall t :: t in Split(a, FSTAB_DELIMS) <==> t in Split(b, FSTAB_DELIMS)
    ensures FstabMask(F, a) == FstabMask(F, b)
  {
    hide FstabFlag;
    var x, y := Split(a, FSTAB_DELIMS), Split(b, FSTAB_DELIMS);
    assert forall t :: t in x <==> t in y;
  }

  /** Some item of the list starts with the word. */
  predicate Asks(list: string, word: string) {
    exists t :: t in Split(list, COMMA) && word <= t
  }

  /** The -f list in words: accepted if and only if every item is known, and then exactly the
      flags that were asked for are set. */
  lemma OptionMaskMeaning(F: FlagBits, list: string)
    requires F.Valid()
    ensures OptionMask(F, list).Some? <==>
              forall t :: t in Split(list, COMMA) ==>
                "remount" <= t || "ro" <= t || "relatime" <= t || t == "noatime"
    ensures OptionMask(F, list).Some? ==>
              var m := OptionMask(F, list).value;
              && m <= {F.remount, F.rdonly, F.relatime, F.noatime}
              && (F.remount in m <==> Asks(list, "remount")) && (F.rdonly in m <==> Asks(list, "ro"))
              && (F.relatime in m <==> Asks(list, "relatime"))
              && (F.noatime in m <==> "noatime" in Split(list, COMMA))
  {
    var toks := Split(list, COMMA);
    forall t: string
      ensures OptionChain(F)(t).Some? <==> "remount" <= t || "ro" <= t || "relatime" <= t || t == "noatime"
      ensures OptionChain(F)(t) == Some(F.remount) <==> "remount" <= t
      ensures OptionChain(F)(t) == Some(F.rdonly) <==> "ro" <= t
      ensures OptionChain(F)(t) == Some(F.relatime) <==> "relatime" <= t
      ensures OptionChain(F)(t) == Some(F.noatime) <==> t == "noatime"
    {
      OptionFlagMeaning(F, t);
    }
    hide OptionFlag, Split;
  }

  /** The options column in words: only three words count, and only whole. */
  lemma FstabMaskMeaning(F: FlagBits, options: string)
    requires F.Valid()
    ensures var m, toks := FstabMask(F, options), Split(options, FSTAB_DELIMS);
            && m <= {F.rdonly, F.relatime, F.noatime}
            && (F.rdonly in m <==> "ro" in toks) && (F.relatime in m <==> "relatime" in toks)
            && (F.noatime in m <==> "noatime" in toks)
  {
    var toks := Split(options, FSTAB_DELIMS);
    assert FstabChain(F)("ro") == Some(F.rdonly);
    assert FstabChain(F)("relatime") == Some(F.relatime);
    assert FstabChain(F)("noatime") == Some(F.noatime);
    hide Split;
  }

  /** A comma and a space both end an option of the column. */
  lemma ColumnDelimiters(options: string)
    requires options != ""
    ensures Split(options, FSTAB_DELIMS) == [options] <==> ',' !in options && ' ' !in options
  {
    SplitWhole(options, FSTAB_DELIMS);
  }
}
