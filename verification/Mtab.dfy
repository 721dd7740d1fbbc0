/** mount's /etc/mtab writer, and what its reader makes of the text. */
module Mtab {
  import opened Common
  import opened Tokens
  import opened Masks
  import opened MountFlags
  import opened Devices
  import opened Fstab

  const NAME_SIZE := 20
  const LIST_SIZE := 5

  /** One element of the kernel's mount list: names are byte arrays with a length. */
  datatype MountInfo = MountInfo(fsType: int, flags: Mask,
                                 source: string, sourceLength: nat,
                                 location: string, locationLength: nat)

  /** `%.*s` may be given the array: its precision stays inside it, or a NUL does. */
  predicate Printable(name: string, length: nat) {
    |name| == NAME_SIZE && (length <= NAME_SIZE || NUL in name)
  }

  predicate ValidInfo(T: FsTypes, r: MountInfo) {
    && Printable(r.source, r.sourceLength) && Printable(r.location, r.locationLength)
    && TypeToString(T, r.fsType).Some?
  }

  /** What `%.*s` prints: at most `length` characters, and none from a NUL on. */
  function Printed(name: string, length: nat): (s: string)
    ensures |s| <= |name| && NUL !in s
  {
    UntilNul(Take(name, length))
  }

  function Source(r: MountInfo): string { Printed(r.source, r.sourceLength) }

  function Location(r: MountInfo): string { Printed(r.location, r.locationLength) }

  function AccessWord(F: FlagBits, flags: Mask): string {
    if F.rdonly in flags then "ro" else "rw"
  }

  function TimeWord(F: FlagBits, flags: Mask): string {
    if F.relatime in flags then "relatime" else if F.noatime in flags then "noatime" else ""
  }

  function TimePart(F: FlagBits, flags: Mask): string {
    if TimeWord(F, flags) == "" then "" else "," + TimeWord(F, flags)
  }

  function OptionsText(F: FlagBits, flags: Mask): string {
    AccessWord(F, flags) + TimePart(F, flags)
  }

  /** One line without its newline: six fields. */
  function InfoLine(S: System, r: MountInfo): string
    requires ValidInfo(S.types, r)
  {
    SixFieldLine("/dev/" + Source(r), Location(r), TypeToString(S.types, r.fsType).value,
                 OptionsText(S.flags, r.flags), "0", "0")
  }

  function MtabText(S: System, rs: seq<MountInfo>): string
    requires forall r :: r in rs ==> ValidInfo(S.types, r)
  {
    if rs == [] then "" else InfoLine(S, rs[0]) + "\n" + MtabText(S, rs[1..])
  }

  lemma {:induction false} MtabSnoc(S: System, rs: seq<MountInfo>, r: MountInfo)
    requires forall r :: r in rs ==> ValidInfo(S.types, r)
    requires ValidInfo(S.types, r)
    ensures MtabText(S, rs + [r]) == MtabText(S, rs) + (InfoLine(S, r) + "\n")
  {
    hide InfoLine;
    if rs == [] {
      assert rs + [r] == [r];
      assert [r][1..] == [];
    } else {
      assert (rs + [r])[1..] == rs[1..] + [r];
      MtabSnoc(S, rs[1..], r);
    }
  }

  /** The fprintf calls for one mount. */
  method WriteRecord(S: System, r: MountInfo, text0: string) returns (text: string)
    requires ValidInfo(S.types, r)
    ensures text == text0 + (InfoLine(S, r) + "\n")
  {
    hide Source, Location, TypeToString, InfoLine;
    text := text0 + ("/dev/" + Source(r) + " ");
    text := text + (Location(r) + " ");
    text := text + (TypeToString(S.types, r.fsType).value + " ");
    ghost var t0 := text;
    if S.flags.rdonly in r.flags {
      text := text + "ro";
    } else {
      text := text + "rw";
    }
    assert text == t0 + AccessWord(S.flags, r.flags);
    ghost var t1 := text;
    if S.flags.relatime in r.flags {
      text := text + ",relatime";
    } else if S.flags.noatime in r.flags {
      text := text + ",noatime";
    }
    assert text == t1 + TimePart(S.flags, r.flags) by { TimePartMeaning(S.flags, r.flags); }
    text := text + " 0 0\n";
    LinePieces(S, r, text0, text);
  }

  lemma TimePartMeaning(F: FlagBits, flags: Mask)
    ensures TimePart(F, flags) == if F.relatime in flags then ",relatime"
                                  else if F.noatime in flags then ",noatime" else ""
  {
  }

  /** update_mtab: `ret` is the number of mounts the kernel reports, `opens` whether the file
      can be opened. None means that it was not written, otherwise it holds the text. */
  method UpdateMtab(S: System, ret: int, buffer: seq<MountInfo>, opens: bool)
    returns (status: int, mtab: Option<string>)
    requires |buffer| == LIST_SIZE
    requires forall i :: 0 <= i < LIST_SIZE && i < ret ==> ValidInfo(S.types, buffer[i])
    ensures mtab.None? <==> ret == -1 || ret > 5 || !opens
    ensures status == if mtab.None? then 1 else 0
    ensures mtab.Some? ==> mtab.value == MtabText(S, buffer[..if ret < 0 then 0 else ret])
  {
    hide Printed, TypeToString, MtabText, InfoLine;
    if ret == -1 || ret > LIST_SIZE {
      return 1, None;
    }
    if !opens {
      return 1, None;
    }
    var text := "";
    MtabNothing(S);
    assert buffer[..0] == [];
    var i := 0;
    while i < ret
      invariant 0 <= i && (i <= ret || i == 0)
      invariant forall r :: r in buffer[..i] ==> ValidInfo(S.types, r)
      invariant text == MtabText(S, buffer[..i])
    {
      var r := buffer[i];
      text := WriteRecord(S, r, text);
      MtabSnoc(S, buffer[..i], r);
      assert buffer[..i + 1] == buffer[..i] + [r];
      i := i + 1;
    }
    status, mtab := 0, Some(text);
  }

  lemma MtabNothing(S: System)
    ensures MtabText(S, []) == ""
  {
  }

  /** Six fields and their separators, appended one by one. */
  lemma Append(start: string, d: string, l: string, t: string, a: string, m: string, z: string)
    ensures start + d + l + t + a + m + z == start + (d + (l + (t + (a + (m + z)))))
  {
    Glue(start + d + l + t + a, m, z);
    Glue(start + d + l + t, a, m + z);
    Glue(start + d + l, t, a + (m + z));
    Glue(start + d, l, t + (a + (m + z)));
    Glue(start, d, l + (t + (a + (m + z))));
  }

  /** The pieces the writer appends make up one line. */
  lemma {:induction false} LinePieces(S: System, r: MountInfo, start: string, text: string)
    requires ValidInfo(S.types, r)
    requires text == start + ("/dev/" + Source(r) + " ") + (Location(r) + " ")
                     + (TypeToString(S.types, r.fsType).value + " ")
                     + AccessWord(S.flags, r.flags) + TimePart(S.flags, r.flags) + " 0 0\n"
    ensures text == start + (InfoLine(S, r) + "\n")
  {
    hide Source, Location, TypeToString, AccessWord, TimePart;
    var d, l, t := "/dev/" + Source(r) + " ", Location(r) + " ", TypeToString(S.types, r.fsType).value + " ";
    var a, m, e := AccessWord(S.flags, r.flags), TimePart(S.flags, r.flags), "0" + " " + "0";
    Append(start, d, l, t, a, m, " 0 0\n");
    assert " 0 0\n" == " " + e + "\n";
    var x := (a + m) + " " + e;
    assert x + "\n" == a + (m + " 0 0\n") by {
      Glue(a + m, " ", e);
      Glue(a + m, " " + e, "\n");
      Glue(a, m, " 0 0\n");
    }
    Glue(t, x, "\n");
    Glue(l, t + x, "\n");
    Glue(d, l + (t + x), "\n");
  }

  // ---------- what the reader makes of it ----------

  /** The names survive as single fields and the type reads back. */
  predicate Clean(T: FsTypes, r: MountInfo) {
    CleanNames(r) && r.fsType != T.dev
  }

  predicate CleanNames(r: MountInfo) {
    DelimFree(Source(r), SPACES) && DelimFree(Location(r), SPACES) && Location(r) != ""
  }

  /** The flags that the options column can carry. */
  function Normalised(F: FlagBits, flags: Mask): Mask {
    (if F.rdonly in flags then {F.rdonly} else {}) +
    (if F.relatime in flags then {F.relatime} else if F.noatime in flags then {F.noatime} else {})
  }

  /** Nothing is lost exactly when only the three flags occur and at most one about atime. */
  lemma NormalisedKeeps(F: FlagBits, flags: Mask)
    requires F.Valid()
    ensures Normalised(F, flags) == flags <==>
            flags <= {F.rdonly, F.relatime, F.noatime} && !(F.relatime in flags && F.noatime in flags)
  {
  }

  /** The mount a record should turn into when its line is read. */
  function Expected(S: System, r: MountInfo): Action {
    ExpectedAs(S, r, r.fsType)
  }

  function ExpectedAs(S: System, r: MountInfo, fsType: int): Action {
    Mount("/dev/" + Source(r), Location(r), fsType, Normalised(S.flags, r.flags))
  }

  function AllExpected(S: System, rs: seq<MountInfo>): seq<Action> {
    if rs == [] then [] else [Expected(S, rs[0])] + AllExpected(S, rs[1..])
  }

  lemma AccessWordFacts(F: FlagBits, flags: Mask)
    ensures var a := AccessWord(F, flags);
            && |a| == 2 && DelimFree(a, SPACES) && DelimFree(a, FSTAB_DELIMS) && NUL !in a
            && FstabFlag(F, a) == if F.rdonly in flags then Some(F.rdonly) else None
  {
  }

  lemma TimeWordFacts(F: FlagBits, flags: Mask)
    ensures var t := TimeWord(F, flags);
            && |t| <= 8 && DelimFree(t, SPACES) && DelimFree(t, FSTAB_DELIMS) && NUL !in t
            && (t == "" <==> F.relatime !in flags && F.noatime !in flags)
            && FstabFlag(F, t) == if F.relatime in flags then Some(F.relatime)
                                  else if F.noatime in flags then Some(F.noatime) else None
  {
  }

  lemma OptionsTextFacts(F: FlagBits, flags: Mask)
    ensures var o := OptionsText(F, flags);
            0 < |o| <= 11 && DelimFree(o, SPACES) && NUL !in o
  {
    AccessWordFacts(F, flags);
    TimeWordFacts(F, flags);
    hide AccessWord, TimeWord;
    assert DelimFree(",", SPACES) && NUL !in ",";
  }

  /** The options column as fstab reads it. */
  lemma OptionsReadBack(F: FlagBits, flags: Mask)
    ensures FstabMask(F, OptionsText(F, flags)) == Normalised(F, flags)
  {
    var a, t := AccessWord(F, flags), TimeWord(F, flags);
    AccessWordFacts(F, flags);
    TimeWordFacts(F, flags);
    hide AccessWord, TimeWord, FstabFlag, Split;
    if t == "" {
      SplitWord(a, FSTAB_DELIMS);
      assert OptionsText(F, flags) == a;
      OneFlag(F, a);
    } else {
      SplitCons(a, ',', t, FSTAB_DELIMS);
      SplitWord(t, FSTAB_DELIMS);
      assert OptionsText(F, flags) == a + [','] + t;
      TwoFlags(F, a, t);
    }
  }

  lemma OneFlag(F: FlagBits, a: string)
    ensures Bits(FstabChain(F), [a]) == if FstabFlag(F, a).Some? then {FstabFlag(F, a).value} else {}
  {
    hide FstabFlag;
    assert FstabChain(F)(a) == FstabFlag(F, a);
  }

  lemma TwoFlags(F: FlagBits, a: string, t: string)
    ensures Bits(FstabChain(F), [a] + [t]) ==
            (if FstabFlag(F, a).Some? then {FstabFlag(F, a).value} else {}) +
            (if FstabFlag(F, t).Some? then {FstabFlag(F, t).value} else {})
  {
    hide FstabFlag;
    assert FstabChain(F)(a) == FstabFlag(F, a) && FstabChain(F)(t) == FstabFlag(F, t);
    assert a in [a] + [t] && t in [a] + [t];
  }

  lemma TypeWordFacts(T: FsTypes, t: int)
    requires TypeToString(T, t).Some?
    ensures var w := TypeToString(T, t).value;
            0 < |w| <= 5 && DelimFree(w, SPACES) && NUL !in w
  {
  }

  lemma PathFacts(r: MountInfo)
    ensures var d := "/dev/" + Source(r);
            && d[0] == '/' && |d| <= 25 + (|r.source| - NAME_SIZE) && NUL !in d
            && (DelimFree(Source(r), SPACES) <==> DelimFree(d, SPACES))
  {
    var d := "/dev/" + Source(r);
    assert DelimFree("/dev/", SPACES) && NUL !in "/dev/";
    hide Source;
    assert forall j :: 0 <= j < |Source(r)| ==> Source(r)[j] == d[j + 5];
  }

  /** A line with clean names has exactly the six fields it was printed from. */
  lemma LineFields(S: System, r: MountInfo)
    requires ValidInfo(S.types, r) && CleanNames(r)
    ensures Split(InfoLine(S, r) + "\n", SPACES) ==
            ["/dev/" + Source(r), Location(r), TypeToString(S.types, r.fsType).value,
             OptionsText(S.flags, r.flags), "0", "0"]
  {
    PathFacts(r);
    TypeWordFacts(S.types, r.fsType);
    OptionsTextFacts(S.flags, r.flags);
    assert DelimFree("0", SPACES);
    hide Split, OptionsText, TypeToString, Source, Location;
    SixFieldSplit("/dev/" + Source(r), Location(r), TypeToString(S.types, r.fsType).value,
                  OptionsText(S.flags, r.flags), "0", "0");
  }

  lemma NameLengths(T: FsTypes, r: MountInfo)
    requires ValidInfo(T, r)
    ensures |"/dev/" + Source(r)| <= 25 && |Location(r)| <= 20
  {
  }

  lemma FieldsFitBuffers(S: System, r: MountInfo)
    requires ValidInfo(S.types, r) && CleanNames(r)
    ensures FieldsFit(InfoLine(S, r) + "\n")
  {
    NameLengths(S.types, r);
    TypeWordFacts(S.types, r.fsType);
    OptionsTextFacts(S.flags, r.flags);
    LineFields(S, r);
    LineChars(S, r);
    hide InfoLine, Split, OptionsText, TypeToString, Source, Location, CleanNames, ValidInfo;
    assert (InfoLine(S, r) + "\n")[0] == '/';
  }

  /** Every line is far shorter than the reader's buffer, whatever the names hold, and the
      fields of a line with clean names fit theirs. */
  lemma {:induction false} WidthBound(S: System, r: MountInfo)
    requires ValidInfo(S.types, r)
    ensures |InfoLine(S, r) + "\n"| <= 69 < 150 == BUFFER_SIZE
    ensures CleanNames(r) ==> FieldsFit(InfoLine(S, r) + "\n")
  {
    NameLengths(S.types, r);
    TypeWordFacts(S.types, r.fsType);
    OptionsTextFacts(S.flags, r.flags);
    hide FieldsFit, CleanNames, OptionsText, TypeToString, Source, Location;
    if CleanNames(r) {
      FieldsFitBuffers(S, r);
    }
  }

  lemma Absent(c: char, w: string, rest: string)
    requires c !in w && c != ' ' && c !in rest
    ensures c !in w + " " + rest
  {
  }

  lemma {:induction false} LineChars(S: System, r: MountInfo)
    requires ValidInfo(S.types, r)
    ensures NUL !in InfoLine(S, r)
    ensures CleanNames(r) ==> '\n' !in InfoLine(S, r)
    ensures InfoLine(S, r) != "" && InfoLine(S, r)[0] == '/'
  {
    PathFacts(r);
    TypeWordFacts(S.types, r.fsType);
    OptionsTextFacts(S.flags, r.flags);
    var d, l, t := "/dev/" + Source(r), Location(r), TypeToString(S.types, r.fsType).value;
    var o, z := OptionsText(S.flags, r.flags), "0" + " " + "0";
    assert NUL !in l;
    hide OptionsText, TypeToString, Source, Location;
    var x3 := o + " " + z;
    var x2 := t + " " + x3;
    var x1 := l + " " + x2;
    assert InfoLine(S, r) == d + " " + x1;
    hide InfoLine;
    NotIn('\n', o);
    NotIn('\n', t);
    if CleanNames(r) {
      NotIn('\n', d);
      NotIn('\n', l);
    }
    forall c | c in [NUL, '\n'] && c !in d && c !in l && c !in t && c !in o
      ensures c !in InfoLine(S, r)
    {
      assert c !in z;
      Absent(c, o, z);
      Absent(c, t, x3);
      Absent(c, l, x2);
      Absent(c, d, x1);
    }
    assert NUL in [NUL, '\n'] && '\n' in [NUL, '\n'];
  }

  lemma NotIn(c: char, s: string)
    requires c in SPACES && DelimFree(s, SPACES)
    ensures c !in s
  {
  }

  /** One clean line becomes one mount, by its path: the UUID branch is not taken. */
  lemma LineReadBack(S: System, r: MountInfo)
    requires S.types.Valid() && ValidInfo(S.types, r) && CleanNames(r)
    ensures Treat(S, InfoLine(S, r) + "\n") ==
            Do(ExpectedAs(S, r, if r.fsType == S.types.dev then 0 else r.fsType))
  {
    LineFields(S, r);
    LineChars(S, r);
    OptionsReadBack(S.flags, r.flags);
    TypeRoundTrip(S.types, r.fsType);
    hide InfoLine, Split, OptionsText, TypeToString, StringToType, FstabMask, Normalised;
    var s := "/dev/" + Source(r);
    StrnEqPrefix(s, "UUID=");
    assert s[0] == '/' && "UUID="[0] == 'U';
    assert (InfoLine(S, r) + "\n")[0] == '/';
  }

  lemma {:induction false} CleanRoundTrip(S: System, rs: seq<MountInfo>)
    requires S.types.Valid()
    requires forall r :: r in rs ==> ValidInfo(S.types, r) && Clean(S.types, r)
    ensures Read(S, MtabText(S, rs)) == AllExpected(S, rs)
    ensures FitsFrom(S, MtabText(S, rs), 0)
  {
    hide InfoLine, Treat, Read, FitsFrom, CleanNames, FieldsFit, StopsFrom;
    if rs == [] {
      ReadNothing(S);
      FitsNothing(S);
    } else {
      CleanRoundTrip(S, rs[1..]);
      var line := InfoLine(S, rs[0]);
      WidthBound(S, rs[0]);
      LineChars(S, rs[0]);
      LineReadBack(S, rs[0]);
      ReadCons(S, line, MtabText(S, rs[1..]));
      FitsCons(S, line, MtabText(S, rs[1..]));
    }
  }

  lemma FitsNothing(S: System)
    ensures FitsFrom(S, "", 0)
  {
  }

  lemma FitsCons(S: System, line: string, rest: string)
    requires '\n' !in line && NUL !in line && |line| + 1 < BUFFER_SIZE
    requires FieldsFit(line + "\n") && FitsFrom(S, rest, 0)
    ensures FitsFrom(S, line + "\n" + rest, 0)
  {
    hide FieldsFit, Treat;
    ReadLine(S, line);
    ReadThrough(S, line + "\n", rest, 0);
  }

  // ---------- and no other record round-trips ----------

  /** Directory entries are single path components. */
  predicate ValidDir(dev: DevDir) {
    forall n :: n in dev.entries ==> '/' !in n
  }

  /** What any mount the reader attempts looks like. */
  predicate Issuable(S: System, a: Action) {
    a.Mount? ==>
      && a.target != "" && DelimFree(a.target, SPACES)
      && (DelimFree(a.source, SPACES) || '/' !in a.source)
      && (a.fsType == S.types.ext || a.fsType == S.types.fat || a.fsType == 0)
  }

  lemma {:induction false} SearchFindsEntry(dev: DevDir, text: string, i: nat)
    requires i <= |dev.entries|
    ensures SearchFrom(dev, text, i).Some? ==> SearchFrom(dev, text, i).value in dev.entries
    decreases |dev.entries| - i
  {
    if i < |dev.entries| {
      SearchFindsEntry(dev, text, i + 1);
    }
  }

  lemma TreatIssuable(S: System, line: string)
    requires ValidDir(S.dev) && Treat(S, line).Do?
    ensures Issuable(S, Treat(S, line).action)
  {
    hide SearchFrom, FstabMask;
    var fields := Split(line, SPACES);
    TokensAreWords(line, SPACES, 0);
    assert fields[0] in fields && fields[1] in fields;
    StringToTypeMeaning(S.types, fields[2]);
    StrnEqPrefix(fields[0], "UUID=");
    hide StringToType, StrnEq;
    if "UUID=" <= fields[0] {
      SearchFindsEntry(S.dev, fields[0][5..], 0);
    }
  }

  lemma {:induction false} ReadIssuable(S: System, f: string, i: nat)
    requires i <= |f| && ValidDir(S.dev)
    ensures forall a :: a in ReadFrom(S, f, i) ==> Issuable(S, a)
    decreases |f| - i
  {
    hide Treat, Issuable, UntilNul, NextEnd;
    if i < |f| {
      var e := NextEnd(f, i);
      var line := UntilNul(f[i..e]);
      if Treat(S, line).Do? {
        TreatIssuable(S, line);
      }
      ReadIssuable(S, f, e);
    }
  }

  lemma UncleanNotIssuable(S: System, r: MountInfo)
    requires S.types.Valid() && ValidInfo(S.types, r) && !Clean(S.types, r)
    ensures !Issuable(S, Expected(S, r))
  {
    PathFacts(r);
    hide Source, Location, TypeToString;
    assert '/' in "/dev/" + Source(r) by { assert ("/dev/" + Source(r))[0] == '/'; }
  }

  lemma {:induction false} ExpectedAt(S: System, rs: seq<MountInfo>, k: nat)
    requires k < |rs|
    ensures Expected(S, rs[k]) in AllExpected(S, rs)
  {
    hide Expected;
    if k > 0 {
      ExpectedAt(S, rs[1..], k - 1);
    }
  }

  /** The whole-file round trip. For any list of mounts of known type, the written text is an
      fstab that the reading loop can take, and reading it attempts exactly those mounts, in
      order, with the device path, the location, the type and the normalised flags, if and only
      if no name contains white space, no location is empty and no mount is a devfs. */
  lemma {:induction false} MtabRoundTrip(S: System, rs: seq<MountInfo>)
    requires S.types.Valid() && ValidDir(S.dev)
    requires forall r :: r in rs ==> ValidInfo(S.types, r)
    ensures FitsFrom(S, MtabText(S, rs), 0) && Read(S, MtabText(S, rs)) == AllExpected(S, rs) <==>
            forall r :: r in rs ==> Clean(S.types, r)
  {
    hide MtabText, ValidInfo, Clean, ReadFrom, FitsFrom;
    if r :| r in rs && !Clean(S.types, r) {
      var k :| 0 <= k < |rs| && rs[k] == r;
      ExpectedAt(S, rs, k);
      UncleanNotIssuable(S, r);
      ReadIssuable(S, MtabText(S, rs), 0);
    } else {
      CleanRoundTrip(S, rs);
    }
  }

  /** Four words and more text, regrouped from the left. */
  lemma Regroup(a: string, b: string, c: string, d: string, y: string)
    ensures a + " " + (b + " " + (c + " " + d)) + " " + y ==
            a + " " + (b + " " + (c + " " + (d + " " + y)))
  {
    var e := " " + y;
    assert d + " " + y == d + e;
    Glue(c + " ", d, e);
    Glue(b + " ", c + " " + d, e);
    Glue(a + " ", b + " " + (c + " " + d), e);
    Glue(a + " " + (b + " " + (c + " " + d)), " ", y);
  }

  lemma SpacedPath(y: string)
    ensures "/dev/" + "a b c d" + " " + y == "/dev/a" + " " + ("b" + " " + ("c" + " " + ("d" + " " + y)))
    ensures DelimFree("/dev/a", SPACES) && DelimFree("b", SPACES)
    ensures DelimFree("c", SPACES) && DelimFree("d", SPACES)
  {
    assert "/dev/" + "a b c d" == "/dev/a" + " " + ("b" + " " + ("c" + " " + "d"));
    Regroup("/dev/a", "b", "c", "d", y);
  }

  /** White space in a name shifts the fields after it, and one may land in a buffer that is too
      small: a spaced source pushes a location of ten characters or more into the dump field. */
  lemma UncleanOverflows(S: System, r: MountInfo)
    requires ValidInfo(S.types, r) && Source(r) == "a b c d"
    requires DelimFree(Location(r), SPACES) && |Location(r)| >= 10
    ensures !FieldsFit(InfoLine(S, r) + "\n")
  {
    LineChars(S, r);
    var l := Location(r);
    var z := TypeToString(S.types, r.fsType).value + " " + (OptionsText(S.flags, r.flags) + " " + ("0" + " " + "0"));
    SpacedPath(l + " " + z);
    assert InfoLine(S, r) == "/dev/" + "a b c d" + " " + (l + " " + z);
    hide InfoLine, OptionsText, TypeToString, Source, Location, DelimFree;
    FiveFields("/dev/a", "b", "c", "d", l, z);
    assert (InfoLine(S, r) + "\n")[0] == '/';
  }

  lemma FiveFields(a: string, b: string, c: string, d: string, l: string, z: string)
    requires forall w :: w in [a, b, c, d, l] ==> w != "" && DelimFree(w, SPACES)
    ensures var f := Split(a + " " + (b + " " + (c + " " + (d + " " + (l + " " + z)))) + "\n", SPACES);
            |f| > 4 && f[4] == l
  {
    var words := [a, b, c, d, l];
    assert a in words && b in words && c in words && d in words && l in words;
    var x4 := l + " " + z;
    var x3 := d + " " + x4;
    var x2 := c + " " + x3;
    var x1 := b + " " + x2;
    hide Split, DelimFree;
    FirstField(a, x1);
    FirstField(b, x2);
    FirstField(c, x3);
    FirstField(d, x4);
    FirstField(l, z);
    FifthField(Split(a + " " + x1 + "\n", SPACES), a, b, c, d, l, Split(z + "\n", SPACES));
  }

  lemma FifthField(f: seq<string>, a: string, b: string, c: string, d: string, l: string, rest: seq<string>)
    requires f == [a] + ([b] + ([c] + ([d] + ([l] + rest))))
    ensures |f| > 4 && f[4] == l
  {
  }

  /** A devfs record is the one kind that is written with clean names and still changes: it
      reads back as the mount of type 0. */
  lemma {:induction false} DevfsReadsAsZero(S: System, r: MountInfo)
    requires S.types.Valid() && ValidInfo(S.types, r) && CleanNames(r) && r.fsType == S.types.dev
    ensures Read(S, MtabText(S, [r])) == [ExpectedAs(S, r, 0)]
  {
    hide InfoLine, Treat, Read, CleanNames, ExpectedAs;
    WidthBound(S, r);
    LineChars(S, r);
    LineReadBack(S, r);
    ReadNothing(S);
    MtabNothing(S);
    assert [r][1..] == [];
    ReadCons(S, InfoLine(S, r), "");
  }

  // ---------- in the kernel's names ----------

  /** The 20-byte array and the length stand for the name s: the array starts with s, and the
      length is that of s, or larger with a NUL or the end of the array behind s. */
  predicate Names(name: string, length: nat, s: string) {
    && |s| <= |name| == 20 && NUL !in s && name[..|s|] == s
    && (length == |s| || (length > |s| && (|s| == 20 || name[|s|] == NUL)))
  }

  lemma PrintedName(name: string, length: nat, s: string)
    requires Names(name, length, s)
    ensures Printed(name, length) == s
  {
    UntilNulWhole(s);
    if length > |s| && |s| < 20 {
      UntilNulOf(Take(name, length), s);
    }
  }

  /** Every printable array and length stand for exactly one name. */
  lemma EveryRecordNames(name: string, length: nat)
    requires Printable(name, length)
    ensures forall s :: Names(name, length, s) <==> s == Printed(name, length)
  {
    var t := Take(name, length);
    var p := UntilNul(t);
    assert |t| == if length <= 20 then length else 20;
    assert Names(name, length, p);
    forall s | Names(name, length, s) ensures s == Printed(name, length) {
      PrintedName(name, length, s);
    }
  }

  predicate Stands(r: MountInfo, s: string, l: string) {
    Names(r.source, r.sourceLength, s) && Names(r.location, r.locationLength, l)
  }

  /** The line in full, in terms of the names, the type and the flags. */
  lemma WrittenLine(S: System, r: MountInfo, s: string, l: string)
    requires S.types.Valid() && ValidInfo(S.types, r) && Stands(r, s, l)
    ensures InfoLine(S, r) + "\n" ==
            "/dev/" + s + " " + (l + " ")
            + ((if r.fsType == S.types.ext then "ext" else if r.fsType == S.types.fat then "fat" else "devfs") + " ")
            + (if S.flags.rdonly in r.flags then "ro" else "rw")
            + (if S.flags.relatime in r.flags then ",relatime"
               else if S.flags.noatime in r.flags then ",noatime" else "")
            + " 0 0\n"
  {
    PrintedName(r.source, r.sourceLength, s);
    PrintedName(r.location, r.locationLength, l);
    TimePartMeaning(S.flags, r.flags);
    var t := TypeToString(S.types, r.fsType).value;
    assert t == if r.fsType == S.types.ext then "ext" else if r.fsType == S.types.fat then "fat" else "devfs";
    assert AccessWord(S.flags, r.flags) == if S.flags.rdonly in r.flags then "ro" else "rw";
    hide Printed, TypeToString, AccessWord, TimePart, InfoLine;
    var text := "" + ("/dev/" + Source(r) + " ") + (Location(r) + " ") + (t + " ")
                + AccessWord(S.flags, r.flags) + TimePart(S.flags, r.flags) + " 0 0\n";
    LinePieces(S, r, "", text);
    assert "" + (InfoLine(S, r) + "\n") == InfoLine(S, r) + "\n";
    assert "" + ("/dev/" + Source(r) + " ") == "/dev/" + Source(r) + " ";
  }

  /** The flags the options column carries over. */
  function Carried(F: FlagBits, flags: Mask): Mask {
    set b | b in flags && (b == F.rdonly || b == F.relatime || (b == F.noatime && F.relatime !in flags))
  }

  lemma CarriedIsNormalised(F: FlagBits, flags: Mask)
    ensures Carried(F, flags) == Normalised(F, flags)
  {
  }

  /** The actions are the mounts that the records stand for. */
  predicate AreMounts(S: System, rs: seq<MountInfo>, ss: seq<string>, ls: seq<string>, actions: seq<Action>)
    requires |ss| == |ls| == |rs|
  {
    && |actions| == |rs|
    && forall i :: 0 <= i < |rs| ==>
         actions[i] == Mount("/dev/" + ss[i], ls[i], rs[i].fsType, Carried(S.flags, rs[i].flags))
  }

  /** What one record is expected to become, and when it is clean, in terms of its names. */
  lemma RecordNames(S: System, r: MountInfo, s: string, l: string)
    requires Stands(r, s, l)
    ensures Expected(S, r) == Mount("/dev/" + s, l, r.fsType, Carried(S.flags, r.flags))
    ensures Clean(S.types, r) <==> CleanRecord(S.types, r, s, l)
  {
    PrintedName(r.source, r.sourceLength, s);
    PrintedName(r.location, r.locationLength, l);
    CarriedIsNormalised(S.flags, r.flags);
    hide Printed, Carried, Normalised;
  }

  predicate CleanRecord(T: FsTypes, r: MountInfo, s: string, l: string) {
    DelimFree(s, SPACES) && DelimFree(l, SPACES) && l != "" && r.fsType != T.dev
  }

  lemma {:induction false} AllExpectedAt(S: System, rs: seq<MountInfo>, i: nat)
    requires i < |rs|
    ensures |AllExpected(S, rs)| == |rs| && AllExpected(S, rs)[i] == Expected(S, rs[i])
  {
    hide Expected;
    if |rs| > 1 {
      AllExpectedAt(S, rs[1..], if i > 0 then i - 1 else 0);
    }
  }

  lemma AllExpectedAreMounts(S: System, rs: seq<MountInfo>, ss: seq<string>, ls: seq<string>)
    requires |ss| == |ls| == |rs|
    requires forall i :: 0 <= i < |rs| ==> Stands(rs[i], ss[i], ls[i])
    ensures AreMounts(S, rs, ss, ls, AllExpected(S, rs))
  {
    hide Expected, Stands, Carried, AllExpected;
    if rs == [] {
      NoneExpected(S);
    } else {
      AllExpectedAt(S, rs, 0);
    }
    forall i | 0 <= i < |rs|
      ensures AllExpected(S, rs)[i] ==
              Mount("/dev/" + ss[i], ls[i], rs[i].fsType, Carried(S.flags, rs[i].flags))
    {
      AllExpectedAt(S, rs, i);
      RecordNames(S, rs[i], ss[i], ls[i]);
    }
  }

  lemma NoneExpected(S: System)
    ensures AllExpected(S, []) == []
  {
  }

  /** The whole-file round trip in the kernel's names: whatever names the records stand for, the
      written file fits the reader and reads back as the mounts of those names, in order, with
      their types and the flags the column carries, if and only if the names are free of white
      space, no location is empty and no mount is a devfs. */
  lemma NamesRoundTrip(S: System, rs: seq<MountInfo>, ss: seq<string>, ls: seq<string>)
    requires S.types.Valid() && ValidDir(S.dev)
    requires forall r :: r in rs ==> ValidInfo(S.types, r)
    requires |ss| == |ls| == |rs|
    requires forall i :: 0 <= i < |rs| ==> Stands(rs[i], ss[i], ls[i])
    ensures FitsFrom(S, MtabText(S, rs), 0) && AreMounts(S, rs, ss, ls, Read(S, MtabText(S, rs))) <==>
            forall i :: 0 <= i < |rs| ==> CleanRecord(S.types, rs[i], ss[i], ls[i])
  {
    hide FitsFrom, Read, MtabText, AllExpected, Clean, CleanRecord, ValidInfo, Stands, Expected;
    MtabRoundTrip(S, rs);
    AllExpectedAreMounts(S, rs, ss, ls);
    forall i | 0 <= i < |rs| ensures Clean(S.types, rs[i]) <==> CleanRecord(S.types, rs[i], ss[i], ls[i]) {
      RecordNames(S, rs[i], ss[i], ls[i]);
    }
    assert (forall r :: r in rs ==> Clean(S.types, r)) <==> forall i :: 0 <= i < |rs| ==> Clean(S.types, rs[i]);
  }
}
