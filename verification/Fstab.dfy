/** mount -a: reading /etc/fstab line by line and attempting the mounts it lists. */
module Fstab {
  import opened Common
  import opened Tokens
  import opened StrtokLib
  import opened Masks
  import opened MountFlags
  import opened Devices

  /** The MNT_* constants of the system's headers. */
  datatype FsTypes = FsTypes(ext: int, fat: int, dev: int) {
    predicate Valid() {
      && ext != 0 && fat != 0 && dev != 0
      && ext != fat && ext != dev && fat != dev
    }
  }

  /** What the reader depends on besides the file. */
  datatype System = System(types: FsTypes, flags: FlagBits, dev: DevDir)

  datatype Action =
    | Mount(source: string, target: string, fsType: int, flags: Mask)
    | DeviceNotFound(uuid: string)

  /** The characters sscanf's `%s` stops at: isspace in the C locale. */
  const SPACES: set<char> := {' ', '\t', '\n', '\U{000B}', '\U{000C}', '\r'}

  const BUFFER_SIZE := 150
  /** Sizes of source, target, fs, options, dump and pass. */
  const FIELD_SIZES: seq<nat> := [60, 30, 30, 30, 10, 10]

  function StringToType(T: FsTypes, s: string): int {
    if StrnEq(s, "ext", 3) || StrnEq(s, "ext2", 4) || StrnEq(s, "ext3", 4) || StrnEq(s, "ext4", 4) then T.ext
    else if StrnEq(s, "fat", 3) || StrnEq(s, "fat12", 5) || StrnEq(s, "fat16", 5) || StrnEq(s, "fat32", 5) then T.fat
    else 0
  }

  function TypeToString(T: FsTypes, t: int): Option<string> {
    if t == T.ext then Some("ext")
    else if t == T.fat then Some("fat")
    else if t == T.dev then Some("devfs")
    else None
  }

  /** The longer names add nothing to the three-letter prefixes. */
  lemma StringToTypeMeaning(T: FsTypes, s: string)
    ensures StringToType(T, s) == if "ext" <= s then T.ext else if "fat" <= s then T.fat else 0
  {
    StrnEqPrefix(s, "ext");
    StrnEqPrefix(s, "ext2");
    StrnEqPrefix(s, "ext3");
    StrnEqPrefix(s, "ext4");
    StrnEqPrefix(s, "fat");
    StrnEqPrefix(s, "fat12");
    StrnEqPrefix(s, "fat16");
    StrnEqPrefix(s, "fat32");
    hide StrnEq;
    assert "ext2"[..3] == "ext3"[..3] == "ext4"[..3] == "ext";
    assert "fat12"[..3] == "fat16"[..3] == "fat32"[..3] == "fat";
  }

  /** Printing a known type and reading it back gives the type again, except for devfs, which
      reads back as 0. */
  lemma TypeRoundTrip(T: FsTypes, t: int)
    requires T.Valid() && TypeToString(T, t).Some?
    ensures StringToType(T, TypeToString(T, t).value) == if t == T.dev then 0 else t
    ensures StringToType(T, TypeToString(T, t).value) == t <==> t != T.dev
  {
    StringToTypeMeaning(T, TypeToString(T, t).value);
    assert "devfs"[0] == 'd' && "ext"[0] == 'e' && "fat"[0] == 'f';
  }

  // ---------- one line ----------

  datatype Treatment = Skip | Stop | Do(action: Action)

  /** What the loop body does with the text of one buffer. */
  function Treat(S: System, line: string): Treatment {
    if line != "" && line[0] == '#' then Skip
    else
      var fields := Split(line, SPACES);
      if |fields| >= 6 then Do(ActionOf(S, fields))
      else if |line| == 1 then Skip
      else Stop
  }

  function ActionOf(S: System, fields: seq<string>): Action
    requires |fields| >= 6
  {
    var flags := FstabMask(S.flags, fields[3]);
    var fsType := StringToType(S.types, fields[2]);
    if StrnEq(fields[0], "UUID=", 5) then
      UuidAction(S, fields[0][5..], fields[1], fsType, flags)
    else Mount(fields[0], fields[1], fsType, flags)
  }

  function UuidAction(S: System, uuid: string, target: string, fsType: int, flags: Mask): Action {
    match SearchFrom(S.dev, uuid, 0)
    case Some(name) => Mount(name, target, fsType, flags)
    case None => DeviceNotFound(uuid)
  }

  /** Every field that sscanf stores fits its buffer with a terminator. */
  predicate FieldsFit(line: string) {
    (line != "" && line[0] == '#') ||
    var fields := Split(line, SPACES);
    forall k :: 0 <= k < |fields| && k < 6 ==> |fields[k]| < FIELD_SIZES[k]
  }

  /** Six words with single spaces between them. */
  function SixFieldLine(a: string, b: string, c: string, d: string, e: string, f: string): string {
    a + " " + (b + " " + (c + " " + (d + " " + (e + " " + f))))
  }

  /** A word at the start of a line is its first field. */
  lemma FirstField(w: string, rest: string)
    requires w != [] && DelimFree(w, SPACES)
    ensures Split(w + " " + rest + "\n", SPACES) == [w] + Split(rest + "\n", SPACES)
  {
    hide Split;
    assert w + " " + rest + "\n" == w + [' '] + (rest + "\n");
    SplitCons(w, ' ', rest + "\n", SPACES);
  }

  lemma LastField(w: string)
    requires w != [] && DelimFree(w, SPACES)
    ensures Split(w + "\n", SPACES) == [w]
  {
    hide Split;
    assert w + "\n" == w + ['\n'] + "";
    SplitCons(w, '\n', "", SPACES);
    TokensEmpty(SPACES);
  }

  lemma Six(a: string, b: string, c: string, d: string, e: string, f: string)
    ensures [a] + ([b] + ([c] + ([d] + ([e] + [f])))) == [a, b, c, d, e, f]
  {
  }

  /** Such a line is split into exactly its six words. */
  lemma SixFieldSplit(a: string, b: string, c: string, d: string, e: string, f: string)
    requires forall w :: w in [a, b, c, d, e, f] ==> w != "" && DelimFree(w, SPACES)
    ensures Split(SixFieldLine(a, b, c, d, e, f) + "\n", SPACES) == [a, b, c, d, e, f]
  {
    hide Split;
    var words := [a, b, c, d, e, f];
    assert a in words && b in words && c in words && d in words && e in words && f in words;
    var x4 := e + " " + f;
    var x3 := d + " " + x4;
    var x2 := c + " " + x3;
    var x1 := b + " " + x2;
    assert SixFieldLine(a, b, c, d, e, f) == a + " " + x1;
    hide SixFieldLine, DelimFree;
    LastField(f);
    FirstField(e, f);
    FirstField(d, x4);
    FirstField(c, x3);
    FirstField(b, x2);
    FirstField(a, x1);
    Six(a, b, c, d, e, f);
  }

  // ---------- the file ----------

  /** Where fgets stops that may still store `room` characters: after a newline, at the end of
      the file, or when the buffer is full. */
  function FgetsEnd(f: string, i: nat, room: nat): (e: nat)
    requires i <= |f|
    ensures i <= e <= |f| && e - i <= room
    ensures i < |f| && room > 0 ==> i < e
    decreases room
  {
    if room == 0 || i == |f| then i
    else if f[i] == '\n' then i + 1
    else FgetsEnd(f, i + 1, room - 1)
  }

  function NextEnd(f: string, i: nat): (e: nat)
    requires i < |f|
    ensures i < e <= |f| && e - i < BUFFER_SIZE
  {
    FgetsEnd(f, i, BUFFER_SIZE - 1)
  }

  /** The actions of the file from position i on. */
  function ReadFrom(S: System, f: string, i: nat): seq<Action>
    requires i <= |f|
    decreases |f| - i
  {
    if i == |f| then []
    else
      var e := NextEnd(f, i);
      match Treat(S, UntilNul(f[i..e]))
      case Skip => ReadFrom(S, f, e)
      case Stop => []
      case Do(a) => [a] + ReadFrom(S, f, e)
  }

  function Read(S: System, f: string): seq<Action> {
    ReadFrom(S, f, 0)
  }

  /** A malformed line ends the reading of f before its end. */
  predicate StopsFrom(S: System, f: string, i: nat)
    requires i <= |f|
    decreases |f| - i
  {
    i < |f| &&
    var e := NextEnd(f, i);
    (Treat(S, UntilNul(f[i..e])).Stop? || StopsFrom(S, f, e))
  }

  /** Every line that is read has fields that fit. */
  predicate FitsFrom(S: System, f: string, i: nat)
    requires i <= |f|
    decreases |f| - i
  {
    i == |f| ||
    var e := NextEnd(f, i);
    var line := UntilNul(f[i..e]);
    FieldsFit(line) && (Treat(S, line).Stop? || FitsFrom(S, f, e))
  }

  /** fgets: the characters up to a newline, the buffer's end or the file's end, then a NUL. */
  method Fgets(buffer: array<char>, f: string, i: nat) returns (e: nat)
    requires i < |f| && buffer.Length == BUFFER_SIZE
    modifies buffer
    ensures e == NextEnd(f, i)
    ensures UntilNul(buffer[..]) == UntilNul(f[i..e])
  {
    e := i;
    while e < |f| && e - i < BUFFER_SIZE - 1 && (e == i || f[e - 1] != '\n')
      invariant i <= e <= |f| && e - i <= BUFFER_SIZE - 1
      invariant buffer[..e - i] == f[i..e]
      invariant if e > i && f[e - 1] == '\n' then NextEnd(f, i) == e
                else NextEnd(f, i) == FgetsEnd(f, e, BUFFER_SIZE - 1 - (e - i))
      decreases |f| - e
    {
      buffer[e - i] := f[e];
      e := e + 1;
    }
    buffer[e - i] := NUL;
    assert buffer[..][..e - i] == f[i..e];
    UntilNulPrefix(buffer[..], f[i..e]);
  }

  /** The reading loop of mount -a; None is a file that cannot be opened. */
  method UpdateAccordingFstab(S: System, fstab: Option<string>) returns (status: int, actions: seq<Action>)
    requires fstab.Some? ==> FitsFrom(S, fstab.value, 0)
    ensures fstab.None? ==> status == 1 && actions == []
    ensures fstab.Some? ==> status == 0 && actions == Read(S, fstab.value)
  {
    hide UntilNul, Treat, FieldsFit, NextEnd;
    actions := [];
    if fstab.None? {
      return 1, [];
    }
    status := 0;
    var f := fstab.value;
    var buffer := new char[BUFFER_SIZE](_ => NUL);
    var pos := 0;
    while pos < |f|
      invariant pos <= |f|
      invariant FitsFrom(S, f, pos)
      invariant Read(S, f) == actions + ReadFrom(S, f, pos)
      decreases |f| - pos
    {
      var e := Fgets(buffer, f, pos);
      var line := UntilNul(buffer[..]);
      var t := TreatLine(S, line);
      pos := e;
      match t {
        case Skip =>
        case Stop => return;
        case Do(a) => actions := actions + [a];
      }
    }
  }

  /** The loop body: the options column is copied to its buffer and split there in place. */
  method TreatLine(S: System, line: string) returns (t: Treatment)
    requires FieldsFit(line) && NUL !in line
    ensures t == Treat(S, line)
  {
    hide FstabMask, UntilNul, StringToType, StrnEq;
    if line != "" && line[0] == '#' {
      return Skip;
    }
    var fields := Split(line, SPACES);
    if |fields| < 6 {
      if |line| == 1 {
        return Skip;
      } else {
        return Stop;
      }
    }
    TokenChars(line, SPACES, fields[3]);
    var options := NewBuffer(fields[3], FIELD_SIZES[3]);
    var st := new Strtok();
    var flags := ParseFstabOptions(S.flags, st, options);
    var fsType := StringToType(S.types, fields[2]);
    StrnEqPrefix(fields[0], "UUID=");
    if StrnEq(fields[0], "UUID=", 5) {
      var devicePath := GetPathFromUuid(S.dev, fields[0][5..]);
      if devicePath.None? {
        t := Do(DeviceNotFound(fields[0][5..]));
      } else {
        t := Do(Mount(devicePath.value, fields[1], fsType, flags));
      }
    } else {
      t := Do(Mount(fields[0], fields[1], fsType, flags));
    }
  }

  lemma TokenChars(s: string, d: set<char>, t: string)
    requires t in Split(s, d)
    ensures forall c :: c in t ==> c in s
  {
    TokensAreSpanTexts(s, d, 0);
  }

  // ---------- laws of the reader ----------

  lemma {:induction false} FgetsWithin(a: string, b: string, i: nat, room: nat)
    requires i < |a| && a[|a| - 1] == '\n'
    ensures FgetsEnd(a + b, i, room) == FgetsEnd(a, i, room)
    decreases room
  {
    if room > 0 && a[i] != '\n' {
      FgetsWithin(a, b, i + 1, room - 1);
    }
  }

  lemma {:induction false} FgetsShift(a: string, b: string, i: nat, room: nat)
    requires i <= |b|
    ensures FgetsEnd(a + b, |a| + i, room) == |a| + FgetsEnd(b, i, room)
    decreases room
  {
    if room > 0 && i < |b| && b[i] != '\n' {
      FgetsShift(a, b, i + 1, room - 1);
    }
  }

  lemma {:induction false} ReadShift(S: System, a: string, b: string, i: nat)
    requires i <= |b|
    ensures ReadFrom(S, a + b, |a| + i) == ReadFrom(S, b, i)
    ensures FitsFrom(S, a + b, |a| + i) == FitsFrom(S, b, i)
    decreases |b| - i
  {
    hide Treat, FieldsFit;
    if i < |b| {
      FgetsShift(a, b, i, BUFFER_SIZE - 1);
      var e := NextEnd(b, i);
      assert (a + b)[|a| + i..|a| + e] == b[i..e];
      ReadShift(S, a, b, e);
    }
  }

  /** The first buffer of a file is the same whatever follows it. */
  lemma SameBuffer(a: string, b: string, i: nat)
    requires i < |a| && a[|a| - 1] == '\n'
    ensures NextEnd(a + b, i) == NextEnd(a, i)
    ensures (a + b)[i..NextEnd(a, i)] == a[i..NextEnd(a, i)]
  {
    FgetsWithin(a, b, i, BUFFER_SIZE - 1);
  }

  lemma {:induction false} ReadThrough(S: System, a: string, b: string, i: nat)
    requires i <= |a| && a != "" && a[|a| - 1] == '\n'
    ensures ReadFrom(S, a + b, i) ==
            ReadFrom(S, a, i) + if StopsFrom(S, a, i) then [] else ReadFrom(S, b, 0)
    ensures FitsFrom(S, a + b, i) <==>
            FitsFrom(S, a, i) && (StopsFrom(S, a, i) || FitsFrom(S, b, 0))
    decreases |a| - i
  {
    hide Treat, FieldsFit, NextEnd, UntilNul;
    if i == |a| {
      ReadShift(S, a, b, 0);
    } else {
      SameBuffer(a, b, i);
      ReadThrough(S, a, b, NextEnd(a, i));
    }
  }

  /** Reading two files one after the other is reading their concatenation, when the first ends
      with a newline and has no malformed line; otherwise nothing of the second is read. */
  lemma ReadConcat(S: System, a: string, b: string)
    requires a == "" || a[|a| - 1] == '\n'
    ensures Read(S, a + b) == Read(S, a) + if StopsFrom(S, a, 0) then [] else Read(S, b)
  {
    if a == "" {
      assert a + b == b;
    } else {
      ReadThrough(S, a, b, 0);
    }
  }

  /** A short line with its newline is read by a single fgets. */
  lemma {:induction false} FgetsLine(line: string, i: nat, room: nat)
    requires '\n' !in line && i <= |line| && |line| - i < room
    ensures FgetsEnd(line + "\n", i, room) == |line| + 1
    decreases room
  {
    if i < |line| {
      assert (line + "\n")[i] == line[i];
      assert line[i] in line;
      FgetsLine(line, i + 1, room - 1);
    }
  }

  lemma ReadLine(S: System, line: string)
    requires '\n' !in line && NUL !in line && |line| + 1 < BUFFER_SIZE
    ensures var t := Treat(S, line + "\n");
            && Read(S, line + "\n") == (if t.Do? then [t.action] else [])
            && (StopsFrom(S, line + "\n", 0) <==> t.Stop?)
            && (FitsFrom(S, line + "\n", 0) <==> FieldsFit(line + "\n"))
  {
    hide Treat, FieldsFit;
    var f := line + "\n";
    FgetsLine(line, 0, BUFFER_SIZE - 1);
    assert f[0..|f|] == f;
    UntilNulWhole(f);
    assert NextEnd(f, 0) == |f|;
    assert ReadFrom(S, f, |f|) == [];
    assert !StopsFrom(S, f, |f|) && FitsFrom(S, f, |f|);
  }

  /** One line, then the rest of the file. */
  lemma ReadCons(S: System, line: string, rest: string)
    requires '\n' !in line && NUL !in line && |line| + 1 < BUFFER_SIZE
    ensures Read(S, line + "\n" + rest) ==
            match Treat(S, line + "\n")
            case Skip => Read(S, rest)
            case Stop => []
            case Do(a) => [a] + Read(S, rest)
  {
    hide Treat, Read, StopsFrom, FitsFrom;
    ReadLine(S, line);
    ReadConcat(S, line + "\n", rest);
  }

  lemma ReadNothing(S: System)
    ensures Read(S, "") == []
  {
  }

  // ---------- the constants of the reader ----------

  /** What ends a field: the space and the control characters from tab to carriage return. */
  lemma SpaceCharacters(c: char)
    ensures c in SPACES <==> c == ' ' || 9 <= c as int <= 13
  {
  }

  /** One fgets: at most 149 characters, a newline only as the last of them, and no fewer than
      the newline, the limit or the end of the file allow. */
  lemma {:induction false} FgetsMeaning(f: string, i: nat, room: nat)
    requires i <= |f|
    ensures var e := FgetsEnd(f, i, room);
            && (forall j :: i <= j < e - 1 ==> f[j] != '\n')
            && (e == |f| || e - i == room || (e > i && f[e - 1] == '\n'))
    decreases room
  {
    if room > 0 && i < |f| && f[i] != '\n' {
      FgetsMeaning(f, i + 1, room - 1);
    }
  }

  lemma BufferMeaning(f: string, i: nat)
    requires i < |f|
    ensures var e := NextEnd(f, i);
            && i < e <= |f| && e - i <= 149
            && (forall j :: i <= j < e - 1 ==> f[j] != '\n')
            && (e == |f| || e - i == 149 || f[e - 1] == '\n')
  {
    FgetsMeaning(f, i, 149);
    assert NextEnd(f, i) == FgetsEnd(f, i, 149);
    hide FgetsEnd;
  }

  predicate Shorter(f: seq<string>, k: nat, size: nat) {
    k < |f| ==> |f[k]| < size
  }

  /** The six buffers that sscanf fills. */
  lemma BufferSizes(line: string)
    ensures var f := Split(line, SPACES);
            FieldsFit(line) <==>
              "#" <= line ||
              (Shorter(f, 0, 60) && Shorter(f, 1, 30) && Shorter(f, 2, 30)
               && Shorter(f, 3, 30) && Shorter(f, 4, 10) && Shorter(f, 5, 10))
  {
    hide Split;
    assert FIELD_SIZES[0] == 60 && FIELD_SIZES[1] == 30 && FIELD_SIZES[2] == 30;
    assert FIELD_SIZES[3] == 30 && FIELD_SIZES[4] == 10 && FIELD_SIZES[5] == 10;
  }
}
