/** The two tools that go through /dev by UUID: mount's search and blkid's listing. */
module Devices {
  import opened Common
  import opened Numerals
  import opened UuidText

  /** What a scan of /dev can observe: the entries in readdir order, and for each path that can
      be opened and answers the UUID request, its answer. A /dev that cannot be opened gives
      both tools what an empty one does: no path, and nothing on standard output. */
  datatype DevDir = DevDir(entries: seq<string>, uuids: map<string, Uuid>)

  predicate IsDot(name: string) {
    name != [] && name[0] == '.'
  }

  function PathOf(name: string): string {
    "/dev/" + name
  }

  predicate Readable(dev: DevDir, name: string) {
    PathOf(name) in dev.uuids
  }

  function UuidOf(dev: DevDir, name: string): Uuid
    requires Readable(dev, name)
  {
    dev.uuids[PathOf(name)]
  }

  // ---------- mount: get_path_from_uuid ----------

  /** The search from entry i on, by comparing texts. */
  function SearchFrom(dev: DevDir, text: string, i: nat): Option<string>
    requires i <= |dev.entries|
    decreases |dev.entries| - i
  {
    if i == |dev.entries| then None
    else
      var name := dev.entries[i];
      if IsDot(name) then SearchFrom(dev, text, i + 1)
      else if !Readable(dev, name) then None
      else if text == UuidToString(UuidOf(dev, name)) then Some(name)
      else SearchFrom(dev, text, i + 1)
  }

  /** Entry k is the device of u, no earlier one is, and the search could get past those. */
  predicate FirstDevice(dev: DevDir, u: Uuid, k: nat) {
    && k < |dev.entries| && !Hidden(dev.entries[k])
    && "/dev/" + dev.entries[k] in dev.uuids && dev.uuids["/dev/" + dev.entries[k]] == u
    && forall j :: 0 <= j < k && !Hidden(dev.entries[j]) ==>
         "/dev/" + dev.entries[j] in dev.uuids && dev.uuids["/dev/" + dev.entries[j]] != u
  }

  /** The name starts with a dot, as "." and ".." do. */
  predicate Hidden(name: string) {
    "." <= name
  }

  lemma HiddenIsDot(name: string)
    ensures Hidden(name) <==> IsDot(name)
    ensures PathOf(name) == "/dev/" + name
  {
  }

  /** The readdir loop; path and uuid_str are its buffers. */
  method GetPathFromUuid(dev: DevDir, searched: string) returns (r: Option<string>)
    ensures r == SearchFrom(dev, searched, 0)
  {
    hide UuidToString;
    var i := 0;
    while i < |dev.entries|
      invariant i <= |dev.entries|
      invariant SearchFrom(dev, searched, 0) == SearchFrom(dev, searched, i)
    {
      var name := dev.entries[i];
      if !IsDot(name) {
        var path := "/dev/" + name;
        if path !in dev.uuids {
          return None;
        }
        var uuidStr := UuidToString(dev.uuids[path]);
        if searched == uuidStr {
          return Some(name);
        }
      }
      i := i + 1;
    }
    r := None;
  }

  lemma {:induction false} SearchFromMeaning(dev: DevDir, u: Uuid, i: nat)
    requires i <= |dev.entries|
    requires forall j :: 0 <= j < i && !IsDot(dev.entries[j]) ==>
               Readable(dev, dev.entries[j]) && UuidOf(dev, dev.entries[j]) != u
    ensures forall n :: SearchFrom(dev, UuidToString(u), i) == Some(n) <==>
              exists k :: i <= k < |dev.entries| && FirstDevice(dev, u, k) && dev.entries[k] == n
    decreases |dev.entries| - i
  {
    hide UuidToString;
    if i < |dev.entries| {
      var name := dev.entries[i];
      if IsDot(name) {
        SearchFromMeaning(dev, u, i + 1);
      } else if Readable(dev, name) {
        UuidInjective(u, UuidOf(dev, name));
        if UuidOf(dev, name) == u {
          assert FirstDevice(dev, u, i);
        } else {
          SearchFromMeaning(dev, u, i + 1);
        }
      }
    }
  }

  /** The search by text is the search by 128-bit value: it finds n exactly when n is the first
      device with that UUID and every non-dot entry before it could be read. One unreadable
      entry hides everything after it. */
  lemma {:induction false} SearchFindsFirst(dev: DevDir, u: Uuid, n: string)
    ensures SearchFrom(dev, UuidToString(u), 0) == Some(n) <==>
            exists k :: 0 <= k < |dev.entries| && FirstDevice(dev, u, k) && dev.entries[k] == n
  {
    SearchFromMeaning(dev, u, 0);
  }

  lemma {:induction false} SearchNeverMatches(dev: DevDir, text: string, i: nat)
    requires i <= |dev.entries|
    requires forall u :: text != UuidToString(u)
    ensures SearchFrom(dev, text, i) == None
    decreases |dev.entries| - i
  {
    hide UuidToString;
    if i < |dev.entries| {
      SearchNeverMatches(dev, text, i + 1);
    }
  }

  /** For any spelling of a UUID: lower case is looked up by value, and a spelling with an
      upper-case digit, which RFC 4122 allows on input, finds no device at all. */
  lemma SearchAnySpelling(dev: DevDir, text: string)
    requires ParseUuid(text).Some?
    ensures SearchFrom(dev, text, 0) ==
            if Lower(text) == text then SearchFrom(dev, UuidToString(ParseUuid(text).value), 0)
            else None
  {
    ParseThenPrint(text);
    if Lower(text) != text {
      forall u ensures text != UuidToString(u) {
        TextMatchesUuid(text, u);
      }
      SearchNeverMatches(dev, text, 0);
    }
  }

  /** One device, found by the lower-case spelling of its UUID and not by the other. */
  lemma UpperCaseExample()
    ensures var dev := DevDir(["sda"], map["/dev/sda" := SPELLED]);
            && SearchFrom(dev, UPPER_SPELLING, 0) == None
            && SearchFrom(dev, LOWER_SPELLING, 0) == Some("sda")
  {
    UpperCaseText();
    UpperCaseLower();
    ParseThenPrint(UPPER_SPELLING);
    hide Lower, UuidToString, ParseUuid, UPPER_SPELLING, LOWER_SPELLING, SPELLED;
    var dev := DevDir(["sda"], map["/dev/sda" := SPELLED]);
    SearchAnySpelling(dev, UPPER_SPELLING);
    assert PathOf("sda") == "/dev/sda";
    assert FirstDevice(dev, SPELLED, 0);
    SearchFindsFirst(dev, SPELLED, "sda");
  }

  // ---------- blkid ----------

  const ZERO_UUID := Uuid(0, 0, 0, 0, 0, [0, 0, 0, 0, 0, 0])

  /** All 128 bits are zero. */
  predicate AllZero(u: Uuid) {
    && u.timeLow == 0 && u.timeMid == 0 && u.timeHiAndVersion == 0
    && u.clockSeqHiAndReserved == 0 && u.clockSeqLow == 0
    && forall i :: 0 <= i < 6 ==> u.node[i] == 0
  }

  /** What one call of print_fd_uuid adds to standard output. */
  function BlkidLine(dev: DevDir, path: string): string {
    if path !in dev.uuids || dev.uuids[path] == ZERO_UUID then ""
    else path + ": " + UuidToString(dev.uuids[path]) + "\n"
  }

  /** print_fd_uuid: a prefix by one printf, then the node bytes in a loop. */
  method PrintFdUuid(dev: DevDir, path: string, out0: string) returns (out: string)
    ensures out == out0 + BlkidLine(dev, path)
    ensures path !in dev.uuids ==> out == out0
    ensures path in dev.uuids && AllZero(dev.uuids[path]) ==> out == out0
    ensures path in dev.uuids && !AllZero(dev.uuids[path]) ==>
              out == out0 + (path + ": " + UuidToString(dev.uuids[path]) + "\n")
  {
    hide PadHex, NodeText, UuidToString, BlkidPrefix;
    out := out0;
    if path !in dev.uuids {
      assert out0 + "" == out0;
      return;
    }
    var u := dev.uuids[path];
    if u == ZERO_UUID {
      assert out0 + "" == out0;
      return;
    }
    var prefix := BlkidPrefix(u);
    out := out + path + ": " + prefix;
    ghost var start := out;
    assert NodeText(u.node[..0]) == "" by { NodeTextEmpty(); assert u.node[..0] == []; }
    for i := 0 to 6
      invariant out == start + NodeText(u.node[..i])
    {
      NodeTextSnoc(u.node, i);
      out := out + PadHex(u.node[i], 2);
    }
    assert u.node[..6] == u.node;
    out := out + "\n";
    BlkidText(u);
    assert out == out0 + path + ": " + (prefix + NodeText(u.node)) + "\n";
  }

  /** blkid's first format string, from time_low to the last dash. */
  function BlkidPrefix(u: Uuid): string {
    PadHex(u.timeLow, 8) + ("-" + (PadHex(u.timeMid, 4) + ("-" + (PadHex(u.timeHiAndVersion, 4) + ("-" +
    (PadHex(u.clockSeqHiAndReserved, 2) + (PadHex(u.clockSeqLow, 2) + "-")))))))
  }

  lemma NodeTextEmpty()
    ensures NodeText([]) == ""
  {
  }

  lemma NodeTextSnoc(bytes: seq<U8>, i: nat)
    requires i < |bytes|
    ensures NodeText(bytes[..i + 1]) == NodeText(bytes[..i]) + PadHex(bytes[i], 2)
  {
    hide PadHex;
    assert bytes[..i + 1] == bytes[..i] + [bytes[i]];
    NodeTextConcat(bytes[..i], [bytes[i]]);
    assert [bytes[i]][1..] == [];
    assert NodeText([bytes[i]]) == PadHex(bytes[i], 2) + NodeText([]);
  }

  /** blkid's prefix and loop print the very text that mount's single format string gives. */
  lemma BlkidText(u: Uuid)
    ensures BlkidPrefix(u) + NodeText(u.node) == UuidToString(u)
  {
    UuidRoundTrip(u);
    hide PadHex, NodeText, UuidToString;
    NodeText6(u.node);
    var n := NodeText(u.node);
    var a, b, c := PadHex(u.timeLow, 8), PadHex(u.timeMid, 4), PadHex(u.timeHiAndVersion, 4);
    var d, e := PadHex(u.clockSeqHiAndReserved, 2), PadHex(u.clockSeqLow, 2);
    assert BlkidPrefix(u) + n == a + ("-" + (b + ("-" + (c + ("-" + (d + (e + ("-" + n))))))));
  }

  function ListingFrom(dev: DevDir, i: nat): string
    requires i <= |dev.entries|
    decreases |dev.entries| - i
  {
    if i == |dev.entries| then ""
    else (if IsDot(dev.entries[i]) then "" else BlkidLine(dev, PathOf(dev.entries[i]))) + ListingFrom(dev, i + 1)
  }

  /** blkid without operands: a line per device, in readdir order. */
  method ListDevices(dev: DevDir) returns (out: string)
    ensures out == ListingFrom(dev, 0)
  {
    hide BlkidLine, IsDot;
    out := "";
    var i := 0;
    while i < |dev.entries|
      invariant i <= |dev.entries|
      invariant ListingFrom(dev, 0) == out + ListingFrom(dev, i)
    {
      ghost var before, rest := out, ListingFrom(dev, i + 1);
      if IsDot(dev.entries[i]) {
        assert "" + rest == rest;
      } else {
        out := PrintFdUuid(dev, "/dev/" + dev.entries[i], out);
        Glue(before, BlkidLine(dev, PathOf(dev.entries[i])), rest);
      }
      i := i + 1;
    }
    assert out + "" == out;
  }

  /** The two tools agree: the text blkid prints for an entry, given back to mount, leads to a
      device with that very UUID, the first of its kind, as long as every entry up to it is
      readable. */
  lemma BlkidFeedsMount(dev: DevDir, k: nat)
    requires k < |dev.entries| && !IsDot(dev.entries[k])
    requires forall j :: 0 <= j <= k && !IsDot(dev.entries[j]) ==> Readable(dev, dev.entries[j])
    ensures var u := UuidOf(dev, dev.entries[k]);
            exists i :: 0 <= i <= k && FirstDevice(dev, u, i)
                        && SearchFrom(dev, BlkidPrefix(u) + NodeText(u.node), 0) == Some(dev.entries[i])
  {
    hide BlkidPrefix, UuidToString, NodeText;
    var u := UuidOf(dev, dev.entries[k]);
    BlkidText(u);
    var i := FirstOf(dev, u, k);
    SearchFindsFirst(dev, u, dev.entries[i]);
  }

  lemma {:induction false} FirstOf(dev: DevDir, u: Uuid, k: nat) returns (i: nat)
    requires k < |dev.entries| && !IsDot(dev.entries[k])
    requires forall j :: 0 <= j <= k && !IsDot(dev.entries[j]) ==> Readable(dev, dev.entries[j])
    requires UuidOf(dev, dev.entries[k]) == u
    ensures i <= k && FirstDevice(dev, u, i)
  {
    if j: nat :| j < k && !IsDot(dev.entries[j]) && UuidOf(dev, dev.entries[j]) == u {
      i := FirstOf(dev, u, j);
    } else {
      i := k;
    }
  }

  lemma SameLine(a: DevDir, b: DevDir, path: string)
    requires a.uuids == b.uuids
    ensures BlkidLine(a, path) == BlkidLine(b, path)
  {
  }

  lemma {:induction false} ListingTail(name: string, dev: DevDir, i: nat)
    requires i <= |dev.entries|
    ensures ListingFrom(DevDir([name] + dev.entries, dev.uuids), i + 1) == ListingFrom(dev, i)
    decreases |dev.entries| - i
  {
    hide BlkidLine, IsDot;
    var longer := DevDir([name] + dev.entries, dev.uuids);
    if i < |dev.entries| {
      assert longer.entries[i + 1] == dev.entries[i];
      ListingTail(name, dev, i + 1);
      SameLine(longer, dev, PathOf(dev.entries[i]));
    }
  }

  /** The listing is that of the first entry, then that of the others: nothing for a hidden
      name, an unreadable device or a zero UUID, else the path, a colon and the UUID. */
  lemma ListingOrder(name: string, dev: DevDir)
    ensures ListingFrom(DevDir([], dev.uuids), 0) == ""
    ensures var path := "/dev/" + name;
            ListingFrom(DevDir([name] + dev.entries, dev.uuids), 0) ==
            (if Hidden(name) || path !in dev.uuids || AllZero(dev.uuids[path]) then ""
             else path + ": " + UuidToString(dev.uuids[path]) + "\n") + ListingFrom(dev, 0)
  {
    hide UuidToString;
    var path := "/dev/" + name;
    HiddenIsDot(name);
    ListingTail(name, dev, 0);
    if path in dev.uuids {
      ZeroMeaning(dev.uuids[path]);
    }
    assert ([name] + dev.entries)[0] == name;
  }

  lemma ZeroMeaning(u: Uuid)
    ensures AllZero(u) <==> u == ZERO_UUID
  {
    if AllZero(u) {
      assert u.node == [0, 0, 0, 0, 0, 0];
    }
  }
}
