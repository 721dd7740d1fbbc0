/** The textual form of a UUID (section 3 of RFC 4122, now section 4 of RFC 9562), as mount
    and blkid print it. */
module UuidText {
  import opened Common
  import opened Numerals

  type Node = s: seq<U8> | |s| == 6 witness [0, 0, 0, 0, 0, 0]

  datatype Uuid = Uuid(timeLow: U32, timeMid: U16, timeHiAndVersion: U16,
                       clockSeqHiAndReserved: U8, clockSeqLow: U8, node: Node)

  const UUID_STR_LEN := 36

  /** snprintf into a buffer of `size` bytes: the text is cut to leave room for the terminator. */
  function Snprintf(size: nat, text: string): string
    requires size > 0
  {
    if |text| < size then text else text[..size - 1]
  }

  /** The text of mount's format string, before any truncation. */
  function Formatted(u: Uuid): string {
    PadHex(u.timeLow, 8) + ("-" + (PadHex(u.timeMid, 4) + ("-" + (PadHex(u.timeHiAndVersion, 4) + ("-" +
    (PadHex(u.clockSeqHiAndReserved, 2) + (PadHex(u.clockSeqLow, 2) + ("-" + (PadHex(u.node[0], 2) +
    (PadHex(u.node[1], 2) + (PadHex(u.node[2], 2) + (PadHex(u.node[3], 2) +
    (PadHex(u.node[4], 2) + PadHex(u.node[5], 2))))))))))))))
  }

  function UuidToString(u: Uuid): string {
    Snprintf(UUID_STR_LEN + 1, Formatted(u))
  }

  function NodeText(bytes: seq<U8>): string {
    if bytes == [] then "" else PadHex(bytes[0], 2) + NodeText(bytes[1..])
  }

  // ---------- reading the text back ----------

  /** Reads exactly w hexadecimal digits, of either case. */
  function TakeHex(s: string, w: nat): Option<(nat, string)> {
    if w <= |s| && AllDigits(s[..w], 16) then Some((Value(s[..w], 16), s[w..])) else None
  }

  function TakeDash(s: string): Option<string> {
    if s != [] && s[0] == '-' then Some(s[1..]) else None
  }

  function TakeBytes(s: string, k: nat): (r: Option<(seq<U8>, string)>)
    ensures r.Some? ==> |r.value.0| == k
  {
    if k == 0 then Some(([], s))
    else
      var (b, s1) :- TakeHex(s, 2);
      assert b < 256 by { HexWidths(s[..2]); }
      var (bs, rest) :- TakeBytes(s1, k - 1);
      Some(([b] + bs, rest))
  }

  lemma HexWidths(s: string)
    requires AllDigits(s, 16)
    ensures |s| == 2 ==> Value(s, 16) < 0x100
    ensures |s| == 4 ==> Value(s, 16) < 0x1_0000
    ensures |s| == 8 ==> Value(s, 16) < 0x1_0000_0000
  {
    ValueBound(s, 16);
    Powers();
  }

  lemma Powers()
    ensures Pow(16, 2) == 0x100 && Pow(16, 4) == 0x1_0000 && Pow(16, 8) == 0x1_0000_0000
  {
    assert Pow(16, 1) == 16 && Pow(16, 2) == 256;
    assert Pow(16, 3) == 0x1000 && Pow(16, 4) == 0x1_0000;
    assert Pow(16, 5) == 0x10_0000 && Pow(16, 6) == 0x100_0000;
    assert Pow(16, 7) == 0x1000_0000 && Pow(16, 8) == 0x1_0000_0000;
  }

  /** A reader of the 8-4-4-4-12 form that accepts digits of either case. */
  function ParseUuid(s: string): Option<Uuid> {
    var (timeLow, s1) :- TakeHex(s, 8);
    var s2 :- TakeDash(s1);
    var (timeMid, s3) :- TakeHex(s2, 4);
    var s4 :- TakeDash(s3);
    var (timeHi, s5) :- TakeHex(s4, 4);
    var s6 :- TakeDash(s5);
    var (clock, s7) :- TakeBytes(s6, 2);
    var s8 :- TakeDash(s7);
    var (node, s9) :- TakeBytes(s8, 6);
    assert timeLow < 0x1_0000_0000 by { HexWidths(s[..8]); }
    assert timeMid < 0x1_0000 by { HexWidths(s2[..4]); }
    assert timeHi < 0x1_0000 by { HexWidths(s4[..4]); }
    if s9 == "" then Some(Uuid(timeLow, timeMid, timeHi, clock[0], clock[1], node)) else None
  }

  // ---------- printing, then reading ----------

  /** A padded field is read back and leaves the rest of the text. */
  lemma TakeHexOf(n: nat, w: nat, rest: string)
    requires w >= 1 && n < Pow(16, w)
    ensures |PadHex(n, w)| == w
    ensures TakeHex(PadHex(n, w) + rest, w) == Some((n, rest))
  {
    PadHexIsFixed(n, w);
    ValueOfFixed(n, w);
    var s := PadHex(n, w) + rest;
    assert s[..w] == PadHex(n, w) && s[w..] == rest;
  }

  lemma {:induction false} TakeBytesOf(bytes: seq<U8>, rest: string)
    ensures |NodeText(bytes)| == 2 * |bytes|
    ensures TakeBytes(NodeText(bytes) + rest, |bytes|) == Some((bytes, rest))
  {
    if bytes == [] {
      assert NodeText(bytes) + rest == rest;
    } else {
      var tail := NodeText(bytes[1..]) + rest;
      assert NodeText(bytes) + rest == PadHex(bytes[0], 2) + tail;
      Powers();
      TakeHexOf(bytes[0], 2, tail);
      TakeBytesOf(bytes[1..], rest);
      assert [bytes[0]] + bytes[1..] == bytes;
    }
  }

  lemma NodeText2(a: U8, b: U8)
    ensures NodeText([a, b]) == PadHex(a, 2) + PadHex(b, 2)
  {
    hide PadHex;
    assert [a, b][1..] == [b] && [b][1..] == [];
    assert NodeText([b]) == PadHex(b, 2) + NodeText([]);
  }

  lemma {:induction false} NodeTextConcat(a: seq<U8>, b: seq<U8>)
    ensures NodeText(a + b) == NodeText(a) + NodeText(b)
  {
    hide PadHex;
    if a == [] {
      assert a + b == b;
    } else {
      assert (a + b)[1..] == a[1..] + b;
      NodeTextConcat(a[1..], b);
    }
  }

  lemma NodeText6(n: Node)
    ensures NodeText(n) == PadHex(n[0], 2) + (PadHex(n[1], 2) + (PadHex(n[2], 2) +
                           (PadHex(n[3], 2) + (PadHex(n[4], 2) + PadHex(n[5], 2)))))
  {
    hide PadHex, NodeText;
    assert n == [n[0], n[1]] + ([n[2], n[3]] + [n[4], n[5]]);
    NodeTextConcat([n[0], n[1]], [n[2], n[3]] + [n[4], n[5]]);
    NodeTextConcat([n[2], n[3]], [n[4], n[5]]);
    NodeText2(n[0], n[1]);
    NodeText2(n[2], n[3]);
    NodeText2(n[4], n[5]);
  }

  /** The format string in terms of its groups. */
  lemma {:induction false} FormattedGroups(u: Uuid)
    ensures Formatted(u) ==
            PadHex(u.timeLow, 8) + ("-" + (PadHex(u.timeMid, 4) + ("-" + (PadHex(u.timeHiAndVersion, 4) +
            ("-" + (NodeText([u.clockSeqHiAndReserved, u.clockSeqLow]) + ("-" + NodeText(u.node))))))))
  {
    hide PadHex, NodeText;
    NodeText6(u.node);
    NodeText2(u.clockSeqHiAndReserved, u.clockSeqLow);
    var a, b := PadHex(u.clockSeqHiAndReserved, 2), PadHex(u.clockSeqLow, 2);
    var t := "-" + NodeText(u.node);
    assert (a + b) + t == a + (b + t);
  }

  /** The text always has 36 characters, so the 37-byte buffer never truncates it, and reading
      it gives the UUID back. */
  lemma {:induction false} UuidRoundTrip(u: Uuid)
    ensures |UuidToString(u)| == UUID_STR_LEN && UuidToString(u) == Formatted(u)
    ensures ParseUuid(UuidToString(u)) == Some(u)
  {
    hide PadHex, NodeText, Formatted, TakeHex, TakeBytes;
    FormattedGroups(u);
    Powers();
    var c := [u.clockSeqHiAndReserved, u.clockSeqLow];
    var t5 := NodeText(u.node);
    var t4 := NodeText(c) + ("-" + t5);
    var t3 := PadHex(u.timeHiAndVersion, 4) + ("-" + t4);
    var t2 := PadHex(u.timeMid, 4) + ("-" + t3);
    TakeBytesOf(u.node, "");
    assert t5 + "" == t5;
    TakeBytesOf(c, "-" + t5);
    TakeHexOf(u.timeHiAndVersion, 4, "-" + t4);
    TakeHexOf(u.timeMid, 4, "-" + t3);
    TakeHexOf(u.timeLow, 8, "-" + t2);
    assert Formatted(u) == PadHex(u.timeLow, 8) + ("-" + t2);
    assert |Formatted(u)| == 36;
    assert TakeDash("-" + t2) == Some(t2) && TakeDash("-" + t3) == Some(t3);
    assert TakeDash("-" + t4) == Some(t4) && TakeDash("-" + t5) == Some(t5);
  }

  // ---------- reading, then printing ----------

  lemma TakeHexInverts(s: string, w: nat)
    requires w >= 1 && TakeHex(s, w).Some?
    ensures Lower(s) == PadHex(TakeHex(s, w).value.0, w) + Lower(TakeHex(s, w).value.1)
  {
    var t := s[..w];
    ValueBound(t, 16);
    FixedOfValue(t);
    PadHexIsFixed(Value(t, 16), w);
    assert s == t + s[w..];
    LowerConcat(t, s[w..]);
  }

  lemma LowerConcat(a: string, b: string)
    ensures Lower(a + b) == Lower(a) + Lower(b)
  {
  }

  lemma TakeDashInverts(s: string)
    requires TakeDash(s).Some?
    ensures Lower(s) == "-" + Lower(TakeDash(s).value)
  {
    assert s == "-" + s[1..];
    LowerConcat("-", s[1..]);
    assert Lower("-") == "-";
  }

  lemma {:induction false} TakeBytesInverts(s: string, k: nat)
    requires TakeBytes(s, k).Some?
    ensures Lower(s) == NodeText(TakeBytes(s, k).value.0) + Lower(TakeBytes(s, k).value.1)
  {
    if k > 0 {
      TakeHexInverts(s, 2);
      var (b, s1) := TakeHex(s, 2).value;
      TakeBytesInverts(s1, k - 1);
      var (bs, rest) := TakeBytes(s1, k - 1).value;
      assert ([b] + bs)[1..] == bs;
      assert NodeText([b] + bs) == PadHex(b, 2) + NodeText(bs);
    }
  }

  /** Whatever spelling of a UUID is read, printing gives its lower-case form. */
  lemma {:induction false} ParseThenPrint(s: string)
    requires ParseUuid(s).Some?
    ensures UuidToString(ParseUuid(s).value) == Lower(s)
  {
    hide PadHex, NodeText, Formatted, TakeHex, TakeBytes, TakeDash, Lower;
    var u := ParseUuid(s).value;
    var (timeLow, s1) := TakeHex(s, 8).value;
    var s2 := TakeDash(s1).value;
    var (timeMid, s3) := TakeHex(s2, 4).value;
    var s4 := TakeDash(s3).value;
    var (timeHi, s5) := TakeHex(s4, 4).value;
    var s6 := TakeDash(s5).value;
    var (clock, s7) := TakeBytes(s6, 2).value;
    var s8 := TakeDash(s7).value;
    TakeHexInverts(s, 8);
    TakeDashInverts(s1);
    TakeHexInverts(s2, 4);
    TakeDashInverts(s3);
    TakeHexInverts(s4, 4);
    TakeDashInverts(s5);
    TakeBytesInverts(s6, 2);
    TakeDashInverts(s7);
    TakeBytesInverts(s8, 6);
    assert clock == [u.clockSeqHiAndReserved, u.clockSeqLow];
    FormattedGroups(u);
    UuidRoundTrip(u);
  }

  /** strcmp against the printed form is a comparison of the 128-bit values, and exactly that
      for text without upper-case digits: another spelling of the same UUID never matches. */
  lemma {:induction false} TextMatchesUuid(s: string, u: Uuid)
    ensures s == UuidToString(u) <==> ParseUuid(s) == Some(u) && Lower(s) == s
  {
    UuidRoundTrip(u);
    if s == UuidToString(u) || ParseUuid(s) == Some(u) {
      ParseThenPrint(s);
    }
  }

  lemma {:induction false} UuidInjective(u: Uuid, v: Uuid)
    ensures UuidToString(u) == UuidToString(v) <==> u == v
  {
    UuidRoundTrip(u);
    UuidRoundTrip(v);
  }

  predicate IsDashPosition(i: int) {
    i == 8 || i == 13 || i == 18 || i == 23
  }

  predicate IsLowerHex(c: char) {
    '0' <= c <= '9' || 'a' <= c <= 'f'
  }

  /** The 8-4-4-4-12 lower-case form, position by position. */
  lemma {:induction false} UuidShape(u: Uuid)
    ensures var s := UuidToString(u);
            |s| == UUID_STR_LEN &&
            forall i :: 0 <= i < |s| ==> if IsDashPosition(i) then s[i] == '-' else IsLowerHex(s[i])
  {
    var s := UuidToString(u);
    UuidRoundTrip(u);
    ParseThenPrint(s);
    assert Lower(s) == s;
    ParsedShape(s);
    forall i | 0 <= i < |s| && IsDigit(s[i], 16) ensures IsLowerHex(s[i]) {
      assert s[i] == LowerChar(s[i]);
    }
  }

  lemma {:induction false} BytesShape(s: string, k: nat)
    requires TakeBytes(s, k).Some?
    ensures |s| >= 2 * k && TakeBytes(s, k).value.1 == s[2 * k..]
    ensures AllDigits(s[..2 * k], 16)
  {
    if k > 0 {
      var s1 := TakeHex(s, 2).value.1;
      BytesShape(s1, k - 1);
      assert s[..2 * k] == s[..2] + s1[..2 * (k - 1)];
      assert s1[2 * (k - 1)..] == s[2 * k..];
    }
  }

  lemma ParsedShape(s: string)
    requires ParseUuid(s).Some?
    ensures |s| == UUID_STR_LEN
    ensures forall i :: 0 <= i < |s| ==> if IsDashPosition(i) then s[i] == '-' else IsDigit(s[i], 16)
  {
    hide Value, TakeBytes;
    var s2, s4, s6 := s[9..], s[14..], s[19..];
    assert s2[5..] == s4 && s4[5..] == s6;
    BytesShape(s6, 2);
    var s8 := s[24..];
    assert s6[4..][1..] == s8;
    BytesShape(s8, 6);
    forall i | 0 <= i < |s|
      ensures if IsDashPosition(i) then s[i] == '-' else IsDigit(s[i], 16)
    {
      if i < 8 {
        assert s[i] == s[..8][i];
      } else if 9 <= i < 13 {
        assert s[i] == s2[..4][i - 9];
      } else if 14 <= i < 18 {
        assert s[i] == s4[..4][i - 14];
      } else if 19 <= i < 23 {
        assert s[i] == s6[..4][i - 19];
      } else if 24 <= i {
        assert s[i] == s8[..12][i - 24];
      }
    }
  }

  // ---------- a spelling with an upper-case digit ----------

  const ZEROS4 := "0000"
  const ZEROS12 := "000000000000"
  const SPELLING_TAIL := "-" + (ZEROS4 + ("-" + (ZEROS4 + ("-" + (ZEROS4 + ("-" + ZEROS12))))))
  const UPPER_SPELLING := "0000000A" + SPELLING_TAIL
  const LOWER_SPELLING := "0000000a" + SPELLING_TAIL
  const SPELLED := Uuid(0xA, 0, 0, 0, 0, [0, 0, 0, 0, 0, 0])

  predicate ZeroDigits(s: string) {
    forall i :: 0 <= i < |s| ==> s[i] == '0'
  }

  lemma {:induction false} ValueOfZeros(s: string)
    requires ZeroDigits(s)
    ensures AllDigits(s, 16) && Value(s, 16) == 0
  {
    if s != [] {
      ValueOfZeros(s[..|s| - 1]);
    }
  }

  lemma TakeDigits(t: string, rest: string)
    requires AllDigits(t, 16)
    ensures TakeHex(t + rest, |t|) == Some((Value(t, 16), rest))
  {
    assert (t + rest)[..|t|] == t && (t + rest)[|t|..] == rest;
  }

  lemma {:induction false} TakeZeroBytes(t: string, rest: string, k: nat)
    requires ZeroDigits(t) && |t| == 2 * k
    ensures TakeBytes(t + rest, k).Some? && TakeBytes(t + rest, k).value.1 == rest
    ensures forall i :: 0 <= i < k ==> TakeBytes(t + rest, k).value.0[i] == 0
  {
    if k == 0 {
      assert t + rest == rest;
    } else {
      ValueOfZeros(t[..2]);
      assert t + rest == t[..2] + (t[2..] + rest);
      TakeDigits(t[..2], t[2..] + rest);
      TakeZeroBytes(t[2..], rest, k - 1);
    }
  }

  lemma UpperCaseLower()
    ensures Lower(UPPER_SPELLING) == LOWER_SPELLING != UPPER_SPELLING
  {
    LowerConcat("0000000A", SPELLING_TAIL);
    assert Lower("0000000A") == "0000000a";
    assert Lower(SPELLING_TAIL) == SPELLING_TAIL;
    assert LOWER_SPELLING[7] == 'a' && UPPER_SPELLING[7] == 'A';
  }

  lemma SpellingDigits()
    ensures ZeroDigits(ZEROS4) && |ZEROS4| == 4 && ZeroDigits(ZEROS12) && |ZEROS12| == 12
    ensures AllDigits(ZEROS4, 16) && Value(ZEROS4, 16) == 0
    ensures AllDigits("0000000A", 16) && Value("0000000A", 16) == 10
  {
    var h := "0000000A";
    ValueOfZeros(ZEROS4);
    assert ZeroDigits(h[..7]) && h[7] == 'A';
    ValueOfZeros(h[..7]);
  }

  /** An upper-case digit is read like its lower-case form. */
  lemma UpperCaseText()
    ensures ParseUuid(UPPER_SPELLING) == Some(SPELLED)
  {
    SpellingDigits();
    hide Value, TakeHex, TakeBytes, ZeroDigits, AllDigits, ZEROS4, ZEROS12;
    var h, z, n := "0000000A", ZEROS4, ZEROS12;
    var t8 := "-" + n;
    var t6 := "-" + (z + t8);
    var t4 := "-" + (z + t6);
    var t2 := "-" + (z + t4);
    assert UPPER_SPELLING == h + t2;
    TakeDigits(h, t2);
    TakeDigits(z, t4);
    TakeDigits(z, t6);
    TakeZeroBytes(z, t8, 2);
    TakeZeroBytes(n, "", 6);
    assert n + "" == n;
    AfterDash(z + t4);
    AfterDash(z + t6);
    AfterDash(z + t8);
    AfterDash(n);
    hide TakeDash;
    assert TakeBytes(z + t8, 2).value.0 == [0, 0];
    assert TakeBytes(n, 6).value.0 == [0, 0, 0, 0, 0, 0];
  }

  lemma AfterDash(rest: string)
    ensures TakeDash("-" + rest) == Some(rest)
  {
  }

  // ---------- where each field stands ----------

  lemma {:induction false} BytesAt(s: string, k: nat, i: nat)
    requires i < k && TakeBytes(s, k).Some?
    ensures |s| >= 2 * k && AllDigits(s[2 * i..2 * i + 2], 16)
    ensures TakeBytes(s, k).value.0[i] == Value(s[2 * i..2 * i + 2], 16)
  {
    BytesShape(s, k);
    if i > 0 {
      BytesAt(s[2..], k - 1, i - 1);
      assert s[2..][2 * (i - 1)..2 * (i - 1) + 2] == s[2 * i..2 * i + 2];
    } else {
      assert s[0..2] == s[..2];
    }
  }

  predicate Spells(s: string, v: nat) {
    AllDigits(s, 16) && Value(s, 16) == v
  }

  lemma HexAt(s: string, w: nat)
    requires TakeHex(s, w).Some?
    ensures w <= |s| && Spells(s[..w], TakeHex(s, w).value.0) && TakeHex(s, w).value.1 == s[w..]
  {
  }

  lemma DashAt(s: string)
    requires TakeDash(s).Some?
    ensures s != "" && TakeDash(s).value == s[1..]
  {
  }

  /** The three numbers before the bytes. */
  lemma FrontLayout(s: string)
    requires ParseUuid(s).Some? && |s| == 36
    ensures var u := ParseUuid(s).value;
            && Spells(s[0..8], u.timeLow) && Spells(s[9..13], u.timeMid)
            && Spells(s[14..18], u.timeHiAndVersion)
  {
    hide TakeHex, TakeDash, TakeBytes, Spells;
    HexAt(s, 8);
    DashAt(s[8..]);
    var s2, s4 := s[9..], s[14..];
    assert s[8..][1..] == s2;
    HexAt(s2, 4);
    DashAt(s2[4..]);
    assert s2[4..][1..] == s4;
    HexAt(s4, 4);
    assert s[..8] == s[0..8] && s2[..4] == s[9..13] && s4[..4] == s[14..18];
  }

  /** The bytes after them. */
  lemma BytesLayout(s: string)
    requires ParseUuid(s).Some? && |s| == 36
    ensures var u := ParseUuid(s).value;
            && TakeBytes(s[19..], 2).Some? && TakeBytes(s[24..], 6).Some?
            && TakeBytes(s[19..], 2).value.0 == [u.clockSeqHiAndReserved, u.clockSeqLow]
            && TakeBytes(s[24..], 6).value.0 == u.node
  {
    hide TakeHex, TakeDash, TakeBytes, Spells;
    HexAt(s, 8);
    DashAt(s[8..]);
    var s2, s4, s6 := s[9..], s[14..], s[19..];
    assert s[8..][1..] == s2;
    HexAt(s2, 4);
    DashAt(s2[4..]);
    assert s2[4..][1..] == s4;
    HexAt(s4, 4);
    DashAt(s4[4..]);
    assert s4[4..][1..] == s6;
    BytesShape(s6, 2);
    DashAt(s6[4..]);
    assert s6[4..][1..] == s[24..];
  }

  lemma ByteSpelled(s: string, k: nat, i: nat)
    requires i < k && TakeBytes(s, k).Some?
    ensures |s| >= 2 * k && Spells(s[2 * i..2 * i + 2], TakeBytes(s, k).value.0[i])
  {
    BytesAt(s, k, i);
  }

  /** Byte i of the node stands at its own two positions. */
  lemma NodeLayout(s: string, i: nat)
    requires ParseUuid(s).Some? && |s| == 36 && i < 6
    ensures Spells(s[24 + 2 * i..26 + 2 * i], ParseUuid(s).value.node[i])
  {
    BytesLayout(s);
    hide TakeBytes, ParseUuid, Spells;
    ByteSpelled(s[24..], 6, i);
    assert s[24..][2 * i..2 * i + 2] == s[24 + 2 * i..26 + 2 * i];
  }

  lemma ClockLayout(s: string)
    requires ParseUuid(s).Some? && |s| == 36
    ensures Spells(s[19..21], ParseUuid(s).value.clockSeqHiAndReserved)
    ensures Spells(s[21..23], ParseUuid(s).value.clockSeqLow)
  {
    BytesLayout(s);
    hide TakeBytes, ParseUuid, Spells;
    ByteSpelled(s[19..], 2, 0);
    ByteSpelled(s[19..], 2, 1);
    assert s[19..][2 * 0..2 * 0 + 2] == s[19..21] && s[19..][2 * 1..2 * 1 + 2] == s[21..23];
  }

  /** The layout of the text: every field is the number spelled at its own positions. */
  lemma UuidLayout(u: Uuid)
    ensures var s := UuidToString(u);
            && |s| == 36
            && Spells(s[0..8], u.timeLow) && Spells(s[9..13], u.timeMid)
            && Spells(s[14..18], u.timeHiAndVersion)
            && Spells(s[19..21], u.clockSeqHiAndReserved) && Spells(s[21..23], u.clockSeqLow)
            && forall i :: 0 <= i < 6 ==> Spells(s[24 + 2 * i..26 + 2 * i], u.node[i])
  {
    var s := UuidToString(u);
    UuidRoundTrip(u);
    hide UuidToString, ParseUuid, Spells;
    FrontLayout(s);
    ClockLayout(s);
    forall i | 0 <= i < 6 ensures Spells(s[24 + 2 * i..26 + 2 * i], u.node[i]) {
      NodeLayout(s, i);
    }
  }
}
