/** fstab lines that name a device by UUID, end to end: from the text blkid prints to the
    mount that is attempted. */
module FstabUuid {
  import opened Common
  import opened Numerals
  import opened Tokens
  import opened MountFlags
  import opened UuidText
  import opened Devices
  import opened Fstab

  predicate Word(w: string) {
    w != "" && DelimFree(w, SPACES)
  }

  /** A line that asks for a UUID, in whatever spelling. */
  function UuidLine(text: string, target: string, fs: string, options: string): string {
    SixFieldLine("UUID=" + text, target, fs, options, "0", "0") + "\n"
  }

  lemma SpellingIsWord(text: string)
    requires ParseUuid(text).Some?
    ensures DelimFree(text, SPACES)
  {
    ParsedShape(text);
    forall i | 0 <= i < |text| ensures text[i] !in SPACES {
      if !IsDashPosition(i) {
        assert IsDigit(text[i], 16);
      }
    }
  }

  /** Any such line is acted on by the search over /dev. */
  lemma {:induction false} UuidLineTreated(S: System, text: string, target: string, fs: string, options: string)
    requires ParseUuid(text).Some? && Word(target) && Word(fs) && Word(options)
    ensures Treat(S, UuidLine(text, target, fs, options)) ==
            Do(UuidAction(S, text, target, StringToType(S.types, fs), FstabMask(S.flags, options)))
  {
    var a := "UUID=" + text;
    SpellingIsWord(text);
    assert DelimFree("UUID=", SPACES) && DelimFree("0", SPACES);
    assert DelimFree(a, SPACES);
    StrnEqPrefix(a, "UUID=");
    assert a[5..] == text;
    hide ParseUuid, Split, DelimFree, FstabMask, StringToType, UuidAction, StrnEq;
    SixFieldSplit(a, target, fs, options, "0", "0");
    assert UuidLine(text, target, fs, options)[0] == 'U';
  }

  /** A line with the UUID of a device in lower case mounts the first device that has it; the
      source handed to mount is the bare entry name. If there is none, or an unreadable entry
      comes first, or the spelling has an upper-case digit, the line is reported and skipped. */
  lemma UuidLineMeaning(S: System, text: string, target: string, fs: string, options: string)
    requires ParseUuid(text).Some? && Word(target) && Word(fs) && Word(options)
    ensures var t := Treat(S, UuidLine(text, target, fs, options));
            var u := ParseUuid(text).value;
            && (t == Do(DeviceNotFound(text)) <==>
                  Lower(text) != text || forall k :: 0 <= k < |S.dev.entries| ==> !FirstDevice(S.dev, u, k))
            && (forall k :: 0 <= k < |S.dev.entries| && Lower(text) == text && FirstDevice(S.dev, u, k) ==>
                  t == Do(Mount(S.dev.entries[k], target, StringToType(S.types, fs),
                                FstabMask(S.flags, options))))
  {
    UuidLineTreated(S, text, target, fs, options);
    SearchAnySpelling(S.dev, text);
    hide Treat, UuidLine, ParseUuid, StringToType, FstabMask, Lower, FirstDevice, UuidToString, Word;
    var u := ParseUuid(text).value;
    forall k | 0 <= k < |S.dev.entries| && FirstDevice(S.dev, u, k)
      ensures SearchFrom(S.dev, UuidToString(u), 0) == Some(S.dev.entries[k])
    {
      SearchFindsFirst(S.dev, u, S.dev.entries[k]);
    }
    if SearchFrom(S.dev, UuidToString(u), 0).Some? {
      SearchFindsFirst(S.dev, u, SearchFrom(S.dev, UuidToString(u), 0).value);
    }
  }

  /** The line written from what blkid prints for a device mounts a device with its UUID. */
  lemma BlkidLineMounts(S: System, k: nat, target: string, fs: string, options: string)
    requires k < |S.dev.entries| && !IsDot(S.dev.entries[k])
    requires forall j :: 0 <= j <= k && !IsDot(S.dev.entries[j]) ==> Readable(S.dev, S.dev.entries[j])
    requires Word(target) && Word(fs) && Word(options)
    ensures var u := UuidOf(S.dev, S.dev.entries[k]);
            var printed := BlkidPrefix(u) + NodeText(u.node);
            exists i :: 0 <= i <= k && FirstDevice(S.dev, u, i)
                        && Treat(S, UuidLine(printed, target, fs, options)) ==
                           Do(Mount(S.dev.entries[i], target, StringToType(S.types, fs),
                                    FstabMask(S.flags, options)))
  {
    var u := UuidOf(S.dev, S.dev.entries[k]);
    BlkidText(u);
    TextMatchesUuid(UuidToString(u), u);
    BlkidFeedsMount(S.dev, k);
    UuidLineMeaning(S, UuidToString(u), target, fs, options);
    hide Treat, UuidLine, ParseUuid, StringToType, FstabMask, Lower, FirstDevice, UuidToString, Word;
    hide BlkidPrefix, NodeText, SearchFrom;
  }
}
