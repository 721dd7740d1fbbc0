# Verified model of util-ironclad's text and event handling

This project models the parts of util-ironclad that hold state, run loops or agree on a text
format, and proves what they promise. `dafny verify dfyconfig.toml` checks all of it.

* **strace** demultiplexes one stream of `(thread, registers)` records into entry and return
  lines. `StraceTracer.Tracer` is the main loop over its growable array of threads, printing
  piece by piece to a file. `Strace` shows that one pass over the array, which does not stop at a
  match, is one update of a map from threads to "expects an entry" (the array's tids stay
  distinct, so exactly one line comes out). `StraceRuns` proves what holds over whole runs: every
  thread's lines are those of a two-state automaton fed with that thread's events alone, whatever
  the interleaving; a list of lines is a possible transcript exactly when each thread's lines
  alternate; entries, returns and waiting slots are conserved; the table stays below 65536.
  `StraceText` reads the printed file back: tids, kinds of line, names or numbers, every printed
  register and both result registers, and shows that two runs with the same file left every
  thread in the same state.
* **mount** writes `/etc/mtab` and reads `/etc/fstab`. `Fstab` is the reader, fgets buffer by
  fgets buffer, with its options column split in place; it distributes over concatenation, and
  `FstabLines` shows it to be a fold over the lines of any file, whatever their length. `Mtab` is
  the writer. Its text fits the reader's buffers and gives back the same mounts if and only if no
  name holds white space, no location is empty and no mount is a devfs, which reads back as type
  0. A name with white space shifts the fields and can overflow the reader's buffers; there the
  reading loop has no defined result.
* **UUIDs** as text: `UuidText` proves the printed form to be the 36-character lower-case form,
  inverted by a reader and hence injective. `Devices` proves mount's search through /dev to be a
  search by value that finds the first match, as long as nothing unreadable comes before it, and
  blkid's two-part printing to give the same text; `FstabUuid` follows that text through an fstab
  line to the mount attempted.
* **Token loops**: `StrtokLib.Strtok` is strtok with its saved position and its writes into the
  caller's buffer (section 7.24.5.8 of ISO/IEC 9899:2011); it yields exactly the maximal
  delimiter-free runs. It drives three loops: fstab options and `mount -f` (`MountFlags`, with the
  exact condition under which the two agree) and `execmac -c` (`Execmac`, with the whole option
  loop and what its final mask depends on).
* **logger** and **watch** (`Join`): two strcat loops over a sized buffer that build the same
  space-joined text.

## Reading the model

* `MS_*`, `MNT_*`, `MAC_CAP_*` and `SYSCALL_*` come from headers that are not part of this model.
  They are parameters: distinct bits (`FlagBits.Valid`, `CapBits.Valid`), distinct nonzero types
  (`FsTypes.Valid`), and three syscall numbers (`Numbers`).
* The syscall table of src/strace.c:71-172 is a parameter too, with what the decoding needs of it
  (`Config.Valid`): slots 0 to 101, some of them undefined (21 and 98 in the source), names that
  are distinct, not empty and without `(`.
* A flags or capability word is the set of positions of its one-bits, so `|=` is union. Only `|=`,
  single-bit tests and assignment of 0 or of all ones are applied to such words.
* Strings are sequences of characters. Buffers that the source writes in place (strtok's, fgets's,
  strcat's, the options column) are arrays with explicit NUL terminators.
* Events, directory listings, the answers of devices, mount lists and permission results are
  inputs; printed text, attempted mounts and permission requests are outputs.

## Where the code and a description differ

* execmac's help says `all` must be passed alone (src/execmac.c:64). The code grants everything to
  any list that starts with `all`, and rejects `all` anywhere else: `AllOnlyAtTheStart`, with an
  input of each kind in `AllWithOthers`.
* RFC 4122 reads hexadecimal digits in either case. mount compares texts, so a `UUID=` with an
  upper-case digit finds no device: `SearchAnySpelling`, `UuidLineMeaning`, and an input in
  `UpperCaseExample`.
* `noatime` is compared over 8 characters by `mount -f`, so it alone has to match whole, while
  `ro`, `relatime` and `remount` match as prefixes: `OptionFlagMeaning`, `FlagParsersAgree`.
* The path found by UUID is handed to mount as the bare entry name, without `/dev/`
  (src/mount.c:165 and 225); `UuidLineMeaning` says so.
* A line that starts with `#` is meant to be a comment, but fgets hands over 149 characters at a
  time, so the rest of a longer comment is acted on as a line of its own: `CommentLine`,
  `CommentLimit`, `CommentedMount`.

## Model

| member | source | states |
|---|---|---|
| StraceTracer.Trace | src/strace.c:296-346 | over any handled events, the file is exactly the text of the transcript, with the trailer and status 0 only if the child's exit was seen, and status 1 when poll or realloc fails; the array denotes the final map |
| StraceTracer.Tracer.Handle | src/strace.c:305-338 | one event turns the table and the file into those of the specification; the replay after an append runs exactly when the thread is new, so at most once; a refused append prints nothing and ends the run |
| StraceTracer.Tracer.Scan | src/strace.c:310-328 | the full pass prints a line and flips the bit for every slot with the event's tid, for no other, and reports whether there was one |
| StraceTracer.Tracer.Append | src/strace.c:329-336 | the grown array keeps all old slots in order and adds the new thread, expecting an entry, at the end |
| StraceTracer.Tracer.PrintLine | src/strace.c:313-323 | prefix, body and newline of one line, by its kind |
| StraceTracer.Tracer.PrintSyscall | src/strace.c:174-212 | appends the text of the call the registers denote, by name or by raw number when out of range |
| StraceTracer.Tracer.PrintArguments | src/strace.c:181-209 | each count from 0 to 6 prints that many argument registers in order; a larger count prints the fixed words |
| Strace.ScanKnown | src/strace.c:311-328 | with distinct tids the non-stopping scan prints exactly one line and changes exactly one slot |
| Strace.ScanUnknown | src/strace.c:311-329 | a scan without a match prints and changes nothing |
| Strace.StepRefines | src/strace.c:309-338 | one event on the array is one update of the map, keeps tids distinct, appends a new thread last, and prints one line of the map's kind |
| StraceRuns.TableRefinesMap | src/strace.c:310-337 | after any run the array denotes exactly the map of seen threads and printed exactly the map's lines |
| StraceRuns.Demultiplexing | src/strace.c:296-339 | the lines of one thread are the two-state automaton's on that thread's events alone |
| StraceRuns.InterleavingIrrelevant | src/strace.c:310-337 | any two interleavings of the same per-thread streams give equal per-thread lines and the same final map |
| StraceRuns.SwapAdjacent | src/strace.c:310-337 | adjacent events of different threads may be swapped |
| StraceRuns.AlternationExact | src/strace.c:313-325 | a thread's lines alternate, and alternation characterises the automaton's outputs |
| StraceRuns.TranscriptExact | src/strace.c:313-325 | a list of lines is what its events print if and only if every thread's lines alternate |
| StraceRuns.LineKinds | src/strace.c:313-325 | a thread's first line is an entry, and any other is one if and only if its line before was a return or the entry of exit, exit_thread or exec |
| StraceRuns.Conservation | src/strace.c:313-325 | entries equal returns plus exit, exit_thread and exec entries plus waiting slots; lines equal events |
| StraceRuns.TableBound | src/strace.c:60-63 | the table has at most as many slots as events and at most 65536 |
| StraceRuns.SeenInOrder | src/strace.c:329-336 | the threads in the table are those with an event, in order of first appearance |
| StraceText.ReadCallOf | src/strace.c:174-212 | a printed call is read back: name or number and the list of arguments |
| StraceText.ReadResultOf | src/strace.c:214-220 | a printed result is read back: rax and rdx, zero when there is no parenthesis |
| StraceText.ReadLineOf | src/strace.c:313-323 | a printed line is read back with its kind and tid, and the text after it is left |
| StraceText.DecodeText | src/strace.c:174-345 | the whole printed file is read back into what every line shows, and the exit status |
| StraceText.FileShowsRun | src/strace.c:174-345 | the file of a run tells, line by line, thread and kind, the slot's name for a number up to 101 with rdi, rsi, rdx, r12, r8, r9 as far as its count goes and too many beyond six, the number and six registers above 101, and rax and rdx of a return |
| StraceText.EntryFormat | src/strace.c:174-212 | entry lines written out for every argument count and for numbers out of range |
| StraceText.ReturnFormat | src/strace.c:214-220 | return lines with and without rdx, and the trailer, written out |
| StraceText.CallDeterminesNumber | src/strace.c:70-172 | the shown call determines the syscall number, because names are distinct |
| StraceText.TextDeterminesRun | src/strace.c:310-345 | equal files mean equal observations line by line and the same final state of every thread |
| StrtokLib.Strtok.First | src/mount.c:204 | the first token of the string in the buffer, and what remains to be split |
| StrtokLib.Strtok.Next | src/mount.c:213 | the next maximal run, terminated in place by the only byte written; the saved position moves past it and everything unread is untouched |
| Tokens.SplitIsMaximalRuns | src/mount.c:204-214 | the tokeniser's spans are the list of all maximal delimiter-free runs in order, and no other list is |
| Tokens.TokensAreSpanTexts | src/mount.c:204-214 | the tokens are the texts of those spans |
| Tokens.TokensAreWords | src/mount.c:277-292 | no token is empty or holds a delimiter |
| Tokens.OneItem | src/execmac.c:77-115 | a list is a single item exactly when it holds no comma |
| Tokens.SplitConcat | src/execmac.c:77-116 | splitting distributes over a delimiter between two texts, empty items included |
| Masks.LoopAddsBits | src/execmac.c:77-116 | a token loop adds the bits of all tokens, and a strict one fails exactly when a token is unknown |
| Masks.ParseConcat | src/mount.c:277-292 | the mask of a concatenated list is the union of the masks, or failure if either fails |
| Masks.ParseOfSet | src/execmac.c:77-116 | order and repetition of tokens do not matter |
| MountFlags.ApplyOption | src/mount.c:279-290 | the strncmp chain finds noatime only as a whole word and the other three as prefixes, in whatever order they are tried |
| MountFlags.ParseOptionFlags | src/mount.c:276-293 | the -f loop adds the mask of the list to the flags so far, or gives up |
| MountFlags.ParseFstabOptions | src/mount.c:203-214 | the options loop computes the mask of the column |
| MountFlags.OptionFlagMeaning | src/mount.c:279-287 | no token matches two branches, so the order of the chain is irrelevant; nothing else is accepted |
| MountFlags.OptionMaskMeaning | src/mount.c:276-293 | a -f list is accepted if and only if every item is known, and sets exactly the flags asked for |
| MountFlags.FstabMaskMeaning | src/mount.c:203-214 | an options column sets exactly the flags whose whole word it holds |
| MountFlags.ColumnDelimiters | src/mount.c:204 | a column is a single option exactly when it holds neither comma nor space |
| MountFlags.FlagParsersAgree | src/mount.c:203-292 | the two parsers give a list the same mask if and only if every token is noatime, or starts with ro or relatime while that bare word is also listed |
| MountFlags.OptionMaskConcat | src/mount.c:277-292 | joining two -f lists with a comma joins their masks |
| MountFlags.FstabMaskConcat | src/mount.c:203-214 | joining two options columns with a comma joins their masks |
| MountFlags.OptionOrderIrrelevant | src/mount.c:277-292 | -f ignores order, repetition and empty items |
| MountFlags.FstabOrderIrrelevant | src/mount.c:203-214 | the options column ignores order, repetition and empty items |
| Execmac.ApplyCapability | src/execmac.c:79-114 | the chain adds the capability of the one keyword the token starts with, or fails |
| Execmac.KeywordsApart | src/execmac.c:79-109 | no token starts with two keywords, so the order of the chain is irrelevant |
| Execmac.ParseCapabilities | src/execmac.c:69-117 | the -c case computes the mask of its list from scratch |
| Execmac.CapMaskMeaning | src/execmac.c:77-116 | a list not starting with all is accepted if and only if every token starts with a keyword, and grants exactly the capabilities so named |
| Execmac.CapMaskWords | src/execmac.c:48-114 | the same word by word: each of the 16 words grants the capability it names |
| Execmac.AllGrantsEverything | src/execmac.c:70-72 | a list that starts with all grants exactly the 64 bits of the word, and so at least what any other list grants |
| Execmac.CapOrderIrrelevant | src/execmac.c:70-116 | lists with the same tokens get the same answer if and only if both or neither start with all |
| Execmac.AllOnlyAtTheStart | src/execmac.c:64-75 | all grants all 64 bits at the start of the list and is rejected anywhere else |
| Execmac.AllWithOthers | src/execmac.c:64-75 | "all,mem" grants everything and "mem,all" is rejected |
| Execmac.RequestFilter | src/execmac.c:118-123 | device paths are requested without their prefix and with permissions 0b1011111, others whole and with 0b11111 |
| Execmac.Options | src/execmac.c:32-151 | the option loop ends as the first option that does not proceed says, with the requests made up to there |
| Execmac.OptionEnds | src/execmac.c:32-151 | which options let the loop go on, and the exit status of each that ends the program |
| Execmac.OptionRequests | src/execmac.c:118-141 | what each option asks of the kernel, in the order of the options |
| Execmac.LastCapsDecides | src/execmac.c:29-154 | over every run that reaches the command, at the end of the options or at an unrecognised one, the last -c alone decides the mask, and without one it is inherited |
| UuidText.UuidRoundTrip | src/mount.c:53-60 | the text has 36 characters, is never truncated, and is read back to the same UUID |
| UuidText.UuidShape | src/mount.c:53-60 | dashes at the four positions of the 8-4-4-4-12 form, lower-case hexadecimal digits elsewhere |
| UuidText.UuidLayout | src/mount.c:53-60 | every field is spelled at its own positions of the text |
| UuidText.ParseThenPrint | src/commons.h:30-39 | printing what was read from any spelling gives its lower-case form |
| UuidText.TextMatchesUuid | src/mount.c:163-164 | comparing with the printed text is comparing 128-bit values, for lower-case text only |
| UuidText.UuidInjective | src/mount.c:53-60 | equal texts mean equal UUIDs |
| Devices.GetPathFromUuid | src/mount.c:141-172 | the readdir loop computes the search specification; a /dev that cannot be opened is an empty one |
| Devices.SearchFindsFirst | src/mount.c:147-171 | it finds n if and only if n is the first non-dot entry with that UUID and every earlier one is readable |
| Devices.SearchAnySpelling | src/mount.c:163-166 | a lower-case spelling is searched by value, any other spelling finds nothing |
| Devices.UpperCaseExample | src/mount.c:163-166 | one device, found by the lower-case spelling of its UUID and not by one with an upper-case digit |
| Devices.PrintFdUuid | src/blkid.c:33-60 | one line with path and UUID text for a readable device whose UUID is not all zero, else nothing |
| Devices.BlkidText | src/blkid.c:53-58 | prefix and node loop together print the very text mount compares with |
| Devices.ListDevices | src/blkid.c:92-100 | the lines of all non-dot entries in order |
| Devices.ListingOrder | src/blkid.c:92-100 | the listing is that of the first entry, nothing if its name starts with a dot, then that of the others |
| Devices.BlkidFeedsMount | src/blkid.c:53-58 | the text blkid prints for a device leads mount's search to the first device with that UUID |
| Fstab.StringToTypeMeaning | src/mount.c:62-72 | the longer names add nothing to the two prefixes |
| Fstab.TypeRoundTrip | src/mount.c:62-81 | a known type survives printing and reading if and only if it is not devfs, which becomes 0 |
| Fstab.Fgets | src/mount.c:181-182 | the buffer holds the characters up to a newline, the buffer's end or the file's end |
| Fstab.BufferMeaning | src/mount.c:181-182 | one read takes at most 149 characters, a newline only as the last, and as many as newline, limit and file allow |
| Fstab.BufferSizes | src/mount.c:183-188 | a line fits if and only if its first six fields are shorter than 60, 30, 30, 30, 10 and 10 |
| Fstab.TreatLine | src/mount.c:190-230 | what one line does: skipped, ends the reading, or attempts a mount |
| Fstab.UpdateAccordingFstab | src/mount.c:174-235 | status 1 and nothing attempted when the file cannot be opened, else status 0 and exactly the attempts of the file specification |
| Fstab.ReadConcat | src/mount.c:182-231 | reading a newline-terminated file and then another is reading their concatenation, unless the first stops at a malformed line |
| FstabLines.ReadIsFold | src/mount.c:182-231 | for any file, the attempts are those asked for by the longest prefix of comments, single characters and six-field pieces, a piece being a line or 149 characters of a longer one |
| FstabLines.TreatMeaning | src/mount.c:190-230 | a piece of at least six fields that is no comment gives exactly one action, on its first four fields; no other piece gives any, and only malformed ones stop the loop |
| FstabLines.ExtraFieldsIgnored | src/mount.c:194-196 | whatever follows the sixth field changes nothing |
| FstabLines.PiecesMeaning | src/mount.c:181-182 | the pieces make up the line, and all but the last have 149 characters |
| FstabLines.CommentLine | src/mount.c:181-192 | a comment of up to 149 characters is passed over; what exceeds them in a longer one is read as a line |
| FstabLines.CommentLimit | src/mount.c:181-192 | comments of a length are ignored whatever follows if and only if the length is at most 149 |
| FstabLines.CommentedMount | src/mount.c:181-229 | a six-field line right behind 149 characters of comment is attempted |
| FstabUuid.UuidLineMeaning | src/mount.c:216-230 | a UUID line mounts the first device with it, and is reported if and only if the spelling is not lower case or there is no reachable device |
| FstabUuid.BlkidLineMounts | src/mount.c:219-227 | a line made from blkid's text mounts a device with that UUID |
| Mtab.WriteRecord | src/mount.c:97-110 | the pieces printed for one mount make up its six-field line |
| Mtab.UpdateMtab | src/mount.c:83-114 | nothing is written, with status 1, on error, more than five mounts or a file that cannot be opened, else the lines of all mounts in order |
| Mtab.EveryRecordNames | src/mount.c:36-39 | a printable array and length stand for exactly one name, the one printed |
| Mtab.WrittenLine | src/mount.c:97-110 | the line written out in terms of the names, the type and the flags |
| Mtab.LineFields | src/mount.c:97-110 | a line with clean names splits into exactly the six fields it was printed from |
| Mtab.WidthBound | src/mount.c:97-110 | every line is at most 69 bytes with its newline, and the fields of a clean line fit the reader's buffers |
| Mtab.OptionsReadBack | src/mount.c:100-109 | the options column reads back as the normalised flags |
| Mtab.NormalisedKeeps | src/mount.c:100-109 | flags survive if and only if only the three known ones occur and not both about access times |
| Mtab.LineReadBack | src/mount.c:190-230 | one clean line is read as one mount by path, never by UUID |
| Mtab.MtabRoundTrip | src/mount.c:96-231 | the written text fits the reader's buffers and reads back as exactly those mounts if and only if all names are free of white space, no location is empty and no type is devfs |
| Mtab.NamesRoundTrip | src/mount.c:96-231 | the same in the kernel's names: the file reads back as the mounts of the names the records stand for, in order, if and only if the names are free of white space, no location is empty and no type is devfs |
| Mtab.UncleanOverflows | src/mount.c:97-195 | a name with spaces can push a later field into a buffer it does not fit |
| Mtab.DevfsReadsAsZero | src/mount.c:62-81 | a devfs mount reads back as the same mount of type 0 |
| Join.Strcat | src/logger.c:48-49 | the text in the buffer grows by the appended string and stays terminated |
| Join.Measure | src/logger.c:29-44 | the first option word is found, and otherwise the size is the joined length plus one |
| Join.PaddedIsJoined | src/logger.c:47-51 | the appended text is the joined words and one trailing space |
| Join.JoinedConcat | src/watch.c:94-98 | one space stands between any two neighbours and nothing else is added |
| Join.Logger | src/logger.c:28-54 | the logged text is the words joined by single spaces, unless one is -h or -v, the first of which decides |
| Join.Watch | src/watch.c:89-98 | the command text is the words joined by single spaces, and cmd_len is its length |
| Join.JoinedSplits | src/watch.c:89-98 | the joined text splits back into the words if and only if none is empty or holds a space |

## Left out

- StraceTracer.Trace: covers the events that were read; the loop may leave some in the pipe when the child exits. Short reads are not modelled.
- StraceTracer.Tracer.PrintSyscall: an in-range number without a name is outside its precondition, because printing a null name has no defined result.
- StraceText.DecodeText: recovers what is printed; registers beyond the printed arguments are not in the text.
- Mtab.UpdateMtab: mounts of a type without a name are outside its precondition, because printing a null name has no defined result.
- Fstab.UpdateAccordingFstab: fields that do not fit their buffers are outside its precondition; source, target, fs, dump and pass are values, only the line buffer and the options column are arrays; sscanf is the splitting at white space it is defined to be.
- Join.Logger: needs at least one argument; with none the source has no last space to cut.
- Join.Watch: its buffer has one byte more than cmd_len, for the terminator that cmd_len does not count.
- Devices.GetPathFromUuid: the 1025-byte path buffer and the descriptors left open are not modelled; names are taken to fit.
- Execmac.Options: getopt is given as a list of parsed options; the missing-argument case is one of them.
- Masks.LoopAddsBits: words are sets of bit positions, so values outside a word's width do not arise.
- The texts of error messages, usage and version output, and failures of malloc, calloc and strdup.
- mount's choice of operation from its arguments, print_kernel_mounts, and whether flags reach the kernel when -t is given.
- ps, showmem, cpuinfo, lsclocks, lspci, ipcs, ipcrm, dmesg, dumper, ifconfig, umount, renice, newgrp, pivot_root, powerd, su and login.
