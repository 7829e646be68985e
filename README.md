# totalcmd-hrx, modelled in Dafny

totalcmd-hrx is a Total Commander packer plugin (WCX) for HRX ("human-readable
archive") text archives. The host lists an archive by opening a session and
calling ReadHeader/ReadHeaderEx/ReadHeaderExW until they report the end of the
archive, answering each header with ProcessFile (skip, test or extract). It
adds files with PackFiles and deletes entries with DeleteFiles, and registers
progress callbacks with SetProcessDataProc(W). This project models the decision
logic behind those entry points and proves what each promises:

- `wcx.dfy` (module `Wcx`): the interface constants (error codes, operations,
  flag bits), the `Result` of an operation and the progress-callback slots.
- `hrx.dfy` (module `Hrx`): the in-memory archive, an insertion-ordered map from
  path to entry kept as a key sequence plus a map, with its boundary length.
  It also holds the linked-hash-map operations the plugin uses (install and
  remove) and the grammar library, reduced to the verdicts the plugin consults.
- `util.dfy` (module `Util`): the scanner over the host's double-NUL-terminated
  name lists, as a class whose position moves forward, and the packed
  DOS-style date/time word.
- `pack.dfy` (module `Pack`): PackFiles and DeleteFiles. This covers flag
  decoding, deriving an archive key from an add-list name, the element loops
  with their early exits, the progress report, the boundary-length repair and
  writing back.
- `state.dfy` (module `State`): the open-archive session, with its lazily
  created forward-only cursor, the current entry and extraction.
- `plugin.dfy` (module `Plugin`): the header records, with their size fields and
  name buffers as arrays filled in place. It also holds the ProcessFile
  dispatch, the choice of callback slot, and the constant answers.

## Model

| member | source | states |
|---|---|---|
| Hrx.Utf8Length | src/pack.rs:59 | the byte length `str::len` reports lies between one and four bytes per character |
| Hrx.BodyText | src/state.rs:67-70 | the text of an entry is the body of a file, and empty for a bodiless file or a directory |
| Hrx.BodyLength | src/pack.rs:137-140 | the reported length is 0 for a directory, and 0 exactly when the entry's text is empty |
| Hrx.Archive.Listing | src/state.rs:55 | iteration yields one (path, entry) pair per key, in insertion order |
| Hrx.NewArchive | src/pack.rs:47 | a new archive has no entries and the given boundary length |
| Hrx.Install | src/pack.rs:81-89 | an existing key keeps its position and comment and gets the new data; a new key is appended with no comment; every other entry is unchanged and well-formedness is kept |
| Hrx.InstallListing | src/pack.rs:81-89 | in the listing, installing rewrites the one pair of an existing key in place, or appends one pair for a new key |
| Hrx.Remove | src/pack.rs:135 | removal returns the removed entry exactly when the key is present; the remaining keys keep their order and well-formedness is kept |
| Hrx.RemoveListing | src/pack.rs:135 | removing a present key drops exactly its pair from the listing |
| Util.RunLength | src/util.rs:39-42 | the scan stops at the first zero after the position |
| Util.RunLengthIsFirstZero | src/util.rs:39-42 | the counted length is the distance to the first zero, as the loop counts it |
| Util.Strings | src/util.rs:10-14 | the strings of a list are non-empty and contain no zero |
| Util.CListIter.constructor | src/util.rs:29 | an iterator starts at the given position (null or inside the list) |
| Util.CListIter.Next | src/util.rs:34-52 | a null position yields nothing; otherwise the iterator yields the next string of the list and moves past its zero (by length + 1); at the empty string it nulls the position and stays finished |
| Util.DocumentedExample | src/util.rs:22-27 | `OwO\0hewwo\0\0` holds exactly "OwO" and "hewwo" |
| Util.LeadingEmptyStringEndsList | src/util.rs:44-51 | a list starting with a zero yields nothing |
| Util.ClampedYear | src/util.rs:80 | the year is clamped to 1980..2100 and kept when inside it |
| Util.PackedTimeWord | src/util.rs:81-87 | the shifted fields fit in 32 bits |
| Util.AsCInt | src/util.rs:87 | the 32-bit word read as a C int is negative exactly when bit 31 is set, and keeps the same bits |
| Util.SystemTimeToTotalcmdTime | src/util.rs:77-88 | the result is a C int |
| Util.PackedTimeRoundTrip | src/util.rs:56-59 | unpacking the word gives back the clamped year, the month (tm_mon + 1), the day, hour and minute, and the seconds rounded down to even |
| Util.UnpackWord | src/util.rs:87 | in-range fields do not overlap in the word and decode back |
| Util.PackedTimeNegativeFrom2044 | src/util.rs:80-87 | the C int is negative exactly for clamped years from 2044 on |
| Pack.ParseFlags | src/pack.rs:37-43 | the encrypt bit is refused with E_NOT_SUPPORTED; otherwise bit 1 means delete originals and bit 2 means save paths |
| Pack.ReadFileString | src/pack.rs:158-165 | open, read and UTF-8 failures give E_EOPEN, E_EREAD and E_UNKNOWN_FORMAT; otherwise the text |
| Pack.LoadArchive | src/pack.rs:167-169 | file errors pass through, a parse failure gives E_BAD_ARCHIVE, and a parsed archive is well formed |
| Pack.PackLoadArchive | src/pack.rs:45-51 | a missing archive file gives an empty archive with boundary length 3; otherwise the archive is loaded |
| Pack.NormalizeSeparators | src/pack.rs:62-66 | every backslash becomes '/' and nothing else changes |
| Pack.NormalizeSeparatorsIdempotent | src/pack.rs:129-133 | normalizing twice is normalizing once |
| Pack.LastSlash | src/pack.rs:68 | finds the last '/', or none when there is none |
| Pack.LastSegment | src/pack.rs:67-71 | the text after the last '/', or the whole string; it contains no '/' |
| Pack.KeyLeaf | src/pack.rs:62-74 | the name with separators normalized; with the save-paths flag, only its last segment |
| Pack.SubPathPrefix | src/pack.rs:76-78 | the sub-path and a '/' go in front, or nothing |
| Pack.ArchiveKey | src/pack.rs:76-79 | the key is the prefix plus the leaf when the library accepts it as a path, else E_UNKNOWN_FORMAT |
| Pack.LastSegmentOfJoin | src/pack.rs:67-71 | the last segment of `p/q` is `q` when `q` has no '/' |
| Pack.NormalizeJoin | src/pack.rs:62-66 | normalizing `p\q` gives `p/q` |
| Pack.ArchiveKeyCollapse | src/pack.rs:62-79 | with save paths set, `p\q` is keyed `q` (the directory is lost); without it, it is keyed `dir/p/q` below the sub-path |
| Pack.ClampToCInt | src/pack.rs:181 | a size becomes itself when it fits a C int, INT_MAX otherwise |
| Pack.DataProcessed | src/pack.rs:180-190 | the wide global callback takes precedence over the narrow one; abort exactly when it returns 0; with none registered, never abort |
| Pack.AddElementToArchive | src/pack.rs:53-96 | read errors come first, then E_UNKNOWN_FORMAT for a key the library refuses; a source removed earlier in the same call cannot be opened (E_EOPEN); otherwise the file is installed under its key, the source is removed when moving (E_EOPEN exactly when it cannot be), and its byte length is reported |
| Pack.PackElement | src/pack.rs:29 | the loop's per-element step with the call's fixed arguments bound, given the sources removed so far; it keeps archives well formed |
| Pack.AddStep | src/pack.rs:28-32 | once stopped, nothing happens; an element error stops the loop with that error; a stop request stops it with E_EABORTED |
| Pack.AddAllValid | src/pack.rs:28-32 | the loop keeps the archive well formed |
| Pack.AddAllStopped | src/pack.rs:28-32 | after the loop stops, later elements are not processed |
| Pack.AddAllNeverAborts | src/pack.rs:28-32 | steps that never ask to stop never end the loop with E_EABORTED |
| Pack.AddAllRemoved | src/pack.rs:91-93 | only listed sources are removed, and none by steps that never remove |
| Pack.InstallIsInstalled | src/pack.rs:81-89 | installing a file keeps the boundary and old order, adds only its key, stores its text, keeps an existing entry's comment and gives a new one none |
| Pack.AddAllExtends | src/pack.rs:81-89 | a successful loop of installing steps keeps the boundary, and the old keys keep their order at the front |
| Pack.AddAllRemovesEach | src/pack.rs:91-93 | while a loop of always-removing steps goes on, it has removed exactly the elements so far, in order |
| Pack.AddAllMovedTwice | src/pack.rs:53-96 | with steps that always remove and cannot open removed sources, an element named a second time, once reached, ends the loop with E_EOPEN |
| Pack.AddAllMovedDistinct | src/pack.rs:53-96 | such a loop succeeds only on a list without repeats |
| Pack.AddAllReads | src/pack.rs:28-32 | after a successful loop every element was read and its key is present |
| Pack.AddAllInstalls | src/pack.rs:81-89 | after a successful loop, every element whose key no later element reuses holds its own text |
| Pack.AddAllKeys | src/pack.rs:81-89 | after a successful loop the archive holds the old paths and the elements' keys and nothing else; old entries keep their comments and new ones have none |
| Pack.AddAllUntouched | src/pack.rs:81-89 | a path that no element maps to keeps its entry |
| Pack.PackElementFacts | src/pack.rs:53-96 | the pack step never stops without callbacks, removes its source exactly when moving, cannot open a source it removed before, and installs each element under its archive key |
| Pack.PackWithoutCallbacksNeverAborts | src/pack.rs:28-32 | with no process-wide callback the pack loop never ends with E_EABORTED |
| Pack.PackRemovesOnlyListedWhenMoving | src/pack.rs:91-93 | sources are removed only when moving, and only listed ones |
| Pack.PackMovesEachOnce | src/pack.rs:53-96 | when moving, the pack loop succeeds only on a list without repeats, and has then removed every listed source in order |
| Pack.PackMovedTwiceFails | src/pack.rs:53-96 | when moving, a name listed a second time fails with E_EOPEN once reached, because its source is gone |
| Pack.PackMovedDuplicateExample | src/pack.rs:53-96 | moving the list `a`, `a` never succeeds, and fails with E_EOPEN when the first `a` went through |
| Pack.PackLoopInstalls | src/pack.rs:28-32 | when the pack loop succeeds: every element was read and stored under its key, with its own text unless a later element has the same key; old keys keep their order; the boundary is untouched |
| Pack.PackLoopKeys | src/pack.rs:28-32 | when the pack loop succeeds, its paths are exactly the old ones and the elements' keys; old entries keep their comments, new ones have none |
| Pack.PackLoopUntouched | src/pack.rs:28-32 | when the pack loop succeeds, a path no element maps to keeps its whole entry |
| Pack.RepairBoundary | src/pack.rs:98-105 | the boundary is unchanged if the content validates; otherwise it becomes the least larger length the library accepts; nothing else changes |
| Pack.WriteArchive | src/pack.rs:171-178 | create and write failures give E_ECREATE and E_EWRITE; otherwise the archive is stored |
| Pack.AddElements | src/pack.rs:28-32 | the loop with early returns computes exactly the element fold |
| Pack.PackArchive | src/pack.rs:14-35 | flags come first (E_NOT_SUPPORTED before loading), then loading errors, then the element loop; the archive is written only when every element succeeded, with its boundary repaired; a successful move lists no name twice and removes every listed source |
| Pack.DeleteElementFromArchive | src/pack.rs:128-146 | the normalized name is removed by exact key; a missing key gives E_NO_FILES; the body length is reported |
| Pack.DeleteAll | src/pack.rs:119-123 | a successful delete loop leaves a well-formed archive |
| Pack.NormalizedKeys | src/pack.rs:129-133 | each delete-list name maps to its normalized key |
| Pack.WithoutAll | src/pack.rs:135 | the key order without any of the deleted keys |
| Pack.DeleteLoopRemoves | src/pack.rs:119-123 | when the delete loop succeeds, every name was a key and none was named twice; exactly the named entries are gone; the rest keep order and content, and the boundary is kept |
| Pack.DeleteWithoutCallbacksNeverAborts | src/pack.rs:119-123 | with no process-wide callback the delete loop never ends with E_EABORTED |
| Pack.ModifyArchive | src/pack.rs:111-126 | loading errors pass through; the archive is written, without boundary repair, only when every deletion succeeded |
| State.ArchiveState.constructor | src/state.rs:43-50 | a new session has no cursor, no current entry and no callbacks |
| State.ArchiveState.NextEntry | src/state.rs:53-60 | the first call creates the cursor; calls yield the entries in insertion order, each once, then nothing for ever; the yielded value becomes the current entry; the callbacks are kept |
| State.ArchiveState.ExtractCurrentEntry | src/state.rs:66-80 | errors come in the order E_END_ARCHIVE (no current entry), then E_NOT_SUPPORTED (no name), then E_ECREATE, then E_EWRITE; the destination is the name joined to the directory when there is one; the body (or nothing) is written |
| State.Open | src/state.rs:31-51 | errors come in the order open, read, UTF-8, parse; the modification time falls back to now; the new session is fresh |
| Plugin.CharUtf8 | src/lib.rs:108 | a character takes as many UTF-8 bytes as counted, and a zero byte only for NUL |
| Plugin.Utf8Encode | src/lib.rs:108 | the bytes of a name number its byte length, with a zero only for a NUL character |
| Plugin.CharUtf16 | src/lib.rs:185 | a character is one code unit below 0x10000 and a surrogate pair above |
| Plugin.Utf16Encode | src/lib.rs:185 | one or two units per character, with a zero only for a NUL character |
| Plugin.HeaderOf | src/lib.rs:207-212 | directories get attribute 0x10 and length 0; files get 0x00 and their body's byte length |
| Plugin.EpochSeconds | src/util.rs:78 | a time before the epoch counts as 0 seconds |
| Plugin.ReadHeaderImpl | src/lib.rs:202-218 | with an entry left, returns 0 and its header stamped with the session's time; past the end, returns E_END_ARCHIVE and no header; the session's callback slots are kept |
| Plugin.NarrowName | src/lib.rs:107-110 | the intended narrow buffer: at most capacity - 1 bytes of the name, zeros after, the last byte 0 |
| Plugin.Strncpy | src/lib.rs:107-109 | C `strncpy`: copy up to the first NUL, zero the rest of `n` |
| Plugin.NarrowNameAsWritten | src/lib.rs:107-110 | the copy as written has the buffer's size and a zero last byte |
| Plugin.NarrowNameAsWrittenAgrees | src/lib.rs:107-110 | the copy as written is the intended one when the name fills the buffer or a zero byte follows it |
| Plugin.NarrowNameOverRead | src/lib.rs:107-109 | a short name followed by other bytes comes out with those bytes appended |
| Plugin.CopyNarrowName | src/lib.rs:107-110 | the byte loop writes exactly the intended narrow buffer |
| Plugin.WideName | src/lib.rs:183-191 | the intended wide buffer: at most capacity - 1 units of the name, zeros to the end |
| Plugin.WideNameAsWritten | src/lib.rs:183-191 | the fill as written touches the buffer and the unit after it |
| Plugin.WideNameAsWrittenOverruns | src/lib.rs:189-191 | the unit after the buffer is always overwritten |
| Plugin.WideNameAsWrittenEmpty | src/lib.rs:184-189 | for an empty name the first unit is never written |
| Plugin.WideNameAsWrittenAgrees | src/lib.rs:183-191 | apart from those two defects the fill as written gives the intended buffer |
| Plugin.CopyWideName | src/lib.rs:183-191 | the copy loop and zero fill write exactly the intended wide buffer, within it |
| Plugin.NarrowSize | src/lib.rs:103-104 | the size is the length when it fits a C int, INT_MAX otherwise |
| Plugin.SplitLength | src/lib.rs:148-149 | both words are below 2^24 |
| Plugin.SplitLengthExact | src/lib.rs:148-152 | the two words give the length back exactly when it has no bits outside 0-23 and 32-55 |
| Plugin.HeaderData.constructor | src/wcxhead.rs:127 | the name buffer holds 260 bytes |
| Plugin.HeaderData.Fill | src/lib.rs:102-115 | packed and unpacked sizes are clamped to a C int; the time and attribute are stored; the name is cut and terminated by the corrected copy (CopyNarrowName, see Findings); host OS and CRC are 0 |
| Plugin.HeaderDataEx.constructor | src/wcxhead.rs:146 | the name buffer and the reserved area hold 1024 bytes each |
| Plugin.HeaderDataEx.Fill | src/lib.rs:147-166 | the sizes are split into low and high words, the name is written by the corrected copy as for ReadHeader (CopyNarrowName, see Findings), and the reserved area is zeroed |
| Plugin.HeaderDataExW.constructor | src/wcxhead.rs:168 | the name buffer holds 1024 code units |
| Plugin.HeaderDataExW.Fill | src/lib.rs:174-199 | as ReadHeaderEx, with the UTF-16 name cut and zero-filled within the buffer by the corrected copy (CopyWideName, see Findings) |
| Plugin.ProcessFile | src/lib.rs:278-290 | skip and test return 0 and write nothing; extract returns the extraction's outcome; anything else gives E_NOT_SUPPORTED |
| Plugin.Globals.constructor | src/state.rs:11-12 | both process-wide slots start empty |
| Plugin.OverflowingAdd | src/lib.rs:346 | `usize::overflowing_add`: the wrapped sum, and whether it wrapped |
| Plugin.GlobalHandles | src/lib.rs:346 | the handles that select the process-wide slot are exactly null and all-ones |
| Plugin.SetProcessDataProc | src/lib.rs:345-364 | a global handle stores into the process-wide slot of the matching kind; any other handle stores into that session's slot; every other slot is unchanged |
| Plugin.GetBackgroundFlags | src/lib.rs:487-489 | background unpacking and packing, not in-memory packing (= 3) |
| Plugin.GetPackerCaps | src/lib.rs:473-475 | the answer is 0: none of the ten capability bits is set |

## Left out

- **Filesystem I/O.** Opening, reading, creating, writing and removing files, and whether a path exists, are not performed. Each is an outcome value passed in (`FileContents`, `StoredArchive`, `OutputFile`, `PackEnv.removable`, `Destinations`). The bytes actually written by serialisation are not modelled.
- **Path joining.** Joining the source directory to an add-list name is folded into `PackEnv.sources`, which is indexed by the add-list name. A source removed earlier in the same PackFiles call is recognised by its name, so two different names for one file (`a` and `./a`) are not related. Joining a destination directory and a name is the parameter `Destinations.join`.
- **Time sources.** `localtime` and `SystemTime::now` are not modelled. `localtime` is a parameter of `ReadHeaderImpl`, assumed to return fields in their C ranges. "Now" is a parameter of `Open`. A `SystemTime` is whole seconds since the epoch; sub-second precision is dropped, as `as_secs` drops it.
- **The hrx crate.** Parsing, serialising, `validate_content`, `set_boundary_length` and `HrxPath` parsing are the verdict functions of `HrxLib`. Two properties of the library are preconditions (`WellBehaved`): parsed archives are well formed, and some longer boundary is always accepted. The second is what makes the boundary search terminate.
- **FFI marshalling.** Not modelled: `CStr`/`OsString` conversion, `wcslen`, lossy conversion of invalid text, and the boxing of session handles in OpenArchive/CloseArchive. The same goes for turning a `Result` into the C return value of OpenArchive, PackFiles, DeleteFiles and ProcessFile (0 or the error code).
- **List parsing before packing and deleting.** The PackFiles/DeleteFiles wrappers turn the double-NUL lists into add and delete lists; the model takes those lists as already parsed sequences of names.
- **Concurrency.** Thread safety of the process-wide callback slots (`static mut`) is not modelled. The slots are a `Globals` object or a `Slots` value passed to packing and deleting. The host's callback replies are the `Host` function of the report's position.
- **Session callback slots.** The callbacks stored in a session are kept but never read, as in the source.
- **Trivial exports.** SetChangeVolProc(W) does nothing and CanYouHandleThisFile(W) always answers false.
- **Header fields the plugin never writes** (ArcName, UnpVer, Method, CmtBuf, CmtBufSize, CmtSize and CmtState) are not modelled. Flags is not written either, except that ReadHeaderExW as written zeroes its first 16-bit unit, the unit just past the wide name buffer (see Findings); the model shows that write as `mem[capacity]` in `Plugin.WideNameAsWrittenOverruns`.
- **Extraction signature.** The ProcessFile dispatch passes bare paths to extraction, while extraction takes optional ones. The model keeps the optional form, so a missing destination name (E_NOT_SUPPORTED) stays reachable.
- **Callback replies.** With no progress callback registered, packing and deleting continue.
- **Packer capabilities.** GetPackerCaps answers 0, announcing no capability.
- Util.PackedTimeWord: the fields are added rather than OR-ed. This is equal because each field fits its bit range once `localtime`'s ranges hold, and the model does not cover out-of-range `struct tm` fields.
- Plugin.OverflowingAdd, Plugin.IsGlobalHandle, Plugin.GlobalHandles: a 64-bit target is assumed (`USIZE_MAX` is 2^64 - 1); on a 32-bit build the all-ones handle is `0xFFFF_FFFF`, which the model does not treat as a global handle.
- Plugin.SplitLength: the length is taken as unbounded, not as a 64-bit `usize`; `checked_shr(32)` never fails for a 64-bit value, so nothing is lost.

## Findings

| source | as written | input that shows it | evidently intended | confidence | as-written member | corrected member |
|---|---|---|---|---|---|---|
| src/lib.rs:107-110, 156-159 | `strncpy` is given the name's bytes, which carry no terminating NUL, with a count of the buffer size less one | a one-byte name "a" whose bytes are followed in memory by 'b' bytes: the header name reads "abbb…" | copy at most capacity - 1 bytes of the name and zero-fill the rest | not executed | Plugin.NarrowNameAsWritten, Plugin.NarrowNameOverRead | Plugin.NarrowName, Plugin.CopyNarrowName, Plugin.HeaderData.Fill, Plugin.HeaderDataEx.Fill |
| src/lib.rs:183-191 | zeros are written from `written_idx + 1` for `last_idx - written_idx + 1` units, ending at index `last_idx + 1`, and `written_idx` stays 0 when nothing is copied | any name writes index 1024 of a 1024-unit buffer, which is the first unit of the following Flags field; an empty name leaves index 0 as it was | zero-fill from the end of the copied name to the end of the buffer, including index 0 for an empty name | not executed | Plugin.WideNameAsWritten, Plugin.WideNameAsWrittenOverruns, Plugin.WideNameAsWrittenEmpty | Plugin.WideName, Plugin.CopyWideName, Plugin.HeaderDataExW.Fill |
