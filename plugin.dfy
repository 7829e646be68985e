/** The decision logic behind the plugin's exported entry points: the header
    records handed to the host while it lists an archive, the dispatch of
    ProcessFile, where a progress callback is registered, and the two
    capability answers. */
module Plugin {
  import opened Wcx
  import opened Hrx
  import opened Util
  import opened Pack
  import opened State

  /** A C `char` as a byte, and a Windows `WCHAR` as a UTF-16 code unit. */
  newtype byte = x: int | 0 <= x < 0x100
  newtype wchar = x: int | 0 <= x < 0x1_0000

  // ---------------------------------------------------------------- encodings

  /** The UTF-8 bytes of one character. */
  function CharUtf8(c: char): (b: seq<byte>)
    ensures |b| == CharUtf8Length(c)
    ensures 0 in b <==> c == '\0'
  {
    var n := c as int;
    if n < 0x80 then [n as byte]
    else if n < 0x800 then [(0xC0 + n / 0x40) as byte, (0x80 + n % 0x40) as byte]
    else if n < 0x1_0000 then [(0xE0 + n / 0x1000) as byte, (0x80 + n / 0x40 % 0x40) as byte, (0x80 + n % 0x40) as byte]
    else [(0xF0 + n / 0x4_0000) as byte, (0x80 + n / 0x1000 % 0x40) as byte, (0x80 + n / 0x40 % 0x40) as byte,
          (0x80 + n % 0x40) as byte]
  }

  /** The UTF-8 bytes of a string (`str::as_bytes`): as many as `str::len`
      counts, and a zero byte only for a NUL character. */
  function Utf8Encode(s: string): (b: seq<byte>)
    ensures |b| == Utf8Length(s)
    ensures 0 in b <==> '\0' in s
  {
    if s == [] then [] else CharUtf8(s[0]) + Utf8Encode(s[1..])
  }

  /** The UTF-16 code units of one character: itself below 0x10000, a
      surrogate pair above. */
  function CharUtf16(c: char): (w: seq<wchar>)
    ensures 1 <= |w| <= 2
    ensures |w| == 1 <==> c as int < 0x1_0000
    ensures 0 in w <==> c == '\0'
  {
    var n := c as int;
    if n < 0x1_0000 then [n as wchar]
    else [(0xD800 + (n - 0x1_0000) / 0x400) as wchar, (0xDC00 + (n - 0x1_0000) % 0x400) as wchar]
  }

  /** The UTF-16 code units of a string (`OsStr::encode_wide`): at least one
      and at most two per character, and a zero unit only for a NUL
      character. */
  function Utf16Encode(s: string): (w: seq<wchar>)
    ensures |s| <= |w| <= 2 * |s|
    ensures 0 in w <==> '\0' in s
  {
    if s == [] then [] else CharUtf16(s[0]) + Utf16Encode(s[1..])
  }

  // ------------------------------------------------------------------ headers

  /** `FileAttr` of a directory and of a file. */
  const ATTR_DIRECTORY: int := 0x10
  const ATTR_FILE: int := 0x00

  /** Capacity of the name buffers of `tHeaderData` and of
      `tHeaderDataEx`/`tHeaderDataExW`, and of the latter's reserved area. */
  const NARROW_NAME_LENGTH: nat := 260
  const EX_NAME_LENGTH: nat := 1024
  const RESERVED_LENGTH: nat := 1024

  /** What `ReadHeaderImpl` hands the record-filling closure: body length in
      bytes, packed modification time, entry path and attribute. */
  datatype Header = Header(length: nat, time: int, name: HrxPath, attr: int)

  /** The header of a listed entry: directories get the directory attribute
      and length 0, files length of their body (0 when bodiless). */
  function HeaderOf(item: Item, time: int): (h: Header)
    ensures h.name == item.0 && h.time == time
    ensures h.attr == ATTR_DIRECTORY <==> item.1.data.Directory?
    ensures h.attr == ATTR_FILE <==> item.1.data.File?
    ensures h.length == Utf8Length(BodyText(item.1.data))
    ensures item.1.data.Directory? ==> h.length == 0
  {
    match item.1.data
    case File(_) => Header(BodyLength(item.1.data), time, item.0, ATTR_FILE)
    case Directory => Header(0, time, item.0, ATTR_DIRECTORY)
  }

  /** Seconds since the epoch as `duration_since(UNIX_EPOCH)` gives them: a
      time before the epoch counts as 0. */
  function EpochSeconds(t: SystemTime): (s: nat)
    ensures t >= 0 ==> s == t
    ensures t < 0 ==> s == 0
  {
    if t < 0 then 0 else t
  }

  /** `ReadHeaderImpl`: advances the session's cursor; for an entry, returns
      0 and the header to write, stamped with the archive's modification time
      (through `localtime`); past the last entry returns `E_END_ARCHIVE` and no
      header. */
  method ReadHeaderImpl(state: ArchiveState, localtime: nat -> Tm) returns (code: int, header: Option<Header>)
    requires state.Valid()
    requires forall s: nat :: FromLocaltime(localtime(s))
    modifies state
    ensures state.Valid()
    ensures code == 0 <==> header.Some?
    ensures header.None? ==> code == E_END_ARCHIVE
    ensures header.Some? <==> Consumed(old(state.cursor)) < |state.arch.keys|
    ensures header.Some? ==>
      && state.current.Some?
      && header.value == HeaderOf(state.current.value, SystemTimeToTotalcmdTime(localtime(EpochSeconds(state.modTime))))
      && state.current.value == state.arch.Listing()[Consumed(old(state.cursor))]
    ensures state.Yielded() == old(state.Yielded()) + (if header.Some? then [state.current.value] else [])
    ensures state.narrowCallback == old(state.narrowCallback) && state.wideCallback == old(state.wideCallback)
  {
    var time := SystemTimeToTotalcmdTime(localtime(EpochSeconds(state.modTime)));
    var next := state.NextEntry();
    match next
    case Some(item) =>
      code, header := 0, Some(HeaderOf(item, time));
    case None =>
      code, header := E_END_ARCHIVE, None;
  }

  // ------------------------------------------------------------- name copies

  /** The narrow name buffer of `capacity` bytes as the host should get it:
      the name up to its first NUL, cut to `capacity - 1` bytes, and zeros
      after, the last byte always zero. */
  function NarrowName(name: seq<byte>, capacity: nat): (buf: seq<byte>)
    requires capacity >= 1
    ensures |buf| == capacity && buf[capacity - 1] == 0
    ensures 0 !in name ==> forall i | 0 <= i < capacity :: buf[i] == if i < |name| && i < capacity - 1 then name[i] else 0
  {
    seq(capacity, i requires 0 <= i < capacity => if i < capacity - 1 && i < |name| && 0 !in name[..i] then name[i] else 0)
  }

  /** `strncpy(dst, src, n)` as C defines it, given the `n` bytes of memory at
      `src`: bytes are copied up to and including the first NUL, and the rest
      of the `n` is zero. */
  function Strncpy(src: seq<byte>, n: nat): (dst: seq<byte>)
    requires n <= |src|
    ensures |dst| == n
    ensures forall i | 0 <= i < n :: dst[i] == if 0 in src[..i] then 0 else src[i]
  {
    seq(n, i requires 0 <= i < n => if 0 in src[..i] then 0 else src[i])
  }

  /** The narrow name copy as written: `strncpy` is given the name's bytes,
      which are not NUL-terminated, so for a short name it reads on into the
      memory that follows them (`after`); then the last byte is zeroed. */
  function NarrowNameAsWritten(name: seq<byte>, after: seq<byte>, capacity: nat): (buf: seq<byte>)
    requires capacity >= 1 && |name| + |after| >= capacity - 1
    ensures |buf| == capacity && buf[capacity - 1] == 0
  {
    Strncpy(name + after, capacity - 1) + [0]
  }

  /** The copy as written gives the intended buffer when the name fills it or
      happens to be followed by a zero byte. */
  lemma NarrowNameAsWrittenAgrees(name: seq<byte>, after: seq<byte>, capacity: nat)
    requires capacity >= 1 && |name| + |after| >= capacity - 1
    requires |name| >= capacity - 1 || (|after| > 0 && after[0] == 0)
    ensures NarrowNameAsWritten(name, after, capacity) == NarrowName(name, capacity)
  {
    var src := name + after;
    var w := NarrowNameAsWritten(name, after, capacity);
    var v := NarrowName(name, capacity);
    forall i | 0 <= i < capacity ensures w[i] == v[i] {
      if i < capacity - 1 {
        assert src[..i] == if i <= |name| then name[..i] else name + after[..i - |name|];
        if i > |name| {
          assert src[|name|] == 0;
          assert 0 in src[..i];
        }
      }
    }
  }

  /** Counterexample: the one-byte name "a" followed in memory by 'b' bytes
      comes out as "abbb…" instead of "a". */
  lemma NarrowNameOverRead()
    ensures var after := seq(NARROW_NAME_LENGTH - 2, _ => 0x62 as byte);
      NarrowNameAsWritten([0x61], after, NARROW_NAME_LENGTH)[1] == 0x62
      && NarrowName([0x61], NARROW_NAME_LENGTH)[1] == 0
  {
    var after := seq(NARROW_NAME_LENGTH - 2, _ => 0x62 as byte);
    var src: seq<byte> := [0x61] + after;
    assert src[..1] == [0x61];
    assert src[1] == 0x62;
  }

  /** Writes `NarrowName(name, buf.Length)` into `buf`, copying byte by byte
      until the name's end or NUL, then zero-filling. */
  method CopyNarrowName(buf: array<byte>, name: seq<byte>)
    requires buf.Length >= 1
    modifies buf
    ensures buf[..] == NarrowName(name, buf.Length)
  {
    ghost var spec := NarrowName(name, buf.Length);
    var copying := true;
    var i := 0;
    while i < buf.Length - 1
      invariant 0 <= i <= buf.Length - 1
      invariant copying <==> i <= |name| && 0 !in name[..i]
      invariant forall j | 0 <= j < i :: buf[j] == spec[j]
    {
      if copying && i < |name| && name[i] != 0 {
        buf[i] := name[i];
        assert name[..i + 1] == name[..i] + [name[i]];
      } else {
        buf[i] := 0;
        copying := false;
        if i < |name| {
          assert name[..i + 1] == name[..i] + [name[i]];
        }
      }
      i := i + 1;
    }
    buf[buf.Length - 1] := 0;
  }

  /** The wide name buffer of `capacity` units as the host should get it: the
      first `capacity - 1` units of the name, then zeros to the end. */
  function WideName(enc: seq<wchar>, capacity: nat): (buf: seq<wchar>)
    requires capacity >= 1
    ensures |buf| == capacity && buf[capacity - 1] == 0
    ensures forall i | 0 <= i < capacity :: buf[i] == if i < |enc| && i < capacity - 1 then enc[i] else 0
  {
    seq(capacity, i requires 0 <= i < capacity => if i < |enc| && i < capacity - 1 then enc[i] else 0)
  }

  /** The wide name copy as written, over the buffer and the one unit of
      memory after it (`mem`, `capacity + 1` units): the first
      `min(capacity - 1, |enc|)` units are copied, recording the index of the
      last one (0 when none), and `capacity - written + 1` zeros are written
      from just after it, which ends at index `capacity`. */
  function WideNameAsWritten(mem: seq<wchar>, enc: seq<wchar>, capacity: nat): (out: seq<wchar>)
    requires capacity >= 1 && |mem| == capacity + 1
    ensures |out| == capacity + 1
  {
    var n := if |enc| < capacity - 1 then |enc| else capacity - 1;
    var written := if n == 0 then 0 else n - 1;
    seq(capacity + 1, i requires 0 <= i <= capacity => if i < n then enc[i] else if i > written then 0 else mem[i])
  }

  /** The unit after the buffer is always overwritten with zero. */
  lemma WideNameAsWrittenOverruns(mem: seq<wchar>, enc: seq<wchar>, capacity: nat)
    requires capacity >= 1 && |mem| == capacity + 1
    ensures WideNameAsWritten(mem, enc, capacity)[capacity] == 0
  {
  }

  /** For an empty name the first unit is never written: whatever the buffer
      held there stays, so the name is not terminated unless that was 0. */
  lemma WideNameAsWrittenEmpty(mem: seq<wchar>, capacity: nat)
    requires capacity >= 1 && |mem| == capacity + 1
    ensures WideNameAsWritten(mem, [], capacity)[0] == mem[0]
  {
  }

  /** Apart from those two defects the copy as written is the intended one:
      for a non-empty name and a buffer of two or more units the buffer itself
      ends up as `WideName`. */
  lemma WideNameAsWrittenAgrees(mem: seq<wchar>, enc: seq<wchar>, capacity: nat)
    requires capacity >= 2 && |mem| == capacity + 1 && |enc| > 0
    ensures WideNameAsWritten(mem, enc, capacity)[..capacity] == WideName(enc, capacity)
  {
    var out := WideNameAsWritten(mem, enc, capacity);
    var spec := WideName(enc, capacity);
    forall i | 0 <= i < capacity ensures out[..capacity][i] == spec[i] {
      assert out[..capacity][i] == out[i];
    }
  }

  /** Writes `WideName(enc, buf.Length)` into `buf`: copies units while both
      the buffer (less its last unit) and the name last, then zero-fills the
      rest, within the buffer. */
  method CopyWideName(buf: array<wchar>, enc: seq<wchar>)
    requires buf.Length >= 1
    modifies buf
    ensures buf[..] == WideName(enc, buf.Length)
  {
    var i := 0;
    while i < buf.Length - 1 && i < |enc|
      invariant 0 <= i <= buf.Length - 1 && i <= |enc|
      invariant forall j | 0 <= j < i :: buf[j] == enc[j]
    {
      buf[i] := enc[i];
      i := i + 1;
    }
    forall j | i <= j < buf.Length {
      buf[j] := 0;
    }
  }

  // ------------------------------------------------------------ size fields

  /** `PackSize`/`UnpSize` of `tHeaderData`: the length when it fits a C int,
      `INT_MAX` otherwise. */
  function NarrowSize(len: nat): (size: int)
    ensures 0 <= size <= INT_MAX
    ensures size == len <==> len <= INT_MAX
    ensures len > INT_MAX ==> size == INT_MAX
  {
    ClampToCInt(len)
  }

  /** `PackSize` and `PackSizeHigh` of `tHeaderDataEx`: bits 0-23 of the
      length, and bits 32-55 (the length is a 64-bit `usize`). */
  datatype SplitSize = SplitSize(low: nat, high: nat)

  const TWO_24: nat := 0x100_0000
  const TWO_32: nat := 0x1_0000_0000

  function SplitLength(len: nat): (s: SplitSize)
    ensures s.low < TWO_24 && s.high < TWO_24
  {
    SplitSize(len % TWO_24, len / TWO_32 % TWO_24)
  }

  /** The two words give the length back exactly when it has no bits set
      outside 0-23 and 32-55. */
  lemma SplitLengthExact(len: nat)
    ensures var s := SplitLength(len);
      s.high * TWO_32 + s.low == len <==> len % TWO_32 < TWO_24 && len / TWO_32 < TWO_24
  {
    var s := SplitLength(len);
    var lo := len % TWO_32;
    var hi := len / TWO_32;
    assert len == hi * TWO_32 + lo;
    ModOfMultiple(hi, lo, TWO_24, 0x100);
    if lo < TWO_24 && hi < TWO_24 {
      assert s.low == lo && s.high == hi;
    } else if s.high * TWO_32 + s.low == len {
      DigitSplit(s.high, s.low, TWO_32);
      DigitSplit(hi, lo, TWO_32);
    }
  }

  /** Reducing `hi * (k * m) + lo` modulo `k` leaves `lo` modulo `k`. */
  lemma ModOfMultiple(hi: nat, lo: nat, k: nat, m: nat)
    requires k > 0 && m > 0
    ensures (hi * (k * m) + lo) % k == lo % k
  {
    var q := lo / k;
    var r := lo % k;
    assert lo == q * k + r;
    assert hi * (k * m) + lo == (hi * m + q) * k + r;
    DigitSplit(hi * m + q, r, k);
  }

  // --------------------------------------------------------- header records

  /** `tHeaderData`, the fields the plugin writes. */
  class HeaderData {
    var packSize: int
    var unpSize: int
    var fileTime: int
    const fileName: array<byte>
    var hostOS: int
    var fileCRC: int
    var fileAttr: int

    constructor ()
      ensures fileName.Length == NARROW_NAME_LENGTH && fresh(fileName)
    {
      fileName := new byte[NARROW_NAME_LENGTH](_ => 0);
    }

    /** The `ReadHeader` closure: sizes clamped to a C int, the time, the
        name's bytes cut to the buffer and terminated, host OS and CRC 0, the
        attribute. */
    method Fill(h: Header)
      requires fileName.Length == NARROW_NAME_LENGTH
      modifies this, fileName
      ensures packSize == NarrowSize(h.length) && unpSize == packSize
      ensures fileTime == h.time && fileAttr == h.attr && hostOS == 0 && fileCRC == 0
      ensures fileName[..] == NarrowName(Utf8Encode(h.name), NARROW_NAME_LENGTH)
    {
      packSize := NarrowSize(h.length);
      unpSize := packSize;
      fileTime := h.time;
      CopyNarrowName(fileName, Utf8Encode(h.name));
      hostOS := 0;
      fileCRC := 0;
      fileAttr := h.attr;
    }
  }

  /** `tHeaderDataEx`, the fields the plugin writes. */
  class HeaderDataEx {
    var packSize: nat
    var packSizeHigh: nat
    var unpSize: nat
    var unpSizeHigh: nat
    var fileTime: int
    const fileName: array<byte>
    var hostOS: int
    var fileCRC: int
    var fileAttr: int
    const reserved: array<byte>

    constructor ()
      ensures fileName.Length == EX_NAME_LENGTH && reserved.Length == RESERVED_LENGTH
      ensures fresh(fileName) && fresh(reserved)
    {
      fileName := new byte[EX_NAME_LENGTH](_ => 0);
      reserved := new byte[RESERVED_LENGTH](_ => 0);
    }

    /** The `ReadHeaderEx` closure: the length split into its low and high
        words, the time, the name as for `ReadHeader`, host OS and CRC 0, the
        attribute, and the reserved area zeroed. */
    method Fill(h: Header)
      requires fileName.Length == EX_NAME_LENGTH && reserved.Length == RESERVED_LENGTH && fileName != reserved
      modifies this, fileName, reserved
      ensures packSize == SplitLength(h.length).low && packSizeHigh == SplitLength(h.length).high
      ensures unpSize == packSize && unpSizeHigh == packSizeHigh
      ensures fileTime == h.time && fileAttr == h.attr && hostOS == 0 && fileCRC == 0
      ensures fileName[..] == NarrowName(Utf8Encode(h.name), EX_NAME_LENGTH)
      ensures forall i | 0 <= i < reserved.Length :: reserved[i] == 0
    {
      var split := SplitLength(h.length);
      packSize, packSizeHigh := split.low, split.high;
      unpSize, unpSizeHigh := packSize, packSizeHigh;
      fileTime := h.time;
      CopyNarrowName(fileName, Utf8Encode(h.name));
      hostOS := 0;
      fileCRC := 0;
      fileAttr := h.attr;
      forall i | 0 <= i < reserved.Length {
        reserved[i] := 0;
      }
    }
  }

  /** `tHeaderDataExW`, the fields the plugin writes. */
  class HeaderDataExW {
    var packSize: nat
    var packSizeHigh: nat
    var unpSize: nat
    var unpSizeHigh: nat
    var fileTime: int
    const fileName: array<wchar>
    var hostOS: int
    var fileCRC: int
    var fileAttr: int
    const reserved: array<byte>

    constructor ()
      ensures fileName.Length == EX_NAME_LENGTH && reserved.Length == RESERVED_LENGTH
      ensures fresh(fileName) && fresh(reserved)
    {
      fileName := new wchar[EX_NAME_LENGTH](_ => 0);
      reserved := new byte[RESERVED_LENGTH](_ => 0);
    }

    /** The `ReadHeaderExW` closure: as `ReadHeaderEx`, with the name's UTF-16
        units cut to the buffer and zero-filled to its end. */
    method Fill(h: Header)
      requires fileName.Length == EX_NAME_LENGTH && reserved.Length == RESERVED_LENGTH
      modifies this, fileName, reserved
      ensures packSize == SplitLength(h.length).low && packSizeHigh == SplitLength(h.length).high
      ensures unpSize == packSize && unpSizeHigh == packSizeHigh
      ensures fileTime == h.time && fileAttr == h.attr && hostOS == 0 && fileCRC == 0
      ensures fileName[..] == WideName(Utf16Encode(h.name), EX_NAME_LENGTH)
      ensures forall i | 0 <= i < reserved.Length :: reserved[i] == 0
    {
      var split := SplitLength(h.length);
      packSize, packSizeHigh := split.low, split.high;
      unpSize, unpSizeHigh := packSize, packSizeHigh;
      fileTime := h.time;
      CopyWideName(fileName, Utf16Encode(h.name));
      hostOS := 0;
      fileCRC := 0;
      fileAttr := h.attr;
      forall i | 0 <= i < reserved.Length {
        reserved[i] := 0;
      }
    }
  }

  // ---------------------------------------------------------------- dispatch

  /** What ProcessFile returns, and the file it wrote if any. */
  datatype Processed = Processed(code: int, written: Option<Extracted>)

  /** `ProcessFileImpl_impl`: skipping and testing succeed without touching
      anything, extraction returns the extraction's outcome, any other
      operation is not supported. */
  function ProcessFile(state: ArchiveState, operation: int, destPath: Option<string>, destName: Option<string>,
                       fs: Destinations): (r: Processed)
    reads state
    ensures operation == PK_SKIP || operation == PK_TEST ==> r == Processed(0, None)
    ensures operation == PK_EXTRACT ==>
      var x := state.ExtractCurrentEntry(destPath, destName, fs);
      && (r.code == 0 <==> x.Ok?)
      && (x.Err? ==> r == Processed(x.code, None))
      && (x.Ok? ==> r.written == Some(x.value))
    ensures operation !in {PK_SKIP, PK_TEST, PK_EXTRACT} ==> r == Processed(E_NOT_SUPPORTED, None)
    ensures r.written.Some? <==> operation == PK_EXTRACT && r.code == 0
  {
    if operation == PK_SKIP || operation == PK_TEST then Processed(0, None)
    else if operation == PK_EXTRACT then
      match state.ExtractCurrentEntry(destPath, destName, fs)
      case Ok(x) => Processed(0, Some(x))
      case Err(e) => assert IsErrorCode(e); Processed(e, None)
    else Processed(E_NOT_SUPPORTED, None)
  }

  // ------------------------------------------------------ callback registration

  /** The process-wide callback slots (`GLOBAL_PROCESS_DATA_CALLBACK` and
      `GLOBAL_PROCESS_DATA_CALLBACK_W`). */
  class Globals {
    var slots: Slots

    constructor ()
      ensures slots == NoSlots
    {
      slots := NoSlots;
    }
  }

  /** Largest `usize`, the width of a handle. */
  const USIZE_MAX: nat := 0xFFFF_FFFF_FFFF_FFFF

  /** `usize::overflowing_add`: the wrapped sum and whether it wrapped. */
  function OverflowingAdd(a: nat, b: nat): (r: (nat, bool))
    requires a <= USIZE_MAX && b <= USIZE_MAX
    ensures r.0 <= USIZE_MAX
    ensures r.1 <==> a + b > USIZE_MAX
    ensures r.0 + (if r.1 then USIZE_MAX + 1 else 0) == a + b
  {
    if a + b > USIZE_MAX then (a + b - (USIZE_MAX + 1), true) else (a + b, false)
  }

  /** A handle that selects the process-wide slot: null, or one whose
      successor overflows. */
  predicate IsGlobalHandle(handle: nat)
    requires handle <= USIZE_MAX
  {
    handle == 0 || OverflowingAdd(handle, 1).1
  }

  /** The global handles are exactly 0 and all-ones. */
  lemma GlobalHandles(handle: nat)
    requires handle <= USIZE_MAX
    ensures IsGlobalHandle(handle) <==> handle == 0 || handle == USIZE_MAX
  {
  }

  /** `SetProcessDataProc` (`wide` false) and `SetProcessDataProcW` (`wide`
      true): a global handle stores the callback in the process-wide slot of
      that kind, any other handle in the slot of that kind of the session it
      points to; every other slot keeps its callback. */
  method SetProcessDataProc(globals: Globals, handle: nat, session: ArchiveState?, callback: Callback, wide: bool)
    requires handle <= USIZE_MAX
    requires !IsGlobalHandle(handle) ==> session != null
    modifies globals, session
    ensures IsGlobalHandle(handle) ==>
      && globals.slots == (if wide then old(globals.slots).(wide := Some(callback))
                           else old(globals.slots).(narrow := Some(callback)))
      && (session != null ==> unchanged(session))
    ensures !IsGlobalHandle(handle) ==>
      && unchanged(globals)
      && session.narrowCallback == (if wide then old(session.narrowCallback) else Some(callback))
      && session.wideCallback == (if wide then Some(callback) else old(session.wideCallback))
      && session.cursor == old(session.cursor) && session.current == old(session.current)
  {
    if IsGlobalHandle(handle) {
      if wide {
        globals.slots := globals.slots.(wide := Some(callback));
      } else {
        globals.slots := globals.slots.(narrow := Some(callback));
      }
    } else if wide {
      session.wideCallback := Some(callback);
    } else {
      session.narrowCallback := Some(callback);
    }
  }

  // --------------------------------------------------------------- constants

  /** `GetBackgroundFlags`: unpacking and packing may run in the background,
      in-memory packing is not offered. */
  function GetBackgroundFlags(): (r: bv32)
    ensures r & BACKGROUND_UNPACK != 0 && r & BACKGROUND_PACK != 0 && r & BACKGROUND_MEMPACK == 0
    ensures r as int == 3
  {
    BACKGROUND_UNPACK | BACKGROUND_PACK
  }

  /** `GetPackerCaps`: the answer is 0, so no capability bit is set; in
      particular creating, modifying, deleting and multi-file archives are
      not announced. */
  function GetPackerCaps(): (r: bv32)
    ensures r == 0
    ensures r & (PK_CAPS_NEW | PK_CAPS_MODIFY | PK_CAPS_MULTIPLE | PK_CAPS_DELETE | PK_CAPS_OPTIONS) == 0
    ensures r & (PK_CAPS_MEMPACK | PK_CAPS_BY_CONTENT | PK_CAPS_SEARCHTEXT | PK_CAPS_HIDE | PK_CAPS_ENCRYPT) == 0
  {
    0
  }
}
