/** Packing files into an archive and deleting entries from it. Each call
    loads the archive, changes it one list element at a time, and writes it
    back only when every element succeeded and no progress report asked to
    stop. */
module Pack {
  import opened Wcx
  import opened Hrx

  /** What reading a whole file gives: the step that failed, or its text. */
  datatype FileContents = CannotOpen | CannotRead | NotUtf8 | Text(text: string)

  /** The archive file as packing finds it: absent, or present with the
      outcome of reading it. */
  datatype StoredArchive = Missing | Present(contents: FileContents)

  /** What creating and writing the destination file does. */
  datatype OutputFile = CannotCreate | CannotWrite | Writable

  /** The replies of the host's progress callbacks during one operation:
      `host(k, cb, size)` is what callback `cb` returns on the `k`-th report
      (counting from 0) when told `size` bytes were processed. */
  type Host = (nat, Callback, int) -> int

  /** The decoded PackFiles flags. */
  datatype PackFlags = PackFlags(deleteOriginals: bool, savePaths: bool)

  /** The outside world one PackFiles call sees: the source files (by their
      add-list name, which the source directory is joined with), whether
      removing each succeeds, the process-wide callback slots, the host's
      replies, and the grammar library. */
  datatype PackEnv = PackEnv(
    sources: string -> FileContents,
    removable: string -> bool,
    globals: Slots,
    host: Host,
    lib: HrxLib)

  /** `pack_archive_parse_flags`: encryption is refused before anything else;
      otherwise bit 1 asks to move the files and bit 2 selects the path
      policy. */
  function ParseFlags(flags: bv32): (r: Result<PackFlags>)
    ensures r.Err? <==> flags & PK_PACK_ENCRYPT != 0
    ensures r.Err? ==> r.code == E_NOT_SUPPORTED
    ensures r.Ok? ==> r.value.deleteOriginals == (flags & PK_PACK_MOVE_FILES != 0)
    ensures r.Ok? ==> r.value.savePaths == (flags & PK_PACK_SAVE_PATHS != 0)
  {
    if flags & PK_PACK_ENCRYPT != 0 then Err(E_NOT_SUPPORTED)
    else Ok(PackFlags(flags & PK_PACK_MOVE_FILES != 0, flags & PK_PACK_SAVE_PATHS != 0))
  }

  /** `read_file_string`: open, read and UTF-8 failures are three distinct
      errors. */
  function ReadFileString(f: FileContents): (r: Result<string>)
    ensures r.Ok? <==> f.Text?
    ensures r.Ok? ==> r.value == f.text
    ensures f.CannotOpen? ==> r == Err(E_EOPEN)
    ensures f.CannotRead? ==> r == Err(E_EREAD)
    ensures f.NotUtf8? ==> r == Err(E_UNKNOWN_FORMAT)
  {
    match f
    case CannotOpen => Err(E_EOPEN)
    case CannotRead => Err(E_EREAD)
    case NotUtf8 => Err(E_UNKNOWN_FORMAT)
    case Text(s) => Ok(s)
  }

  /** `load_archive`: the file errors of `ReadFileString`, then a parse
      failure as a bad archive. */
  function LoadArchive(f: FileContents, lib: HrxLib): (r: Result<Archive>)
    ensures ReadFileString(f).Err? ==> r == Err(ReadFileString(f).code)
    ensures f.Text? && lib.parse(f.text).None? ==> r == Err(E_BAD_ARCHIVE)
    ensures f.Text? && lib.parse(f.text).Some? ==> r == Ok(lib.parse(f.text).value)
    ensures WellBehaved(lib) && r.Ok? ==> r.value.Valid()
  {
    match ReadFileString(f)
    case Err(e) => Err(e)
    case Ok(s) =>
      match lib.parse(s)
      case None => Err(E_BAD_ARCHIVE)
      case Some(a) => Ok(a)
  }

  /** Boundary length of an archive that packing creates. */
  const NEW_ARCHIVE_BOUNDARY: nat := 3

  /** `pack_archive_load_archive`: a missing archive starts out empty,
      anything else is loaded. */
  function PackLoadArchive(stored: StoredArchive, lib: HrxLib): (r: Result<Archive>)
    ensures stored.Missing? ==> r == Ok(NewArchive(NEW_ARCHIVE_BOUNDARY))
    ensures stored.Present? ==> r == LoadArchive(stored.contents, lib)
    ensures WellBehaved(lib) && r.Ok? ==> r.value.Valid()
  {
    if stored.Missing? then Ok(NewArchive(NEW_ARCHIVE_BOUNDARY)) else LoadArchive(stored.contents, lib)
  }

  /** Host separators become archive separators. */
  function NormalizeSeparators(s: string): (r: string)
    ensures |r| == |s| && '\\' !in r
    ensures forall i | 0 <= i < |s| :: s[i] != '\\' ==> r[i] == s[i]
    ensures forall i | 0 <= i < |s| :: s[i] == '\\' ==> r[i] == '/'
  {
    seq(|s|, i requires 0 <= i < |s| => if s[i] == '\\' then '/' else s[i])
  }

  lemma NormalizeSeparatorsIdempotent(s: string)
    ensures NormalizeSeparators(NormalizeSeparators(s)) == NormalizeSeparators(s)
  {
  }

  /** `str::rfind('/')`. */
  function LastSlash(s: string): (r: Option<nat>)
    ensures r.None? <==> '/' !in s
    ensures r.Some? ==> r.value < |s| && s[r.value] == '/' && '/' !in s[r.value + 1..]
  {
    if s == [] then None
    else if s[|s| - 1] == '/' then Some(|s| - 1)
    else
      var r := LastSlash(s[..|s| - 1]);
      assert r.Some? ==> s[r.value + 1..] == s[..|s| - 1][r.value + 1..] + [s[|s| - 1]];
      r
  }

  /** What follows the last '/', or the whole string when there is none: the
      longest suffix without a '/'. */
  function LastSegment(s: string): (r: string)
    ensures '/' !in r && |r| <= |s| && s == s[..|s| - |r|] + r
    ensures |r| < |s| ==> s[|s| - |r| - 1] == '/'
  {
    match LastSlash(s)
    case Some(i) => s[i + 1..]
    case None => s
  }

  /** The part of the key taken from the add-list name: separators
      normalized, then, when the SavePaths flag is set, only the last segment
      (the flag's effect is the reverse of its name, and the model keeps it). */
  function KeyLeaf(elem: string, savePaths: bool): (leaf: string)
    ensures '\\' !in leaf
    ensures !savePaths ==> leaf == NormalizeSeparators(elem)
    ensures savePaths ==> leaf == LastSegment(NormalizeSeparators(elem)) && '/' !in leaf
  {
    var n := NormalizeSeparators(elem);
    if savePaths then LastSegment(n) else n
  }

  /** The sub-path, when given, and a separator go in front of the key. */
  function SubPathPrefix(subPath: Option<string>): (p: string)
    ensures subPath.None? ==> p == ""
    ensures subPath.Some? ==> p == subPath.value + "/"
  {
    match subPath
    case Some(sp) => sp + "/"
    case None => ""
  }

  /** The archive key of an add-list name, or `E_UNKNOWN_FORMAT` when the
      library does not accept the result as a path. */
  function ArchiveKey(elem: string, savePaths: bool, subPath: Option<string>, lib: HrxLib): (r: Result<HrxPath>)
    ensures r.Ok? <==> lib.isPath(SubPathPrefix(subPath) + KeyLeaf(elem, savePaths))
    ensures r.Ok? ==> r.value == SubPathPrefix(subPath) + KeyLeaf(elem, savePaths)
    ensures r.Err? ==> r.code == E_UNKNOWN_FORMAT
  {
    var key := SubPathPrefix(subPath) + KeyLeaf(elem, savePaths);
    if lib.isPath(key) then Ok(key) else Err(E_UNKNOWN_FORMAT)
  }

  /** The last segment of `p/q`, when `q` has no separator, is `q`. */
  lemma LastSegmentOfJoin(p: string, q: string)
    requires '/' !in q
    ensures LastSegment(p + "/" + q) == q
  {
    var s := p + "/" + q;
    assert s[|p|] == '/';
    assert s[|p| + 1..] == q;
  }

  /** Normalizing `p\q` gives `p/q`. */
  lemma NormalizeJoin(p: string, q: string)
    requires '\\' !in p && '\\' !in q
    ensures NormalizeSeparators(p + "\\" + q) == p + "/" + q
  {
    var s, t := p + "\\" + q, p + "/" + q;
    var n := NormalizeSeparators(s);
    forall i | 0 <= i < |n| ensures n[i] == t[i] {
      if i < |p| {
        assert s[i] == p[i] && t[i] == p[i];
      } else if i > |p| {
        assert s[i] == q[i - |p| - 1] && t[i] == q[i - |p| - 1];
      }
    }
  }

  /** How the two path policies key a name `p\q` whose file name `q` has no
      separator: with SavePaths set only `q` is kept and the directory part is
      lost; without it the whole name is kept below the sub-path. */
  lemma ArchiveKeyCollapse(dir: string, p: string, q: string, lib: HrxLib)
    requires '\\' !in p && '\\' !in q && '/' !in q
    ensures lib.isPath(q) ==> ArchiveKey(p + "\\" + q, true, None, lib) == Ok(q)
    ensures lib.isPath(dir + "/" + p + "/" + q) ==>
      ArchiveKey(p + "\\" + q, false, Some(dir), lib) == Ok(dir + "/" + p + "/" + q)
  {
    NormalizeJoin(p, q);
    LastSegmentOfJoin(p, q);
    assert SubPathPrefix(None) + q == q;
    JoinAssociates(dir, p, q);
  }

  /** A step of `ArchiveKeyCollapse`, kept apart so that the sequence
      reasoning does not meet the key derivation's unfolding. */
  lemma JoinAssociates(dir: string, p: string, q: string)
    ensures SubPathPrefix(Some(dir)) + (p + "/" + q) == dir + "/" + p + "/" + q
  {
  }

  /** A size as the C int the progress callback takes: clamped to `INT_MAX`. */
  function ClampToCInt(len: nat): (n: int)
    ensures 0 <= n <= INT_MAX
    ensures len <= INT_MAX ==> n == len
    ensures len > INT_MAX ==> n == INT_MAX
  {
    if len <= INT_MAX then len else INT_MAX
  }

  /** `data_processed`: reports `len` bytes to the process-wide callback, the
      wide one if registered, else the narrow one, and asks to stop exactly
      when that callback returns 0. With none registered it never stops. */
  function DataProcessed(len: nat, globals: Slots, host: Host, report: nat): (abort: bool)
    ensures globals.wide.Some? ==> (abort <==> host(report, globals.wide.value, ClampToCInt(len)) == 0)
    ensures globals.wide.None? && globals.narrow.Some? ==>
      (abort <==> host(report, globals.narrow.value, ClampToCInt(len)) == 0)
    ensures globals.wide.None? && globals.narrow.None? ==> !abort
  {
    match globals.wide
    case Some(cb) => host(report, cb, ClampToCInt(len)) == 0
    case None =>
      match globals.narrow
      case Some(cb) => host(report, cb, ClampToCInt(len)) == 0
      case None => false
  }

  /** The outcome of one add-list element: the changed archive, whether the
      source file was removed, and whether the progress report asked to stop. */
  datatype Added = Added(archive: Archive, sourceRemoved: bool, abort: bool)

  /** The source of `elem` as a PackFiles call finds it after it has removed
      the sources named in `gone`: a removed file can no longer be opened. */
  function SourceNow(env: PackEnv, gone: seq<string>, elem: string): (f: FileContents)
    ensures elem in gone ==> f == CannotOpen
    ensures elem !in gone ==> f == env.sources(elem)
  {
    if elem in gone then CannotOpen else env.sources(elem)
  }

  /** `pack_archive_add_element_to_archive` for the element at position `k`,
      after the sources in `gone` were removed: read the source, derive the
      key, install a file entry holding the source's text, remove the source
      when asked, report its size. */
  function AddElementToArchive(a: Archive, subPath: Option<string>, elem: string, flags: PackFlags, env: PackEnv,
                               gone: seq<string>, k: nat)
    : (r: Result<Added>)
    ensures a.Valid() && r.Ok? ==> r.value.archive.Valid()
    ensures elem in gone ==> r == Err(E_EOPEN)
    ensures var src := SourceNow(env, gone, elem);
      ReadFileString(src).Err? ==> r == Err(ReadFileString(src).code)
    ensures var src := SourceNow(env, gone, elem);
      ReadFileString(src).Ok? && ArchiveKey(elem, flags.savePaths, subPath, env.lib).Err? ==> r == Err(E_UNKNOWN_FORMAT)
    ensures var src := SourceNow(env, gone, elem);
      src.Text? && ArchiveKey(elem, flags.savePaths, subPath, env.lib).Ok? ==>
        && (r.Err? <==> flags.deleteOriginals && !env.removable(elem))
        && (r.Err? ==> r.code == E_EOPEN)
    ensures r.Ok? ==>
      var text := env.sources(elem).text;
      var key := ArchiveKey(elem, flags.savePaths, subPath, env.lib);
      && elem !in gone && env.sources(elem).Text? && key.Ok?
      && r.value.archive == Install(a, key.value, File(Some(text)))
      && r.value.sourceRemoved == flags.deleteOriginals
      && r.value.abort == DataProcessed(Utf8Length(text), env.globals, env.host, k)
    ensures r.Err? ==> r.code in {E_EOPEN, E_EREAD, E_UNKNOWN_FORMAT}
  {
    match ReadFileString(SourceNow(env, gone, elem))
    case Err(e) => Err(e)
    case Ok(text) =>
      match ArchiveKey(elem, flags.savePaths, subPath, env.lib)
      case Err(e) => Err(e)
      case Ok(key) =>
        var installed := Install(a, key, File(Some(text)));
        if flags.deleteOriginals && !env.removable(elem) then Err(E_EOPEN)
        else Ok(Added(installed, flags.deleteOriginals, DataProcessed(Utf8Length(text), env.globals, env.host, k)))
  }

  /** The per-element operation of the pack loop, taken as a value: the
      archive so far, the sources removed so far, the element, its position. */
  type AddOp = (Archive, seq<string>, string, nat) -> Result<Added>

  /** `pack_archive_add_element_to_archive` with the call's fixed arguments
      bound. */
  function PackElement(subPath: Option<string>, flags: PackFlags, env: PackEnv): (op: AddOp)
    ensures forall x: Archive, gone: seq<string>, e: string, k: nat ::
      op(x, gone, e, k) == AddElementToArchive(x, subPath, e, flags, env, gone, k)
    ensures KeepsValid(op)
  {
    (x: Archive, gone: seq<string>, e: string, k: nat) => AddElementToArchive(x, subPath, e, flags, env, gone, k)
  }

  /** Adding an element to a well-formed archive gives a well-formed one. */
  ghost predicate KeepsValid(op: AddOp) {
    forall x: Archive, rs: seq<string>, e: string, k: nat | x.Valid() && op(x, rs, e, k).Ok? ::
      op(x, rs, e, k).value.archive.Valid()
  }

  /** The result of the element loop: the archive to write (or the error that
      ended the loop) and the source files removed on the way. */
  datatype LoopOutcome = LoopOutcome(result: Result<Archive>, removed: seq<string>)

  /** One pass of the element loop of `pack_archive`, for the element at
      position `k`: nothing happens once the loop has stopped; otherwise an
      element error stops it with that error and a report asking to stop
      stops it with `E_EABORTED`. */
  function AddStep(o: LoopOutcome, op: AddOp, elem: string, k: nat): (o': LoopOutcome)
    ensures o.result.Err? ==> o' == o
    ensures o.result.Ok? && op(o.result.value, o.removed, elem, k).Err? ==>
      o' == LoopOutcome(Err(op(o.result.value, o.removed, elem, k).code), o.removed)
    ensures o.result.Ok? && op(o.result.value, o.removed, elem, k).Ok? ==>
      var added := op(o.result.value, o.removed, elem, k);
      && o'.removed == o.removed + (if added.value.sourceRemoved then [elem] else [])
      && o'.result == if added.value.abort then Err(E_EABORTED) else Ok(added.value.archive)
  {
    if o.result.Err? then o
    else
      match op(o.result.value, o.removed, elem, k)
      case Err(e) => LoopOutcome(Err(e), o.removed)
      case Ok(added) =>
        var removed := o.removed + if added.sourceRemoved then [elem] else [];
        if added.abort then LoopOutcome(Err(E_EABORTED), removed)
        else LoopOutcome(Ok(added.archive), removed)
  }

  /** The element loop of `pack_archive` over the first `n` elements. */
  function AddAll(a: Archive, op: AddOp, elems: seq<string>, n: nat): (o: LoopOutcome)
    requires n <= |elems|
  {
    if n == 0 then LoopOutcome(Ok(a), [])
    else AddStep(AddAll(a, op, elems, n - 1), op, elems[n - 1], n - 1)
  }

  /** A loop of steps that keep archives well formed, started on a
      well-formed archive, ends (when it succeeds) with a well-formed one. */
  lemma {:induction false} AddAllValid(a: Archive, op: AddOp, elems: seq<string>, n: nat)
    requires n <= |elems| && KeepsValid(op) && a.Valid()
    ensures AddAll(a, op, elems, n).result.Ok? ==> AddAll(a, op, elems, n).result.value.Valid()
  {
    if n > 0 {
      AddAllValid(a, op, elems, n - 1);
    }
  }

  /** Once the loop has stopped, later elements change nothing. */
  lemma {:induction false} AddAllStopped(a: Archive, op: AddOp, elems: seq<string>, n: nat, m: nat)
    requires n <= m <= |elems|
    requires AddAll(a, op, elems, n).result.Err?
    ensures AddAll(a, op, elems, m) == AddAll(a, op, elems, n)
    decreases m
  {
    if m > n {
      AddAllStopped(a, op, elems, n, m - 1);
    }
  }

  /** An element operation that neither fails with `E_EABORTED` itself nor
      reports a request to stop. */
  ghost predicate NeverStops(op: AddOp) {
    forall x: Archive, rs: seq<string>, e: string, k: nat ::
      op(x, rs, e, k) != Err(E_EABORTED) && (op(x, rs, e, k).Ok? ==> !op(x, rs, e, k).value.abort)
  }

  /** An element operation that never removes its source. */
  ghost predicate NeverRemoves(op: AddOp) {
    forall x: Archive, rs: seq<string>, e: string, k: nat | op(x, rs, e, k).Ok? :: !op(x, rs, e, k).value.sourceRemoved
  }

  /** An element operation that removes its source whenever it succeeds. */
  ghost predicate AlwaysRemoves(op: AddOp) {
    forall x: Archive, rs: seq<string>, e: string, k: nat | op(x, rs, e, k).Ok? :: op(x, rs, e, k).value.sourceRemoved
  }

  /** An element operation that cannot open a source already removed. */
  ghost predicate RefusesRemoved(op: AddOp) {
    forall x: Archive, rs: seq<string>, e: string, k: nat | e in rs :: op(x, rs, e, k) == Err(E_EOPEN)
  }

  /** `y` is `x` with the file `text` installed under `key`: the boundary
      and the old order are kept, `key` is the one path added if any, it keeps
      its comment (none when new), and every other entry is unchanged. */
  ghost predicate Installed(x: Archive, y: Archive, key: HrxPath, text: string) {
    && y.boundaryLength == x.boundaryLength
    && x.keys <= y.keys
    && y.entries.Keys == x.entries.Keys + {key}
    && y.entries[key].data == File(Some(text))
    && y.entries[key].comment == (if key in x.entries then x.entries[key].comment else None)
    && forall q | q in x.entries && q != key :: y.entries[q] == x.entries[q]
  }

  /** An element operation that, when it succeeds, has read the element's
      `text` and installed it as a file under the element's `key`. */
  ghost predicate InstallsBy(op: AddOp, key: string -> Result<HrxPath>, text: string -> FileContents) {
    forall x: Archive, rs: seq<string>, e: string, k: nat | op(x, rs, e, k).Ok? ::
      && key(e).Ok? && text(e).Text?
      && Installed(x, op(x, rs, e, k).value.archive, key(e).value, text(e).text)
  }

  /** `Install` of a file installs it. */
  lemma InstallIsInstalled(x: Archive, key: HrxPath, text: string)
    ensures Installed(x, Install(x, key, File(Some(text))), key, text)
  {
    if key !in x.entries {
      assert Install(x, key, File(Some(text))).keys == x.keys + [key];
    }
  }

  /** A loop whose steps never ask to stop never ends with `E_EABORTED`. */
  lemma {:induction false} AddAllNeverAborts(a: Archive, op: AddOp, elems: seq<string>, n: nat)
    requires n <= |elems| && NeverStops(op)
    ensures AddAll(a, op, elems, n).result != Err(E_EABORTED)
  {
    if n > 0 {
      AddAllNeverAborts(a, op, elems, n - 1);
    }
  }

  /** The loop reports only elements of the list as removed, and none when
      its steps never remove. */
  lemma {:induction false} AddAllRemoved(a: Archive, op: AddOp, elems: seq<string>, n: nat)
    requires n <= |elems|
    ensures forall x | x in AddAll(a, op, elems, n).removed :: x in elems[..n]
    ensures NeverRemoves(op) ==> AddAll(a, op, elems, n).removed == []
  {
    if n > 0 {
      AddAllRemoved(a, op, elems, n - 1);
      assert elems[..n] == elems[..n - 1] + [elems[n - 1]];
    }
  }

  /** While a loop of always-removing steps goes on, it has removed exactly
      the elements so far, in order. */
  lemma {:induction false} AddAllRemovesEach(a: Archive, op: AddOp, elems: seq<string>, n: nat)
    requires n <= |elems| && AlwaysRemoves(op)
    requires AddAll(a, op, elems, n).result.Ok?
    ensures AddAll(a, op, elems, n).removed == elems[..n]
  {
    if n > 0 {
      var o := AddAll(a, op, elems, n - 1);
      assert o.result.Ok?;
      AddAllRemovesEach(a, op, elems, n - 1);
      assert op(o.result.value, o.removed, elems[n - 1], n - 1).Ok?;
      assert elems[..n] == elems[..n - 1] + [elems[n - 1]];
    }
  }

  /** In a loop of always-removing steps that cannot open removed sources, an
      element named a second time, once reached, fails with `E_EOPEN`, and
      that ends the loop. */
  lemma AddAllMovedTwice(a: Archive, op: AddOp, elems: seq<string>, j: nat)
    requires j < |elems| && AlwaysRemoves(op) && RefusesRemoved(op)
    requires AddAll(a, op, elems, j).result.Ok? && elems[j] in elems[..j]
    ensures AddAll(a, op, elems, |elems|).result == Err(E_EOPEN)
  {
    AddAllRemovesEach(a, op, elems, j);
    var o := AddAll(a, op, elems, j);
    assert op(o.result.value, o.removed, elems[j], j) == Err(E_EOPEN);
    assert AddAll(a, op, elems, j + 1).result == Err(E_EOPEN);
    AddAllStopped(a, op, elems, j + 1, |elems|);
  }

  /** Such a loop succeeds only on a list without repeats. */
  lemma {:induction false} AddAllMovedDistinct(a: Archive, op: AddOp, elems: seq<string>, n: nat)
    requires n <= |elems| && AlwaysRemoves(op) && RefusesRemoved(op)
    requires AddAll(a, op, elems, n).result.Ok?
    ensures Distinct(elems[..n])
  {
    if n > 0 {
      var o := AddAll(a, op, elems, n - 1);
      assert o.result.Ok?;
      AddAllMovedDistinct(a, op, elems, n - 1);
      AddAllRemovesEach(a, op, elems, n - 1);
      assert op(o.result.value, o.removed, elems[n - 1], n - 1).Ok?;
      assert elems[n - 1] !in elems[..n - 1];
      var s, p := elems[..n], elems[..n - 1];
      forall i, i' | 0 <= i < i' < n ensures s[i] != s[i'] {
        assert s[i] == p[i];
        if i' < n - 1 {
          assert s[i'] == p[i'];
        }
      }
    }
  }

  /** A successful pass of an installing step installs the element. */
  lemma StepInstalls(o: LoopOutcome, op: AddOp, elem: string, k: nat,
                     key: string -> Result<HrxPath>, text: string -> FileContents)
    requires InstallsBy(op, key, text) && AddStep(o, op, elem, k).result.Ok?
    ensures o.result.Ok? && key(elem).Ok? && text(elem).Text?
    ensures Installed(o.result.value, AddStep(o, op, elem, k).result.value, key(elem).value, text(elem).text)
  {
    assert op(o.result.value, o.removed, elem, k).Ok?;
  }

  /** Being a prefix is transitive; kept apart from `AddAllExtends` so that
      its proof does not meet the loop's unfolding. */
  lemma PrefixTrans(p: seq<HrxPath>, q: seq<HrxPath>, r: seq<HrxPath>)
    requires p <= q && q <= r
    ensures p <= r
  {
    assert forall i | 0 <= i < |p| :: p[i] == q[i] == r[i];
  }

  /** When a loop of installing steps succeeds, the archive's old paths keep
      their order at the front and the boundary is not touched. */
  lemma {:induction false} AddAllExtends(a: Archive, op: AddOp, elems: seq<string>, n: nat,
                                         key: string -> Result<HrxPath>, text: string -> FileContents)
    requires n <= |elems| && InstallsBy(op, key, text)
    requires AddAll(a, op, elems, n).result.Ok?
    ensures var b := AddAll(a, op, elems, n).result.value;
      b.boundaryLength == a.boundaryLength && a.keys <= b.keys
  {
    if n > 0 {
      StepInstalls(AddAll(a, op, elems, n - 1), op, elems[n - 1], n - 1, key, text);
      AddAllExtends(a, op, elems, n - 1, key, text);
      var prev := AddAll(a, op, elems, n - 1).result.value;
      var b := AddAll(a, op, elems, n).result.value;
      PrefixTrans(a.keys, prev.keys, b.keys);
    }
  }

  /** What a successful installing step keeps and adds, without the rest of
      `Installed`, so that the loop lemmas below stay small. */
  lemma StepReads(o: LoopOutcome, op: AddOp, elem: string, k: nat,
                  key: string -> Result<HrxPath>, text: string -> FileContents)
    requires InstallsBy(op, key, text) && AddStep(o, op, elem, k).result.Ok?
    ensures o.result.Ok? && key(elem).Ok? && text(elem).Text?
    ensures var b := AddStep(o, op, elem, k).result.value;
      && o.result.value.entries.Keys <= b.entries.Keys
      && key(elem).value in b.entries
      && b.entries[key(elem).value].data == File(Some(text(elem).text))
      && forall q | q in o.result.value.entries && q != key(elem).value :: b.entries[q] == o.result.value.entries[q]
  {
    StepInstalls(o, op, elem, k, key, text);
  }

  /** When a loop of installing steps succeeds, every element was read and
      its key is in the archive. */
  lemma {:induction false} AddAllReads(a: Archive, op: AddOp, elems: seq<string>, n: nat,
                                       key: string -> Result<HrxPath>, text: string -> FileContents)
    requires n <= |elems| && InstallsBy(op, key, text)
    requires AddAll(a, op, elems, n).result.Ok?
    ensures var b := AddAll(a, op, elems, n).result.value;
      forall j | 0 <= j < n :: key(elems[j]).Ok? && text(elems[j]).Text? && key(elems[j]).value in b.entries
  {
    if n > 0 {
      StepReads(AddAll(a, op, elems, n - 1), op, elems[n - 1], n - 1, key, text);
      AddAllReads(a, op, elems, n - 1, key, text);
      var prev := AddAll(a, op, elems, n - 1).result.value;
      var b := AddAll(a, op, elems, n).result.value;
      forall j | 0 <= j < n - 1 ensures key(elems[j]).value in b.entries {
        assert key(elems[j]).value in prev.entries;
      }
    }
  }

  /** When a loop of installing steps succeeds, an element whose key no
      later element reuses holds its own text in the archive. */
  lemma {:induction false} AddAllInstalls(a: Archive, op: AddOp, elems: seq<string>, n: nat,
                                          key: string -> Result<HrxPath>, text: string -> FileContents)
    requires n <= |elems| && InstallsBy(op, key, text)
    requires AddAll(a, op, elems, n).result.Ok?
    ensures var b := AddAll(a, op, elems, n).result.value;
      forall j | 0 <= j < n && (forall i | j < i < n :: key(elems[i]) != key(elems[j])) ::
        && key(elems[j]).Ok? && text(elems[j]).Text? && key(elems[j]).value in b.entries
        && b.entries[key(elems[j]).value].data == File(Some(text(elems[j]).text))
  {
    AddAllReads(a, op, elems, n, key, text);
    if n > 0 {
      StepReads(AddAll(a, op, elems, n - 1), op, elems[n - 1], n - 1, key, text);
      AddAllInstalls(a, op, elems, n - 1, key, text);
      var b := AddAll(a, op, elems, n).result.value;
      forall j | 0 <= j < n - 1 && (forall i | j < i < n :: key(elems[i]) != key(elems[j]))
        ensures b.entries[key(elems[j]).value].data == File(Some(text(elems[j]).text))
      {
        assert key(elems[n - 1]) != key(elems[j]);
      }
    }
  }

  /** When a loop of installing steps succeeds, the archive holds its old
      paths and the elements' keys and nothing else; an old path keeps its
      comment and a new one has none. */
  lemma {:induction false} AddAllKeys(a: Archive, op: AddOp, elems: seq<string>, n: nat,
                                      key: string -> Result<HrxPath>, text: string -> FileContents)
    requires n <= |elems| && InstallsBy(op, key, text)
    requires AddAll(a, op, elems, n).result.Ok?
    ensures var b := AddAll(a, op, elems, n).result.value;
      && a.entries.Keys <= b.entries.Keys
      && (forall p | p in b.entries :: p in a.entries || exists j | 0 <= j < n :: key(elems[j]) == Ok(p))
      && (forall p | p in b.entries :: b.entries[p].comment == if p in a.entries then a.entries[p].comment else None)
  {
    if n > 0 {
      StepInstalls(AddAll(a, op, elems, n - 1), op, elems[n - 1], n - 1, key, text);
      AddAllKeys(a, op, elems, n - 1, key, text);
      var prev := AddAll(a, op, elems, n - 1).result.value;
      var b := AddAll(a, op, elems, n).result.value;
      var last := key(elems[n - 1]).value;
      assert b.entries.Keys == prev.entries.Keys + {last};
      forall p | p in b.entries
        ensures p in a.entries || exists j | 0 <= j < n :: key(elems[j]) == Ok(p)
        ensures b.entries[p].comment == if p in a.entries then a.entries[p].comment else None
      {
        if p == last {
          assert key(elems[n - 1]) == Ok(p);
        } else {
          assert p in prev.entries && b.entries[p] == prev.entries[p];
        }
      }
    }
  }

  /** When a loop of installing steps succeeds, a path no element maps to
      keeps its entry. */
  lemma {:induction false} AddAllUntouched(a: Archive, op: AddOp, elems: seq<string>, n: nat,
                                           key: string -> Result<HrxPath>, text: string -> FileContents, p: HrxPath)
    requires n <= |elems| && InstallsBy(op, key, text)
    requires AddAll(a, op, elems, n).result.Ok?
    requires p in a.entries && forall j | 0 <= j < n :: key(elems[j]) != Ok(p)
    ensures p in AddAll(a, op, elems, n).result.value.entries
    ensures AddAll(a, op, elems, n).result.value.entries[p] == a.entries[p]
  {
    if n > 0 {
      StepInstalls(AddAll(a, op, elems, n - 1), op, elems[n - 1], n - 1, key, text);
      AddAllUntouched(a, op, elems, n - 1, key, text, p);
      var prev := AddAll(a, op, elems, n - 1).result.value;
      assert key(elems[n - 1]) != Ok(p);
      assert AddAll(a, op, elems, n).result.value.entries[p] == prev.entries[p];
    }
  }

  /** The element operation of `pack_archive`: with no process-wide callback
      it never asks to stop; it removes its source exactly when moving; it
      cannot open a source it removed before; it installs each element under
      its archive key. */
  lemma PackElementFacts(subPath: Option<string>, flags: PackFlags, env: PackEnv)
    ensures env.globals == NoSlots ==> NeverStops(PackElement(subPath, flags, env))
    ensures !flags.deleteOriginals ==> NeverRemoves(PackElement(subPath, flags, env))
    ensures flags.deleteOriginals ==> AlwaysRemoves(PackElement(subPath, flags, env))
    ensures RefusesRemoved(PackElement(subPath, flags, env))
    ensures InstallsBy(PackElement(subPath, flags, env), PackKey(subPath, flags, env), env.sources)
  {
    var op := PackElement(subPath, flags, env);
    forall x: Archive, rs: seq<string>, e: string, k: nat | op(x, rs, e, k).Ok?
      ensures Installed(x, op(x, rs, e, k).value.archive, ArchiveKey(e, flags.savePaths, subPath, env.lib).value,
                        env.sources(e).text)
    {
      InstallIsInstalled(x, ArchiveKey(e, flags.savePaths, subPath, env.lib).value, env.sources(e).text);
    }
  }

  /** The archive key of each element, as a function of the element. */
  function PackKey(subPath: Option<string>, flags: PackFlags, env: PackEnv): (key: string -> Result<HrxPath>)
    ensures forall e :: key(e) == ArchiveKey(e, flags.savePaths, subPath, env.lib)
  {
    (e: string) => ArchiveKey(e, flags.savePaths, subPath, env.lib)
  }

  /** The element loop of `pack_archive`, with no process-wide callback,
      never ends with `E_EABORTED`. */
  lemma PackWithoutCallbacksNeverAborts(a: Archive, subPath: Option<string>, elems: seq<string>, flags: PackFlags,
                                        env: PackEnv)
    requires env.globals == NoSlots
    ensures AddAll(a, PackElement(subPath, flags, env), elems, |elems|).result != Err(E_EABORTED)
  {
    PackElementFacts(subPath, flags, env);
    AddAllNeverAborts(a, PackElement(subPath, flags, env), elems, |elems|);
  }

  /** The element loop of `pack_archive` removes only listed sources, and
      none unless moving. */
  lemma PackRemovesOnlyListedWhenMoving(a: Archive, subPath: Option<string>, elems: seq<string>, flags: PackFlags,
                                        env: PackEnv)
    ensures var removed := AddAll(a, PackElement(subPath, flags, env), elems, |elems|).removed;
      && (!flags.deleteOriginals ==> removed == [])
      && (forall x | x in removed :: x in elems)
  {
    PackElementFacts(subPath, flags, env);
    AddAllRemoved(a, PackElement(subPath, flags, env), elems, |elems|);
    assert elems[..|elems|] == elems;
  }

  /** When moving, the element loop of `pack_archive` succeeds only on a list
      without repeats, and has then removed every listed source, in order. */
  lemma PackMovesEachOnce(a: Archive, subPath: Option<string>, elems: seq<string>, flags: PackFlags, env: PackEnv)
    requires flags.deleteOriginals
    ensures var o := AddAll(a, PackElement(subPath, flags, env), elems, |elems|);
      o.result.Ok? ==> Distinct(elems) && o.removed == elems
  {
    var o := AddAll(a, PackElement(subPath, flags, env), elems, |elems|);
    PackElementFacts(subPath, flags, env);
    if o.result.Ok? {
      AddAllMovedDistinct(a, PackElement(subPath, flags, env), elems, |elems|);
      AddAllRemovesEach(a, PackElement(subPath, flags, env), elems, |elems|);
      assert elems[..|elems|] == elems;
    }
  }

  /** When moving, an element named a second time fails with `E_EOPEN` once
      the loop reaches it, since its source was removed the first time. */
  lemma PackMovedTwiceFails(a: Archive, subPath: Option<string>, elems: seq<string>, flags: PackFlags, env: PackEnv,
                            j: nat)
    requires flags.deleteOriginals && j < |elems| && elems[j] in elems[..j]
    requires AddAll(a, PackElement(subPath, flags, env), elems, j).result.Ok?
    ensures AddAll(a, PackElement(subPath, flags, env), elems, |elems|).result == Err(E_EOPEN)
  {
    PackElementFacts(subPath, flags, env);
    AddAllMovedTwice(a, PackElement(subPath, flags, env), elems, j);
  }

  /** Moving the list `a`, `a`: never a success, and `E_EOPEN` when the first
      element went through. */
  lemma PackMovedDuplicateExample(a: Archive, env: PackEnv)
    ensures var op := PackElement(None, PackFlags(true, false), env);
      && AddAll(a, op, ["a", "a"], 2).result.Err?
      && (AddAll(a, op, ["a", "a"], 1).result.Ok? ==> AddAll(a, op, ["a", "a"], 2).result == Err(E_EOPEN))
  {
    var op := PackElement(None, PackFlags(true, false), env);
    var elems := ["a", "a"];
    if AddAll(a, op, elems, 1).result.Ok? {
      assert elems[1] in elems[..1];
      PackMovedTwiceFails(a, None, elems, PackFlags(true, false), env, 1);
    } else {
      AddAllStopped(a, op, elems, 1, 2);
    }
  }

  /** When the element loop of `pack_archive` succeeds, every element was
      read and is stored under its archive key, each with its own text unless
      a later element has the same key; old paths keep their place and the
      boundary is not touched. */
  lemma PackLoopInstalls(a: Archive, subPath: Option<string>, elems: seq<string>, flags: PackFlags, env: PackEnv)
    requires AddAll(a, PackElement(subPath, flags, env), elems, |elems|).result.Ok?
    ensures var b := AddAll(a, PackElement(subPath, flags, env), elems, |elems|).result.value;
      && b.boundaryLength == a.boundaryLength
      && a.keys <= b.keys
      && (forall j | 0 <= j < |elems| ::
            && env.sources(elems[j]).Text? && ArchiveKey(elems[j], flags.savePaths, subPath, env.lib).Ok?
            && ArchiveKey(elems[j], flags.savePaths, subPath, env.lib).value in b.entries
            && ((forall i | j < i < |elems| ::
                   ArchiveKey(elems[i], flags.savePaths, subPath, env.lib)
                     != ArchiveKey(elems[j], flags.savePaths, subPath, env.lib)) ==>
                  b.entries[ArchiveKey(elems[j], flags.savePaths, subPath, env.lib).value].data
                    == File(Some(env.sources(elems[j]).text))))
  {
    PackElementFacts(subPath, flags, env);
    AddAllExtends(a, PackElement(subPath, flags, env), elems, |elems|, PackKey(subPath, flags, env), env.sources);
    AddAllReads(a, PackElement(subPath, flags, env), elems, |elems|, PackKey(subPath, flags, env), env.sources);
    AddAllInstalls(a, PackElement(subPath, flags, env), elems, |elems|, PackKey(subPath, flags, env), env.sources);
  }

  /** When the element loop of `pack_archive` succeeds, the archive holds the
      old paths and the elements' keys and nothing else; old entries keep
      their comments and new ones have none. */
  lemma PackLoopKeys(a: Archive, subPath: Option<string>, elems: seq<string>, flags: PackFlags, env: PackEnv)
    requires AddAll(a, PackElement(subPath, flags, env), elems, |elems|).result.Ok?
    ensures var b := AddAll(a, PackElement(subPath, flags, env), elems, |elems|).result.value;
      && (forall p :: p in b.entries <==>
            p in a.entries || exists e | e in elems :: ArchiveKey(e, flags.savePaths, subPath, env.lib) == Ok(p))
      && (forall p | p in b.entries :: b.entries[p].comment == if p in a.entries then a.entries[p].comment else None)
  {
    var op, key := PackElement(subPath, flags, env), PackKey(subPath, flags, env);
    PackElementFacts(subPath, flags, env);
    AddAllKeys(a, op, elems, |elems|, key, env.sources);
    AddAllReads(a, op, elems, |elems|, key, env.sources);
    var b := AddAll(a, op, elems, |elems|).result.value;
    forall p
      ensures p in b.entries <==>
        p in a.entries || exists e | e in elems :: ArchiveKey(e, flags.savePaths, subPath, env.lib) == Ok(p)
    {
      if p in b.entries && p !in a.entries {
        var j :| 0 <= j < |elems| && key(elems[j]) == Ok(p);
        assert elems[j] in elems;
      }
      if p !in b.entries && p !in a.entries {
        forall e | e in elems ensures ArchiveKey(e, flags.savePaths, subPath, env.lib) != Ok(p) {
          var j :| 0 <= j < |elems| && elems[j] == e;
          assert key(elems[j]).value in b.entries;
        }
      }
    }
  }

  /** When the element loop of `pack_archive` succeeds, a path no element
      maps to keeps its whole entry. */
  lemma PackLoopUntouched(a: Archive, subPath: Option<string>, elems: seq<string>, flags: PackFlags, env: PackEnv)
    requires AddAll(a, PackElement(subPath, flags, env), elems, |elems|).result.Ok?
    ensures var b := AddAll(a, PackElement(subPath, flags, env), elems, |elems|).result.value;
      forall p | p in a.entries && (forall e | e in elems :: ArchiveKey(e, flags.savePaths, subPath, env.lib) != Ok(p)) ::
        p in b.entries && b.entries[p] == a.entries[p]
  {
    PackElementFacts(subPath, flags, env);
    forall p | p in a.entries && (forall e | e in elems :: ArchiveKey(e, flags.savePaths, subPath, env.lib) != Ok(p))
      ensures var b := AddAll(a, PackElement(subPath, flags, env), elems, |elems|).result.value;
        p in b.entries && b.entries[p] == a.entries[p]
    {
      forall j | 0 <= j < |elems| ensures PackKey(subPath, flags, env)(elems[j]) != Ok(p) {
        assert elems[j] in elems;
      }
      AddAllUntouched(a, PackElement(subPath, flags, env), elems, |elems|, PackKey(subPath, flags, env), env.sources, p);
    }
  }

  /** The chosen boundary length: unchanged when the content already passes,
      otherwise the least larger length the library accepts. */
  ghost predicate BoundaryRepaired(lib: HrxLib, a: Archive, n: nat) {
    if lib.boundaryOk(a.entries, a.boundaryLength) then n == a.boundaryLength
    else
      && n > a.boundaryLength
      && lib.boundaryOk(a.entries, n)
      && forall m | a.boundaryLength < m < n :: !lib.boundaryOk(a.entries, m)
  }

  /** The boundary search of `pack_archive_write_archive`: try one length
      after another until the library accepts one. */
  method RepairBoundary(a: Archive, lib: HrxLib) returns (b: Archive)
    requires a.Valid() && AcceptsAbove(lib, a.entries, a.boundaryLength)
    ensures b.Valid() && b == a.(boundaryLength := b.boundaryLength)
    ensures BoundaryRepaired(lib, a, b.boundaryLength)
    ensures lib.boundaryOk(b.entries, b.boundaryLength)
  {
    b := a;
    if !lib.boundaryOk(a.entries, a.boundaryLength) {
      ghost var w :| w > a.boundaryLength && lib.boundaryOk(a.entries, w);
      var boundlen := a.boundaryLength + 1;
      while !lib.boundaryOk(a.entries, boundlen)
        invariant a.boundaryLength < boundlen <= w
        invariant forall m | a.boundaryLength < m < boundlen :: !lib.boundaryOk(a.entries, m)
        decreases w - boundlen
      {
        boundlen := boundlen + 1;
      }
      b := a.(boundaryLength := boundlen);
    }
  }

  /** `write_archive`: create the file, then serialise into it. The archive
      returned is the one now stored. */
  function WriteArchive(a: Archive, out: OutputFile): (r: Result<Archive>)
    ensures r.Ok? <==> out.Writable?
    ensures r.Ok? ==> r.value == a
    ensures out.CannotCreate? ==> r == Err(E_ECREATE)
    ensures out.CannotWrite? ==> r == Err(E_EWRITE)
  {
    match out
    case CannotCreate => Err(E_ECREATE)
    case CannotWrite => Err(E_EWRITE)
    case Writable => Ok(a)
  }

  /** The element loop of `pack_archive`: one element after another, leaving
      early on the first error or request to stop. */
  method AddElements(a: Archive, op: AddOp, addList: seq<string>) returns (r: Result<Archive>, removed: seq<string>)
    ensures LoopOutcome(r, removed) == AddAll(a, op, addList, |addList|)
  {
    removed := [];
    var archive := a;
    var i := 0;
    while i < |addList|
      invariant 0 <= i <= |addList|
      invariant AddAll(a, op, addList, i) == LoopOutcome(Ok(archive), removed)
    {
      var step := op(archive, removed, addList[i], i);
      if step.Err? {
        AddAllStopped(a, op, addList, i + 1, |addList|);
        return Err(step.code), removed;
      }
      if step.value.sourceRemoved {
        removed := removed + [addList[i]];
      }
      if step.value.abort {
        AddAllStopped(a, op, addList, i + 1, |addList|);
        return Err(E_EABORTED), removed;
      }
      archive := step.value.archive;
      i := i + 1;
    }
    r := Ok(archive);
  }

  /** `pack_archive`. Returns the archive written (or the error) and the
      source files removed, which stay removed even when a later element
      fails. */
  method PackArchive(stored: StoredArchive, subPath: Option<string>, addList: seq<string>, flags: bv32,
                     env: PackEnv, out: OutputFile)
    returns (r: Result<Archive>, removed: seq<string>)
    requires WellBehaved(env.lib)
    ensures ParseFlags(flags).Err? ==> r == Err(E_NOT_SUPPORTED) && removed == []
    ensures ParseFlags(flags).Ok? && PackLoadArchive(stored, env.lib).Err? ==>
      r == PackLoadArchive(stored, env.lib) && removed == []
    ensures ParseFlags(flags).Ok? && PackLoadArchive(stored, env.lib).Ok? ==>
      var o := AddAll(PackLoadArchive(stored, env.lib).value, PackElement(subPath, ParseFlags(flags).value, env), addList,
                      |addList|);
      && removed == o.removed
      && (o.result.Err? ==> r == o.result)
      && (o.result.Ok? && !out.Writable? ==> r == WriteArchive(o.result.value, out))
      && (o.result.Ok? && out.Writable? ==>
            r.Ok? && r.value == o.result.value.(boundaryLength := r.value.boundaryLength)
            && BoundaryRepaired(env.lib, o.result.value, r.value.boundaryLength))
    ensures ParseFlags(flags).Ok? && ParseFlags(flags).value.deleteOriginals && r.Ok? ==>
      Distinct(addList) && removed == addList
  {
    removed := [];
    var parsed := ParseFlags(flags);
    if parsed.Err? {
      return Err(parsed.code), [];
    }
    var packFlags := parsed.value;
    var loaded := PackLoadArchive(stored, env.lib);
    if loaded.Err? {
      return Err(loaded.code), [];
    }
    var archive, removedHere := AddElements(loaded.value, PackElement(subPath, packFlags, env), addList);
    AddAllValid(loaded.value, PackElement(subPath, packFlags, env), addList, |addList|);
    removed := removedHere;
    if packFlags.deleteOriginals {
      PackMovesEachOnce(loaded.value, subPath, addList, packFlags, env);
    }
    if archive.Err? {
      return archive, removed;
    }
    var repaired := RepairBoundary(archive.value, env.lib);
    r := WriteArchive(repaired, out);
  }

  /** The outcome of one delete-list element: the changed archive and whether
      the progress report asked to stop. */
  datatype Deleted = Deleted(archive: Archive, abort: bool)

  /** `modify_archive_delete_element_from_archive` for the element at position
      `k`: remove the entry whose key is the name with separators normalized,
      reporting the entry's body length; a missing key is `E_NO_FILES`. */
  function DeleteElementFromArchive(a: Archive, elem: string, globals: Slots, host: Host, k: nat): (r: Result<Deleted>)
    requires a.Valid()
    ensures r.Err? <==> NormalizeSeparators(elem) !in a.entries
    ensures r.Err? ==> r.code == E_NO_FILES
    ensures r.Ok? ==>
      var key := NormalizeSeparators(elem);
      && r.value.archive == Remove(a, key).0
      && r.value.abort == DataProcessed(BodyLength(a.entries[key].data), globals, host, k)
  {
    var key := NormalizeSeparators(elem);
    match Remove(a, key)
    case (_, None) => Err(E_NO_FILES)
    case (rest, Some(entry)) => Ok(Deleted(rest, DataProcessed(BodyLength(entry.data), globals, host, k)))
  }

  /** The element loop of `modify_archive` from position `k` on. */
  function DeleteAll(a: Archive, elems: seq<string>, globals: Slots, host: Host, k: nat): (r: Result<Archive>)
    requires a.Valid() && k <= |elems|
    ensures r.Ok? ==> r.value.Valid()
    decreases |elems| - k
  {
    if k == |elems| then Ok(a)
    else
      match DeleteElementFromArchive(a, elems[k], globals, host, k)
      case Err(e) => Err(e)
      case Ok(deleted) =>
        if deleted.abort then Err(E_EABORTED)
        else DeleteAll(deleted.archive, elems, globals, host, k + 1)
  }

  /** The names of a delete list as archive keys. */
  function NormalizedKeys(elems: seq<string>): (keys: seq<HrxPath>)
    ensures |keys| == |elems|
    ensures forall i | 0 <= i < |elems| :: keys[i] == NormalizeSeparators(elems[i])
  {
    if elems == [] then [] else [NormalizeSeparators(elems[0])] + NormalizedKeys(elems[1..])
  }

  /** The order with each of `dels` dropped in turn. */
  function WithoutAll(keys: seq<HrxPath>, dels: seq<HrxPath>): (r: seq<HrxPath>)
    ensures forall k :: k in r <==> k in keys && k !in dels
    decreases |dels|
  {
    if dels == [] then keys else WithoutAll(Without(keys, dels[0]), dels[1..])
  }

  /** Putting a fresh key in front of distinct keys keeps them distinct. */
  lemma ConsDistinct(key: HrxPath, dels: seq<HrxPath>)
    requires key !in dels && Distinct(dels)
    ensures Distinct([key] + dels)
  {
    var s := [key] + dels;
    forall i, j | 0 <= i < j < |s| ensures s[i] != s[j] {
      assert s[j] == dels[j - 1];
      if i > 0 {
        assert s[i] == dels[i - 1];
      }
    }
  }

  /** Taking away one key and then a list of keys takes away the list with
      that key in front. */
  lemma MinusCons(m: map<HrxPath, HrxEntry>, key: HrxPath, dels: seq<HrxPath>)
    ensures (m - {key}) - (set d | d in dels) == m - (set d | d in [key] + dels)
  {
    assert (set d | d in [key] + dels) == {key} + (set d | d in dels);
  }

  /** When the delete loop succeeds, every name was a key of the archive, no
      key was named twice, and exactly the named entries are gone, the others
      keeping their order and content. */
  lemma {:induction false} DeleteLoopRemoves(a: Archive, elems: seq<string>, globals: Slots, host: Host, k: nat)
    requires a.Valid() && k <= |elems|
    requires DeleteAll(a, elems, globals, host, k).Ok?
    decreases |elems| - k
    ensures var b := DeleteAll(a, elems, globals, host, k).value;
      var dels := NormalizedKeys(elems[k..]);
      && (forall d | d in dels :: d in a.entries)
      && Distinct(dels)
      && b.keys == WithoutAll(a.keys, dels)
      && b.entries == a.entries - (set d | d in dels)
      && b.boundaryLength == a.boundaryLength
  {
    var dels := NormalizedKeys(elems[k..]);
    if k == |elems| {
      assert dels == [];
      assert a.entries - (set d | d in dels) == a.entries;
    } else {
      var key := NormalizeSeparators(elems[k]);
      var step := DeleteElementFromArchive(a, elems[k], globals, host, k);
      assert step.Ok? && !step.value.abort;
      var rest := step.value.archive;
      assert DeleteAll(a, elems, globals, host, k) == DeleteAll(rest, elems, globals, host, k + 1);
      DeleteLoopRemoves(rest, elems, globals, host, k + 1);
      var dels' := NormalizedKeys(elems[k + 1..]);
      assert elems[k..][1..] == elems[k + 1..];
      assert dels == [key] + dels';
      assert dels[0] == key && dels[1..] == dels';
      ConsDistinct(key, dels');
      MinusCons(a.entries, key, dels');
    }
  }

  /** With no process-wide callback registered the delete loop never ends
      with `E_EABORTED`. */
  lemma {:induction false} DeleteWithoutCallbacksNeverAborts(a: Archive, elems: seq<string>, host: Host, k: nat)
    requires a.Valid() && k <= |elems|
    decreases |elems| - k
    ensures DeleteAll(a, elems, NoSlots, host, k) != Err(E_EABORTED)
  {
    if k < |elems| {
      var step := DeleteElementFromArchive(a, elems[k], NoSlots, host, k);
      if step.Ok? {
        DeleteWithoutCallbacksNeverAborts(step.value.archive, elems, host, k + 1);
      }
    }
  }

  /** `modify_archive`: load (a missing archive cannot be opened), delete
      every element, write back without touching the boundary. */
  method ModifyArchive(stored: FileContents, deleteList: seq<string>, globals: Slots, host: Host, lib: HrxLib,
                       out: OutputFile)
    returns (r: Result<Archive>)
    requires WellBehaved(lib)
    ensures LoadArchive(stored, lib).Err? ==> r == LoadArchive(stored, lib)
    ensures LoadArchive(stored, lib).Ok? ==>
      var o := DeleteAll(LoadArchive(stored, lib).value, deleteList, globals, host, 0);
      && (o.Err? ==> r == o)
      && (o.Ok? ==> r == WriteArchive(o.value, out))
  {
    var loaded := LoadArchive(stored, lib);
    if loaded.Err? {
      return Err(loaded.code);
    }
    var archive := loaded.value;
    var i := 0;
    while i < |deleteList|
      invariant 0 <= i <= |deleteList| && archive.Valid()
      invariant DeleteAll(loaded.value, deleteList, globals, host, 0) == DeleteAll(archive, deleteList, globals, host, i)
    {
      var step := DeleteElementFromArchive(archive, deleteList[i], globals, host, i);
      if step.Err? {
        return Err(step.code);
      }
      if step.value.abort {
        return Err(E_EABORTED);
      }
      archive := step.value.archive;
      i := i + 1;
    }
    r := WriteArchive(archive, out);
  }
}
