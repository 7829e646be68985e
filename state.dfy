/** An open-archive session: the archive read from disk, its modification
    time, the session's progress-callback slots and a cursor that walks the
    entries in order, remembering the one it last produced so that it can be
    extracted. */
module State {
  import opened Wcx
  import opened Hrx
  import opened Pack

  /** A point in time as whole seconds since the Unix epoch; negative before
      it. */
  type SystemTime = int

  /** What the file system says about an archive file besides its contents:
      `None` when its metadata or its modification time cannot be had. */
  type ModifiedTime = Option<SystemTime>

  /** The file system seen by extraction: how a destination directory and a
      name are joined, and what creating and writing each destination does. */
  datatype Destinations = Destinations(join: (string, string) -> string, create: string -> OutputFile)

  /** A finished extraction: the file written and the text written to it. */
  datatype Extracted = Extracted(destination: string, data: string)

  /** An entry as the cursor yields it. */
  type Item = (HrxPath, HrxEntry)

  /** Number of entries the cursor has consumed: none before the iterator
      exists. */
  function Consumed(cursor: Option<nat>): (n: nat)
    ensures cursor.Some? ==> n == cursor.value
    ensures cursor.None? ==> n == 0
  {
    cursor.GetOr(0)
  }

  /** `ArchiveState`. The archive and the time never change after opening;
      `cursor` stands for `arch_iter` (`None` until the first `NextEntry`,
      then the number of entries consumed) and `current` for `cur_entry`. */
  class ArchiveState {
    const arch: Archive
    const modTime: SystemTime
    var narrowCallback: Option<Callback>
    var wideCallback: Option<Callback>
    var cursor: Option<nat>
    var current: Option<Item>

    /** The cursor stays within the listing, and the current entry is the
        one it consumed last. */
    ghost predicate Valid()
      reads this
    {
      && arch.Valid()
      && (cursor.Some? ==> cursor.value <= |arch.keys|)
      && (current.Some? ==> cursor.Some? && 0 < cursor.value && current.value == arch.Listing()[cursor.value - 1])
    }

    /** The entries produced so far, in the order produced. */
    ghost function Yielded(): (s: seq<Item>)
      requires Valid()
      reads this
    {
      arch.Listing()[..Consumed(cursor)]
    }

    /** A fresh session: no iterator, no current entry, no callbacks. */
    constructor (arch: Archive, modTime: SystemTime)
      requires arch.Valid()
      ensures Valid() && Yielded() == []
      ensures this.arch == arch && this.modTime == modTime
      ensures narrowCallback.None? && wideCallback.None? && cursor.None? && current.None?
    {
      this.arch := arch;
      this.modTime := modTime;
      narrowCallback := None;
      wideCallback := None;
      cursor := None;
      current := None;
    }

    /** `next_entry`: creates the iterator on first use, then yields the
        entries in insertion order, each once; once exhausted it keeps
        yielding nothing. The yielded value becomes the current entry. */
    method NextEntry() returns (r: Option<Item>)
      requires Valid()
      modifies this
      ensures Valid()
      ensures var i := Consumed(old(cursor));
        && (i < |arch.keys| ==> r == Some(arch.Listing()[i]) && cursor == Some(i + 1))
        && (i >= |arch.keys| ==> r == None && cursor == Some(i))
      ensures r.None? <==> Consumed(old(cursor)) == |arch.keys|
      ensures Yielded() == old(Yielded()) + (if r.Some? then [r.value] else [])
      ensures r.None? ==> Yielded() == arch.Listing()
      ensures current == r
      ensures narrowCallback == old(narrowCallback) && wideCallback == old(wideCallback)
    {
      if cursor.None? {
        cursor := Some(0);
      }
      var i := cursor.value;
      var listing := arch.Listing();
      if i < |listing| {
        r := Some(listing[i]);
        cursor := Some(i + 1);
        assert listing[..i + 1] == listing[..i] + [listing[i]];
      } else {
        r := None;
        assert listing[..i] == listing;
      }
      current := r;
    }

    /** `extract_current_entry_impl`: no current entry is checked first
        (`E_END_ARCHIVE`), then a missing destination name
        (`E_NOT_SUPPORTED`); the destination is the name joined to the
        directory when there is one; creating and writing it can fail. What
        is written is the entry's body, empty for a directory or a bodiless
        file. */
    function ExtractCurrentEntry(destPath: Option<string>, destName: Option<string>, fs: Destinations)
      : (r: Result<Extracted>)
      reads this
      ensures current.None? ==> r == Err(E_END_ARCHIVE)
      ensures current.Some? && destName.None? ==> r == Err(E_NOT_SUPPORTED)
      ensures current.Some? && destName.Some? ==>
        var dest := if destPath.Some? then fs.join(destPath.value, destName.value) else destName.value;
        && (fs.create(dest).CannotCreate? ==> r == Err(E_ECREATE))
        && (fs.create(dest).CannotWrite? ==> r == Err(E_EWRITE))
        && (fs.create(dest).Writable? ==> r == Ok(Extracted(dest, BodyText(current.value.1.data))))
      ensures r.Ok? ==> Utf8Length(r.value.data) == BodyLength(current.value.1.data)
    {
      if current.None? then Err(E_END_ARCHIVE)
      else
        var data := BodyText(current.value.1.data);
        if destName.None? then Err(E_NOT_SUPPORTED)
        else
          var dest := if destPath.Some? then fs.join(destPath.value, destName.value) else destName.value;
          match fs.create(dest)
          case CannotCreate => Err(E_ECREATE)
          case CannotWrite => Err(E_EWRITE)
          case Writable => Ok(Extracted(dest, data))
    }
  }

  /** `open_impl`: the archive file's errors in the order open, read, UTF-8,
      parse; the modification time falls back to `now`. The new session has
      no iterator, no current entry and no callbacks. */
  method Open(file: FileContents, modified: ModifiedTime, now: SystemTime, lib: HrxLib) returns (r: Result<ArchiveState>)
    requires WellBehaved(lib)
    ensures r.Err? <==> LoadArchive(file, lib).Err?
    ensures r.Err? ==> r.code == LoadArchive(file, lib).code
    ensures file.CannotOpen? ==> r == Err(E_EOPEN)
    ensures r.Ok? ==>
      var s := r.value;
      && fresh(s) && s.Valid() && s.Yielded() == []
      && s.arch == LoadArchive(file, lib).value
      && s.modTime == modified.GetOr(now)
      && s.narrowCallback.None? && s.wideCallback.None? && s.cursor.None? && s.current.None?
  {
    var loaded := LoadArchive(file, lib);
    if loaded.Err? {
      return Err(loaded.code);
    }
    var state := new ArchiveState(loaded.value, modified.GetOr(now));
    r := Ok(state);
  }
}
