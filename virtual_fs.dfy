/**
 * The archive-backed virtual file system of full_offline_backup_for_todoist/virtual_fs.py.
 *
 * `ZipVirtualFs` is used as a context manager: it is constructed with an optional
 * source path, entered (which picks the backing storage and opens the archive),
 * written to and read from, and exited (which closes the archive and the storage,
 * and on a clean exit saves an in-memory archive to the destination path).
 * File-system probes become a `DiskObject` argument and the one file write of the
 * exit step becomes a returned `Persisted` value.
 */
module VirtualFs {
  import opened Wrappers
  import opened ZipArchive
  import FileNames

  /** The two kinds of backing storage: the source file opened "ab+", or a `BytesIO` buffer. */
  datatype Storage = OnDisk | InMemory

  /** The life cycle of the `zipfile.ZipFile` object: none yet, open, closed. */
  datatype ArchiveState = NotOpened | Open | Closed

  /** What the file system holds at the source path when the scope is entered. */
  datatype DiskObject =
    | Nothing
    | Directory
    | OtherFile                          // a regular file that `is_zipfile` rejects
    | ZipFile(members: seq<Entry>)       // a regular file holding a valid archive

  /** `Path(path).write_bytes(...)` of an archive holding exactly `archive`. */
  datatype Persisted = Persisted(path: string, archive: seq<Entry>)

  /** Python truthiness of an optional path: present and not empty. */
  predicate Truthy(path: Option<string>)
  {
    path.Some? && path.value != ""
  }

  /** `os.path.join(".", tail)` with POSIX rules: an absolute `tail` replaces the directory. */
  function JoinCurrentDir(tail: string): string
  {
    if |tail| > 0 && tail[0] == '/' then tail else "./" + tail
  }

  /** The destination path after `set_path_hint(name)`. */
  function HintedPath(dst: Option<string>, name: string): Option<string>
  {
    if dst.None? then Some(JoinCurrentDir(name + ".zip")) else dst
  }

  /** A destination that is already known, even an empty one, is never replaced by a hint. */
  lemma HintNeverOverrides(dst: Option<string>, name: string)
    requires dst.Some?
    ensures HintedPath(dst, name) == dst
  {
  }

  /** After one hint has taken effect, any further hint leaves the destination as it is. */
  lemma HintIdempotent(dst: Option<string>, first: string, second: string)
    ensures HintedPath(HintedPath(dst, first), second) == HintedPath(dst, first)
    ensures HintedPath(dst, first).Some?
  {
  }

  /** A hint that is not an absolute path leads to "./<name>.zip", a truthy destination. */
  lemma HintOfRelativeName(name: string)
    requires name == [] || name[0] != '/'
    ensures HintedPath(None, name) == Some("./" + name + ".zip")
    ensures Truthy(HintedPath(None, name))
  {
    assert "./" + (name + ".zip") == "./" + name + ".zip";
  }

  /** A hint that is an absolute path is used as it is, with ".zip" appended. */
  lemma HintOfAbsoluteName(name: string)
    requires |name| > 0 && name[0] == '/'
    ensures HintedPath(None, name) == Some(name + ".zip")
  {
    assert (name + ".zip")[0] == '/';
  }

  /** A sanitized name is never absolute, so its hint always lands in the current directory. */
  lemma HintOfSanitizedName(name: string)
    ensures HintedPath(None, FileNames.SanitizeFileName(name))
         == Some("./" + FileNames.SanitizeFileName(name) + ".zip")
  {
    var s := FileNames.SanitizeFileName(name);
    if s != [] {
      FileNames.SanitizeAt(name, 0);
      assert (s + ".zip")[0] == s[0];
    }
    assert "./" + (s + ".zip") == "./" + s + ".zip";
  }

  /** An empty source path blocks every hint and yet is not truthy, so nothing is ever saved to it. */
  lemma EmptySourcePathBlocksHint(name: string)
    ensures HintedPath(Some(""), name) == Some("")
    ensures !Truthy(HintedPath(Some(""), name))
  {
  }

  /** `ZipVirtualFs`: the fields of the Python object and the five file-system operations. */
  class ZipVirtualFs {
    /** `src_path`: the path the archive is opened from, if any. */
    const srcPath: Option<string>
    /** `dst_path`: where an in-memory archive is saved on a clean exit. */
    var dstPath: Option<string>
    /** The kind of `_backing_storage`; `None` before the scope is entered. */
    var storage: Option<Storage>
    /** Whether `_backing_storage` is open. */
    var storageOpen: bool
    /** The state of `_zip_file`. */
    var archive: ArchiveState
    /** The records of `_zip_file`. */
    var entries: seq<Entry>

    /**
     * The object invariant: storage and archive are opened together and closed together,
     * on-disk storage is the source file, and no record fails the library's name check.
     */
    ghost predicate Valid()
      reads this
    {
      (storage.None? <==> archive == NotOpened) &&
      (storageOpen <==> archive == Open) &&
      (storage == Some(OnDisk) ==> srcPath.Some?) &&
      (archive == NotOpened ==> entries == []) &&
      AllHeadersMatch(entries)
    }

    /** `__init__`: the destination defaults to the source; no storage, no archive yet. */
    constructor (src: Option<string>)
      ensures Valid()
      ensures srcPath == src && dstPath == src
      ensures storage == None && !storageOpen && archive == NotOpened && entries == []
      ensures Existed()
    {
      srcPath := src;
      dstPath := src;
      storage := None;
      storageOpen := false;
      archive := NotOpened;
      entries := [];
    }

    /**
     * `existed()`: the backing storage is not an in-memory buffer.  Before the scope is
     * entered there is no storage at all, and the answer is true.
     */
    function Existed(): (r: bool)
      reads this
      ensures r <==> storage.None? || storage == Some(OnDisk)
    {
      if storage.Some? then
        assert storage.value.OnDisk? ==> storage == Some(OnDisk);
        storage != Some(InMemory)
      else
        true
    }

    /** `file_list()`: the names of the archive's records. */
    function FileList(): (r: seq<string>)
      reads this
      requires archive != NotOpened
      ensures |r| == |entries|
      ensures forall i :: 0 <= i < |entries| ==> r[i] == entries[i].name
    {
      Names(entries)
    }

    /** `read_file(path)`: the data stored under `path`, or the error the library raises. */
    function ReadFile(path: string): (r: Result<seq<bv8>, ReadError>)
      reads this
      requires Valid() && archive == Open
      ensures r == Err(NotFound) <==> path !in FileList()
      ensures path in FileList() ==> r.Ok?
      ensures r.Ok? ==> exists j :: 0 <= j < |entries| && entries[j].name == path && entries[j].data == r.value
    {
      if path in Names(entries) then ReadableWhenHeadersMatch(entries, path); Read(entries, path)
      else Read(entries, path)
    }

    /**
     * `__enter__`: the source file is used in place only when a source path is set and
     * a regular file holding a valid archive is found there; otherwise a fresh in-memory
     * archive is started.  `found` is what the file system holds at the source path;
     * nothing is found at the empty path (`os.path.isfile("")` is false).
     */
    method Enter(found: DiskObject)
      requires Valid()
      requires srcPath == Some("") ==> found == Nothing
      modifies this
      ensures Valid() && archive == Open && storageOpen
      ensures dstPath == old(dstPath)
      ensures storage == Some(if srcPath.Some? && found.ZipFile? then OnDisk else InMemory)
      ensures Existed() <==> srcPath.Some? && found.ZipFile?
      ensures entries == if Existed() then Reopened(found.members) else []
    {
      if srcPath.Some? && found.ZipFile? {
        storage := Some(OnDisk);
        entries := Reopened(found.members);
        ReopenedHeadersMatch(found.members);
      } else {
        storage := Some(InMemory);
        entries := [];
      }
      storageOpen := true;
      archive := Open;
    }

    /**
     * `__exit__`: the archive and the storage are closed whatever happened in the scope.
     * Closing the archive writes its records and central directory into the storage, so
     * an on-disk archive is left at the source path holding every record, with or
     * without an exception (`flushed`).  An in-memory archive is saved, exactly as it
     * stands, to the destination path only when no exception was raised and the
     * destination is truthy (`written`).
     */
    method Exit(raised: bool) returns (flushed: Option<Persisted>, written: Option<Persisted>)
      requires Valid() && archive == Open
      modifies this
      ensures Valid() && archive == Closed && !storageOpen
      ensures storage == old(storage) && dstPath == old(dstPath) && entries == old(entries)
      ensures flushed.Some? <==> storage == Some(OnDisk)
      ensures flushed.Some? ==> flushed.value == Persisted(srcPath.value, entries)
      ensures written.Some? <==> !raised && storage == Some(InMemory) && Truthy(dstPath)
      ensures written.Some? ==> written.value == Persisted(dstPath.value, entries)
    {
      archive := Closed;
      if storage == Some(OnDisk) {
        flushed := Some(Persisted(srcPath.value, entries));
      } else {
        flushed := None;
      }
      if !raised && storage == Some(InMemory) && Truthy(dstPath) {
        written := Some(Persisted(dstPath.value, entries));
      } else {
        written := None;
      }
      storageOpen := false;
    }

    /** `set_path_hint(name)`: fills in the destination only when none is known. */
    method SetPathHint(name: string)
      modifies this`dstPath
      ensures dstPath == HintedPath(old(dstPath), name)
      ensures old(dstPath).Some? ==> dstPath == old(dstPath)
      ensures old(dstPath).None? ==> dstPath == Some(JoinCurrentDir(name + ".zip"))
    {
      if dstPath.None? {
        dstPath := Some(JoinCurrentDir(name + ".zip"));
      }
    }

    /**
     * `write_file(path, data)`: `writestr` adds a record with the flag bits the library
     * chose (`libraryFlags`); for a non-ASCII name bit 11 is then set on the record
     * `getinfo` returns, so that the name reads back before the archive is saved.
     */
    method WriteFile(path: string, data: seq<bv8>, libraryFlags: bv16)
      requires Valid() && archive == Open
      modifies this`entries
      ensures Valid()
      ensures entries == Written(old(entries), path, data, libraryFlags)
      ensures FileList() == old(FileList()) + [path]
      ensures ReadFile(path) == Ok(data)
      ensures forall other :: other != path ==> ReadFile(other) == old(ReadFile(other))
    {
      ghost var before := entries;
      entries := Added(entries, path, data, libraryFlags);
      if !IsAscii(path) {
        LastIndexOfAppended(before, entries[|before|]);
        var i := LastIndexOf(entries, path).value;
        assert i == |before|;
        var info := entries[i];
        entries := entries[i := info.(flagBits := info.flagBits | Utf8Flag)];
      }
      assert entries == Written(before, path, data, libraryFlags);
      WrittenListsName(before, path, data, libraryFlags);
      WriteThenRead(before, path, data, libraryFlags);
      WrittenKeepsHeadersMatching(before, path, data, libraryFlags);
      forall other | other != path
        ensures Read(entries, other) == Read(before, other)
      {
        WriteKeepsOtherReads(before, path, data, libraryFlags, other);
      }
    }
  }

  /**
   * The `with ZipVirtualFs(args.output_file) as zipvfs:` block of the command-line
   * front end, with a body that gives a path hint and writes one file, and that either
   * finishes or raises.  Reports what `existed()` and `file_list()` answered at the end
   * of the body, what closing left in the source file and what the exit step saved.
   */
  method BackupScope(outputFile: Option<string>, found: DiskObject, hint: string,
                     path: string, data: seq<bv8>, libraryFlags: bv16, raised: bool)
    returns (existed: bool, names: seq<string>, flushed: Option<Persisted>, written: Option<Persisted>)
    requires outputFile == Some("") ==> found == Nothing
    ensures existed <==> outputFile.Some? && found.ZipFile?
    ensures names == (if existed then Names(found.members) else []) + [path]
    ensures flushed.Some? <==> existed
    ensures flushed.Some? ==>
              flushed.value == Persisted(outputFile.value,
                Reopened(found.members) + [Entry(path, data, FlagsAfterWrite(path, libraryFlags), AddedInScope)])
    ensures written.Some? <==> !raised && !existed && Truthy(HintedPath(outputFile, hint))
    ensures written.Some? ==>
              written.value.path == HintedPath(outputFile, hint).value &&
              written.value.archive == [Entry(path, data, FlagsAfterWrite(path, libraryFlags), AddedInScope)]
  {
    var fs := new ZipVirtualFs(outputFile);
    fs.Enter(found);
    fs.SetPathHint(hint);
    fs.WriteFile(path, data, libraryFlags);
    existed := fs.Existed();
    names := fs.FileList();
    if existed {
      ReopenedNames(found.members);
    }
    flushed, written := fs.Exit(raised);
  }
}
