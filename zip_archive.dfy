/**
 * The part of an open ZIP archive that full_offline_backup_for_todoist/virtual_fs.py
 * relies on, with the byte format abstracted away: the archive is its sequence of
 * entry records, in the order the central directory (or `writestr`) lists them.
 *
 * `getinfo(name)` finds the LAST record carrying `name` (the library keeps a
 * name-to-record dictionary that a later record of the same name overwrites), and
 * `read(name)` reads that record's data after checking the name stored in its
 * local header against the record's name.
 */
module ZipArchive {
  import opened Wrappers

  /**
   * General-purpose bit 11, the "language encoding flag": the entry's name is
   * UTF-8 (section 4.4.4 of the PKWARE .ZIP File Format Specification, APPNOTE.TXT).
   */
  const Utf8Flag: bv16 := 0x800

  /** Where a record of the open archive came from. */
  datatype Origin =
    | CentralDirectory  // listed by the archive as it was opened
    | AddedInScope      // added by `writestr` since the archive was opened

  /** One entry record: its name, its uncompressed bytes and its flag bits. */
  datatype Entry = Entry(name: string, data: seq<bv8>, flagBits: bv16, origin: Origin)

  /** Why `read` raises: no record of that name (KeyError), or a local-header name mismatch (BadZipFile). */
  datatype ReadError = NotFound | NameMismatch

  /** `name.encode('ascii')` succeeds: no code point of 128 or above. */
  predicate IsAscii(s: string)
  {
    forall i :: 0 <= i < |s| ==> s[i] as int < 128
  }

  /** `namelist()`: the record names in archive order, duplicates included. */
  function Names(es: seq<Entry>): seq<string>
  {
    seq(|es|, i requires 0 <= i < |es| => es[i].name)
  }

  /** `getinfo(name)`: the index of the last record named `name`, if any. */
  function LastIndexOf(es: seq<Entry>, name: string): (r: Option<nat>)
    ensures r.Some? ==> r.value < |es| && es[r.value].name == name
    ensures r.Some? ==> forall j :: r.value < j < |es| ==> es[j].name != name
    ensures r.None? <==> name !in Names(es)
  {
    if es == [] then None
    else if es[|es| - 1].name == name then
      assert Names(es)[|es| - 1] == name;
      Some(|es| - 1)
    else
      assert Names(es) == Names(es[..|es| - 1]) + [es[|es| - 1].name];
      LastIndexOf(es[..|es| - 1], name)
  }

  /**
   * Whether the name in a record's local header decodes back to the record's name.
   * A record added in scope has its name written to the local header as UTF-8
   * bytes, while the library decodes those bytes as UTF-8 only when bit 11 is set
   * in the in-memory record and as code page 437 otherwise; the two agree exactly
   * when the name is ASCII, because every non-ASCII code point takes two or more
   * UTF-8 bytes and code page 437 turns each byte into one character.  A record
   * listed by the central directory had its name decoded by the same rule as its
   * local header, so the two agree.
   */
  predicate HeaderNameMatches(e: Entry)
  {
    e.origin == CentralDirectory || IsAscii(e.name) || e.flagBits & Utf8Flag != 0
  }

  /** No record of `es` would fail the local-header name check. */
  predicate AllHeadersMatch(es: seq<Entry>)
  {
    forall i :: 0 <= i < |es| ==> HeaderNameMatches(es[i])
  }

  /** `read(name)`: the data of the last record of that name, or the error raised. */
  function Read(es: seq<Entry>, name: string): (r: Result<seq<bv8>, ReadError>)
    ensures r == Err(NotFound) <==> name !in Names(es)
    ensures r.Ok? ==> exists j :: 0 <= j < |es| && es[j].name == name && es[j].data == r.value
  {
    match LastIndexOf(es, name)
    case None => Err(NotFound)
    case Some(i) => if HeaderNameMatches(es[i]) then Ok(es[i].data) else Err(NameMismatch)
  }

  /** `writestr(name, data)` on its own: one more record, with the flag bits the library chose. */
  function Added(es: seq<Entry>, name: string, data: seq<bv8>, libraryFlags: bv16): seq<Entry>
  {
    es + [Entry(name, data, libraryFlags, AddedInScope)]
  }

  /** The flag bits a record keeps once `write_file` has applied its workaround. */
  function FlagsAfterWrite(name: string, libraryFlags: bv16): bv16
  {
    if IsAscii(name) then libraryFlags else libraryFlags | Utf8Flag
  }

  /** The records after `write_file(name, data)`: `writestr`, then bit 11 for a non-ASCII name. */
  function Written(es: seq<Entry>, name: string, data: seq<bv8>, libraryFlags: bv16): seq<Entry>
  {
    es + [Entry(name, data, FlagsAfterWrite(name, libraryFlags), AddedInScope)]
  }

  /** The records the library lists when it opens an archive holding `es`. */
  function Reopened(es: seq<Entry>): seq<Entry>
  {
    seq(|es|, i requires 0 <= i < |es| => es[i].(origin := CentralDirectory))
  }

  /** An ASCII name's flag bits are left as the library set them. */
  lemma FlagsOfAsciiName(name: string, libraryFlags: bv16)
    requires IsAscii(name)
    ensures FlagsAfterWrite(name, libraryFlags) == libraryFlags
  {
  }

  /** A non-ASCII name gains bit 11 and keeps every bit the library set. */
  lemma FlagsOfNonAsciiName(name: string, libraryFlags: bv16)
    requires !IsAscii(name)
    ensures FlagsAfterWrite(name, libraryFlags) & Utf8Flag == Utf8Flag
    ensures FlagsAfterWrite(name, libraryFlags) & libraryFlags == libraryFlags
  {
    OrUtf8Sets(libraryFlags);
  }

  /** Only bit 11 can change: every other bit is as the library set it. */
  lemma FlagsOtherBitsKept(name: string, libraryFlags: bv16)
    ensures FlagsAfterWrite(name, libraryFlags) & !Utf8Flag == libraryFlags & !Utf8Flag
  {
    if !IsAscii(name) {
      OrUtf8KeepsOthers(libraryFlags);
    }
  }

  /** Bit arithmetic behind FlagsOfNonAsciiName: bit 11 is set and every set bit stays set. */
  lemma OrUtf8Sets(f: bv16)
    ensures (f | Utf8Flag) & Utf8Flag == Utf8Flag
    ensures (f | Utf8Flag) & f == f
  {
  }

  /** Bit arithmetic behind FlagsOtherBitsKept: the bits other than bit 11 are unchanged. */
  lemma OrUtf8KeepsOthers(f: bv16)
    ensures (f | Utf8Flag) & !Utf8Flag == f & !Utf8Flag
  {
  }

  /** The last record's name decides `getinfo` for that name. */
  lemma LastIndexOfAppended(es: seq<Entry>, e: Entry)
    ensures LastIndexOf(es + [e], e.name) == Some(|es|)
  {
    assert (es + [e])[|es|].name == e.name;
  }

  /** Appending a record of another name leaves `getinfo` of a name unchanged. */
  lemma LastIndexOfOther(es: seq<Entry>, e: Entry, name: string)
    requires e.name != name
    ensures LastIndexOf(es + [e], name) == LastIndexOf(es, name)
  {
    assert (es + [e])[..|es|] == es;
  }

  /** `write_file` lists the name last and leaves every earlier record as it was. */
  lemma WrittenListsName(es: seq<Entry>, name: string, data: seq<bv8>, libraryFlags: bv16)
    ensures Names(Written(es, name, data, libraryFlags)) == Names(es) + [name]
    ensures Written(es, name, data, libraryFlags)[..|es|] == es
  {
  }

  /** After `write_file(name, data)` reading `name` gives back `data`, whether or not the name is ASCII. */
  lemma WriteThenRead(es: seq<Entry>, name: string, data: seq<bv8>, libraryFlags: bv16)
    ensures Read(Written(es, name, data, libraryFlags), name) == Ok(data)
  {
    LastIndexOfAppended(es, Entry(name, data, FlagsAfterWrite(name, libraryFlags), AddedInScope));
    if !IsAscii(name) {
      FlagsOfNonAsciiName(name, libraryFlags);
    }
  }

  /** `write_file(name, data)` does not change what reading any other name gives. */
  lemma WriteKeepsOtherReads(es: seq<Entry>, name: string, data: seq<bv8>, libraryFlags: bv16, other: string)
    requires other != name
    ensures Read(Written(es, name, data, libraryFlags), other) == Read(es, other)
  {
    LastIndexOfOther(es, Entry(name, data, FlagsAfterWrite(name, libraryFlags), AddedInScope), other);
  }

  /**
   * Without the workaround a fresh record with a non-ASCII name, whose flag bits
   * lack bit 11, cannot be read back before the archive is closed.
   */
  lemma ReadFailsWithoutWorkaround(es: seq<Entry>, name: string, data: seq<bv8>, libraryFlags: bv16)
    requires !IsAscii(name) && libraryFlags & Utf8Flag == 0
    ensures Read(Added(es, name, data, libraryFlags), name) == Err(NameMismatch)
  {
    LastIndexOfAppended(es, Entry(name, data, libraryFlags, AddedInScope));
  }

  /** When no record fails the name check, every listed name can be read. */
  lemma ReadableWhenHeadersMatch(es: seq<Entry>, name: string)
    requires AllHeadersMatch(es) && name in Names(es)
    ensures Read(es, name).Ok?
  {
  }

  /** `write_file` never adds a record that fails the name check. */
  lemma WrittenKeepsHeadersMatching(es: seq<Entry>, name: string, data: seq<bv8>, libraryFlags: bv16)
    requires AllHeadersMatch(es)
    ensures AllHeadersMatch(Written(es, name, data, libraryFlags))
  {
    if !IsAscii(name) {
      FlagsOfNonAsciiName(name, libraryFlags);
    }
  }

  /** No record of a reopened archive fails the name check. */
  lemma ReopenedHeadersMatch(es: seq<Entry>)
    ensures AllHeadersMatch(Reopened(es))
  {
  }

  /** Opening an archive lists the same names, in the same order. */
  lemma ReopenedNames(es: seq<Entry>)
    ensures Names(Reopened(es)) == Names(es)
  {
  }

  /** Every name of a reopened archive can be read: its records came from the central directory. */
  lemma ReopenedReadable(es: seq<Entry>, name: string)
    requires name in Names(es)
    ensures Read(Reopened(es), name).Ok?
  {
    ReopenedNames(es);
    ReopenedHeadersMatch(es);
    ReadableWhenHeadersMatch(Reopened(es), name);
  }

  /** Once the archive is saved and opened again, a written name still reads back its data. */
  lemma WrittenSurvivesReopen(es: seq<Entry>, name: string, data: seq<bv8>, libraryFlags: bv16)
    ensures Read(Reopened(Written(es, name, data, libraryFlags)), name) == Ok(data)
  {
    var ws := Written(es, name, data, libraryFlags);
    var rs := Reopened(ws);
    assert rs == Reopened(es) + [rs[|es|]];
    LastIndexOfAppended(Reopened(es), rs[|es|]);
  }
}
