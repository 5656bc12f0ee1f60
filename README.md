# Archive-backed virtual file system of the Todoist offline backup tool, in Dafny

This project models the core of the Todoist full offline backup tool. That core is
`ZipVirtualFs`, a "virtual file system" over a ZIP archive. It is used as a context
manager:

- On entry it decides whether to work in place on an existing archive at the source
  path, or on a fresh archive held in memory.
- In the body it lists, reads and writes entries. A non-ASCII entry name gets the
  UTF-8 flag bit straight away.
- On exit it closes everything. On a clean exit it saves an in-memory archive to the
  destination path, which an optional path hint can fill in.

The project also models the file-name sanitizer `sanitize_file_name`.

Modules:

- `Wrappers` (`wrappers.dfy`): `Option` and `Result`.
- `FileNames` (`file_names.dfy`): the sanitizer and its properties. These are length,
  output alphabet, the value at each position, fixed points and idempotence.
- `ZipArchive` (`zip_archive.dfy`): the slice of the `zipfile` library the core relies
  on, with the byte format abstracted away.
  - An archive is its sequence of entry records (name, data, flag bits, origin).
  - `getinfo` is the last record of a name.
  - `read` checks the name in the record's local header. A record added in this scope
    has a UTF-8 header name. That name decodes back only if the name is ASCII or bit 11
    is set in the in-memory record. This is the failure the workaround in `write_file`
    avoids.
  - `Written` is what `write_file` leaves, and the lemmas here are about it.
- `VirtualFs` (`virtual_fs.dfy`):
  - The class `ZipVirtualFs`. It has the Python object's fields (`srcPath`, `dstPath`,
    the backing storage kind, whether the storage is open, the archive state, the
    records) and its operations. `Enter`, `Exit`, `SetPathHint` and `WriteFile` are
    methods. The read-only queries `Existed`, `FileList` and `ReadFile` are functions.
  - The path-hint rule `HintedPath`.
  - `BackupScope`, the `with` block of the command-line front end.

Each method of the class is specified by its whole new state. The properties that
relate several steps are lemmas about the functions those contracts use.

Behaviours of the code that the model keeps, and that are easy to miss:

- **Truthy destination.** The in-memory archive is saved only when the destination is
  truthy (`virtual_fs.py:58`), not merely set. A source path of `""` is set: it blocks
  every hint (`:63`), yet nothing is ever saved to it (`EmptySourcePathBlocksHint`).
- **Absolute hints.** The hint path is `os.path.join(".", name + ".zip")`. Under POSIX
  rules that is `"./" + name + ".zip"`, except when `name` starts with `/`: then it is
  `name + ".zip"` (`HintOfAbsoluteName`).
- **Duplicate names.** `write_file` appends a record through `writestr`. A repeated name
  is listed again, and `read_file` reads back the last record of that name.
- **On-disk archives at exit.** Closing the archive (`virtual_fs.py:56`) runs whether or
  not an exception was raised, and nothing written before an exception is rolled back. The
  model takes closing to leave the old entries plus the new ones in the source file opened
  at `:47` (`Exit`'s `flushed`). That file is opened in append mode, and how the handle
  places the library's writes is not modelled (see the `VirtualFs.ZipVirtualFs.Exit` and
  `VirtualFs.ZipVirtualFs.WriteFile` lines under "Left out").
- **`existed()` before entry.** `existed()` tests that the storage is not a `BytesIO`.
  Before `__enter__` there is no storage, so it answers true (`constructor`).

## Model

| member | source | states |
|---|---|---|
| FileNames.SanitizeFileName | todoist_full_offline_backup/utils.py:5-7 | the sanitized name has exactly as many characters as the input (one replacement per character) |
| FileNames.SanitizeAt | todoist_full_offline_backup/utils.py:7 | at every position an admitted character (`a-z A-Z 0-9 _ . -` space) is kept and any other becomes `_` |
| FileNames.SanitizedAlphabet | todoist_full_offline_backup/utils.py:7 | every character of the output is in the admitted class |
| FileNames.SanitizeFixedPoint | todoist_full_offline_backup/utils.py:7 | a name is returned unchanged if and only if all its characters are admitted |
| FileNames.SanitizeIdempotent | todoist_full_offline_backup/utils.py:7 | sanitizing a sanitized name changes nothing |
| ZipArchive.LastIndexOf | full_offline_backup_for_todoist/virtual_fs.py:100 | `getinfo(name)` finds a record named `name` with no later record of that name, and finds none exactly when the name is not listed |
| ZipArchive.Read | full_offline_backup_for_todoist/virtual_fs.py:72-73 | reading fails with NotFound exactly when the name is not listed; a successful read returns the data of a record of that name |
| ZipArchive.FlagsOfAsciiName | full_offline_backup_for_todoist/virtual_fs.py:97-98 | an all-ASCII name's flag bits are left as the library set them |
| ZipArchive.FlagsOfNonAsciiName | full_offline_backup_for_todoist/virtual_fs.py:97-101 | a name with a code point of 128 or above gets bit 0x800 set and keeps every bit the library set |
| ZipArchive.FlagsOtherBitsKept | full_offline_backup_for_todoist/virtual_fs.py:35 | the workaround can only change bit 11 (0x800); every other flag bit is as the library set it |
| ZipArchive.WrittenListsName | full_offline_backup_for_todoist/virtual_fs.py:69-76 | after `write_file(p, d)` the list of names is the old list with `p` appended, and every earlier record is unchanged |
| ZipArchive.WriteThenRead | full_offline_backup_for_todoist/virtual_fs.py:75-101 | after `write_file(p, d)` reading `p` returns `d`, for non-ASCII names too |
| ZipArchive.WriteKeepsOtherReads | full_offline_backup_for_todoist/virtual_fs.py:75-101 | `write_file(p, d)` leaves what reading any other name returns unchanged |
| ZipArchive.ReadFailsWithoutWorkaround | full_offline_backup_for_todoist/virtual_fs.py:78-92 | without the flag fix, a freshly added non-ASCII name whose record lacks bit 11 fails to read back with a name mismatch |
| ZipArchive.ReadableWhenHeadersMatch | full_offline_backup_for_todoist/virtual_fs.py:72-73 | when no record fails the local-header name check, every listed name reads successfully |
| ZipArchive.WrittenKeepsHeadersMatching | full_offline_backup_for_todoist/virtual_fs.py:75-101 | thanks to the flag fix, `write_file` never adds a record that fails the name check |
| ZipArchive.ReopenedHeadersMatch | full_offline_backup_for_todoist/virtual_fs.py:47-51 | no record of an archive opened from disk fails the name check |
| ZipArchive.ReopenedNames | full_offline_backup_for_todoist/virtual_fs.py:47-51 | opening an existing archive lists the same names in the same order |
| ZipArchive.ReopenedReadable | full_offline_backup_for_todoist/virtual_fs.py:47-51 | every name listed by an archive opened from disk can be read |
| ZipArchive.WrittenSurvivesReopen | full_offline_backup_for_todoist/virtual_fs.py:44-59 | a written entry still reads back its data after the archive is saved and opened again |
| VirtualFs.HintNeverOverrides | full_offline_backup_for_todoist/virtual_fs.py:62-64 | a hint never replaces a destination that is already set, even an empty one |
| VirtualFs.HintIdempotent | full_offline_backup_for_todoist/virtual_fs.py:63-64 | after one hint the destination is set, and any later hint leaves it unchanged |
| VirtualFs.HintOfRelativeName | full_offline_backup_for_todoist/virtual_fs.py:64 | a hint `n` that does not start with `/` gives the destination `./n.zip`, which is truthy |
| VirtualFs.HintOfAbsoluteName | full_offline_backup_for_todoist/virtual_fs.py:64 | a hint `n` that starts with `/` gives the destination `n.zip` (join drops the `.` directory) |
| VirtualFs.HintOfSanitizedName | full_offline_backup_for_todoist/virtual_fs.py:62-64 | a sanitized hint never starts with `/`, so it always gives `./<name>.zip` |
| VirtualFs.EmptySourcePathBlocksHint | full_offline_backup_for_todoist/virtual_fs.py:58-64 | with an empty source path a hint has no effect and the destination is not truthy, so nothing is saved |
| VirtualFs.ZipVirtualFs.constructor | full_offline_backup_for_todoist/virtual_fs.py:37-41 | the destination equals the source; there is no storage and no archive yet (so `existed()` answers true) |
| VirtualFs.ZipVirtualFs.Existed | full_offline_backup_for_todoist/virtual_fs.py:66-67 | `existed()` is true exactly when the storage is on disk or not yet chosen (before entry) |
| VirtualFs.ZipVirtualFs.FileList | full_offline_backup_for_todoist/virtual_fs.py:69-70 | `file_list()` is the record names in archive order, one per record, duplicates included |
| VirtualFs.ZipVirtualFs.ReadFile | full_offline_backup_for_todoist/virtual_fs.py:72-73 | `read_file` fails with NotFound exactly when the name is not in `file_list()`, and succeeds for every listed name (the name-mismatch error never reaches a caller); on success it returns the data of a record of that name |
| VirtualFs.ZipVirtualFs.Enter | full_offline_backup_for_todoist/virtual_fs.py:43-53 | the storage is on disk exactly when a source path is set and a valid archive file is there, and then the archive lists its members; otherwise the storage is in memory and the archive is empty; `existed()` holds exactly in the on-disk case |
| VirtualFs.ZipVirtualFs.Exit | full_offline_backup_for_todoist/virtual_fs.py:55-60 | the archive and the storage are closed on every path; closing leaves an on-disk archive at the source path holding all current records, exception or not (assuming the append-mode handle behaves as a random-access buffer, see Left out); an in-memory archive is saved exactly when no exception was raised and the destination is truthy, and then it goes to the destination with exactly the current records |
| VirtualFs.ZipVirtualFs.SetPathHint | full_offline_backup_for_todoist/virtual_fs.py:62-64 | the destination changes only when it was `None`, and then becomes `os.path.join(".", name + ".zip")` |
| VirtualFs.ZipVirtualFs.WriteFile | full_offline_backup_for_todoist/virtual_fs.py:75-101 | one record is appended (bit 11 added for a non-ASCII name) and no other record changes; the name is listed last, reads back its data, and reads of other names are unchanged |
| VirtualFs.BackupScope | full_offline_backup_for_todoist/frontend.py:66-69 | in a scope that hints and writes one file, `existed()` holds exactly when an archive was found at the output path; the file list is the old members plus the new name; an existing archive is left holding its old members plus the new entry, exception or not (under the same append-mode assumption as `Exit`); an in-memory archive is saved only on a clean exit with a truthy destination, and then it goes to the output path or the hinted path and holds exactly the one new entry |

## Left out

- The `VirtualFs` abstract base class (`virtual_fs.py:9-31`) is not a separate declaration. The five operations are members of `ZipVirtualFs` directly.
- The ZIP byte format is not modelled: local headers, the central directory, compression and CRC checks. An archive is its list of records.
- `is_zipfile` and `os.path.isfile` become the `DiskObject` argument of `Enter`.
- The flag bits that `writestr` gives a fresh record are a library detail. They are the `libraryFlags` argument of `WriteFile`.
- The library's warning on a duplicate entry name is not modelled.
- `Path.write_bytes`, and the archive `close` leaves in an on-disk source file, become the `Persisted` values that `Exit` returns. They hold the records the saved archive contains, not its bytes.
- I/O failures are not modelled: disk full, or no permission while opening, writing or closing.
- VirtualFs.ZipVirtualFs.Exit: the on-disk file is opened in append mode (`"ab+"`, `virtual_fs.py:47`). The model treats that handle as a random-access buffer. It does not model where the operating system places the library's writes on an append-mode handle. Nor does it model any effect this has on the saved archive's layout. `flushed` (old plus new records left in the source file) is stated under that assumption.
- VirtualFs.ZipVirtualFs.WriteFile: for on-disk storage, the promise that a written name reads back its data within the scope rests on the same assumption. The record is assumed to be found where the library recorded its offset, even though the file is opened in append mode (`"ab+"`, `virtual_fs.py:47`).
- Python truthiness of the exception object in `__exit__` is not modelled. `Exit` takes a boolean "an exception was raised", so an exception object that is falsy is not covered.
- `os.path.join` is modelled with POSIX rules only. Windows drive letters and backslashes are not.
- VirtualFs.ZipVirtualFs.ReadFile: requires an open archive. Before `__enter__`, `_zip_file` is `None` (`virtual_fs.py:40`) and the call raises AttributeError. After close, `zipfile` raises on a read. Neither error is modelled. The `with` block at `frontend.py:67` only calls it inside the scope.
- VirtualFs.ZipVirtualFs.WriteFile: requires an open archive. Before `__enter__`, `_zip_file` is `None` (`virtual_fs.py:40`) and the call raises AttributeError. After close, `zipfile` raises on a write. Neither error is modelled. The `with` block at `frontend.py:67` only calls it inside the scope.
- VirtualFs.ZipVirtualFs.FileList: requires the archive to have been opened. Before `__enter__`, `_zip_file` is `None` (`virtual_fs.py:40`) and the call raises AttributeError, which is not modelled. The `with` block at `frontend.py:67` only calls it inside the scope.
- VirtualFs.ZipVirtualFs.Exit: requires an entered, still open scope, as the `with` block at `frontend.py:67` exits exactly once. `__exit__` without `__enter__` raises on the missing archive. A second `__exit__` raises only when it reaches `getvalue()` on the closed buffer (clean exit, in-memory storage, truthy destination); otherwise it closes closed objects and does nothing.
- VirtualFs.ZipVirtualFs.Enter: the `DiskObject` argument describes what is at the source path, so it must be `Nothing` for the empty path, where `os.path.isfile("")` is false.
- VirtualFs.BackupScope: the controller that runs inside the `with` block is not part of this model. Its body is reduced to one path hint and one `write_file`, followed by either a clean end or an exception.
- Argument parsing, reading the token file and building the controller in `frontend.py` are command-line plumbing and are not modelled.
