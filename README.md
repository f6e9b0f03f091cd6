# wymmo directory: loader and consistency check

This project models the core of the wymmo directory in Dafny. The directory is
a set of hand-written YAML records: tags (categories) and items (entries,
such as companies), bundled into the binary at build time.

- `directory.dfy`, module `Directory`: the `Tag`, `Item` and `Directory` records and the
  `DirectoryError` kinds. It also holds `LoadDirectory`, which models the Rust
  function `load_directory` as a method with two loops.
  The first loop reads every file of the `tags` sub-directory and the second every
  top-level file. Each record goes into a map under its file stem, and the first
  error aborts the load. `Load` specifies the method. Lemmas about `Load` say
  when loading fails, which error it reports, and what the maps contain.
- `directory_check.dfy`, module `DirectoryCheck`: the consistency check from the test
  `read_all_directory`, as a standalone method over a `Directory`. The check requires
  every tag to be listed by some item (tag liveness) and every tag that an item
  lists to exist (referential closure). Failures only set a flag, so the scan never
  stops early. The log that the Rust test writes through `tracing` is returned here
  as a list of violations. The method is proved to log exactly the directory's
  violations and to return `Err` exactly when the directory is not consistent.

The embedded file tree is an input value (`FileSource`). The tags sub-directory
is present or absent. Each file (`SourceFile`) carries the outcomes of the three
foreign calls the loader makes on it: the path's stem, the contents as UTF-8,
and the record that YAML deserialisation produced.

Each record is keyed by its file stem, whatever its own `key` field says. A
later file with the same stem replaces the earlier one without an error. Every
top-level file is read as an item, whatever its extension.

## Model

| member | source | states |
|---|---|---|
| `Directory.GetFileStem` | src/directory.rs:19-28 | a file's key is its stem; a path without a stem gives `CouldNotReadFile` |
| `Directory.FileError` | src/directory.rs:34-39 | a file fails with `CouldNotReadFile` exactly when it lacks a stem or UTF-8 contents, with `YamlDeserialization` exactly when it has both but does not parse, and loads otherwise |
| `Directory.FirstError` | src/directory.rs:33-41 | no error exactly when every file of the sequence loads; an error is that of some file all of whose predecessors load |
| `Directory.FirstErrorAt` | src/directory.rs:33-41 | the first file that fails decides the error, whatever files follow it |
| `Directory.StemMap` | src/directory.rs:40 | inserting the records one by one gives a map with at most as many entries as there were files |
| `Directory.StemMapKeys` | src/directory.rs:33-41 | the keys of the built map are exactly the stems of the files |
| `Directory.StemMapLastWins` | src/directory.rs:40 | the record under a key comes from the last file with that stem |
| `Directory.SameStemOverwrites` | src/directory.rs:50 | two files with one stem: the second record replaces the first and no error is raised |
| `Directory.LoadDirectory` | src/directory.rs:30-53 | the two loops with early exits return exactly `Load`: `TagsDirNotFound` without a tags sub-directory, else the first tag file's error, else the first top-level file's error, else both maps |
| `Directory.LoadSucceedsIff` | src/directory.rs:30-53 | loading succeeds exactly when the tags sub-directory exists and every tag file and every top-level file loads |
| `Directory.LoadFirstError` | src/directory.rs:31-41 | a failing tag file decides the error before any top-level file is looked at |
| `Directory.LoadFirstItemError` | src/directory.rs:42-51 | once all tag files load, the first failing top-level file decides the error |
| `Directory.LoadErrorCause` | src/directory.rs:19-53 | `TagsDirNotFound` exactly when the sub-directory is missing; `CouldNotReadFile` only when some file lacks a stem or UTF-8 text; `YamlDeserialization` only when some readable file does not parse |
| `Directory.LoadContents` | src/directory.rs:30-53 | on success the tag keys are the stems of the tag files and the item keys are the stems of all top-level files; each map is no larger than its file list; each entry is the record of the last file with that stem |
| `DirectoryCheck.ConsistentIffNoViolation` | src/directory.rs:89-121 | a directory is consistent exactly when it has no unused tag and no unknown tag reference |
| `DirectoryCheck.FindTagUser` | src/directory.rs:94-100 | the search over the items, which stops at the first match, finds a user exactly when some item lists the tag |
| `DirectoryCheck.CheckDirectory` | src/directory.rs:89-121 | the check returns `Ok` exactly when every tag is used and every referenced tag exists; it returns `Err` exactly when something was logged; the log holds every violation and nothing else, so no tag or item is skipped |
| `DirectoryCheck.ReadAllDirectory` | src/directory.rs:85-122 | the test passes exactly when loading succeeds and the loaded directory is consistent; a load error is passed on unchanged |
| `DirectoryCheck.EmptyDirectoryConsistent` | src/directory.rs:89-121 | the empty directory passes the check |
| `DirectoryCheck.UnusedTagFails` | src/directory.rs:92-105 | a tag that no item lists is a violation and makes the check fail |
| `DirectoryCheck.UnknownTagFails` | src/directory.rs:107-115 | an item that lists a missing tag is a violation and makes the check fail |
| `DirectoryCheck.AddTagPreservesIff` | src/directory.rs:92-115 | adding a tag to a consistent directory keeps it consistent exactly when some item already lists that tag's key |

## Left out

- The embedding of the `directory` tree at build time and the `Dir`/`File` API (src/directory.rs:3, 7). The tree is an input value instead.
- `serde_yaml` deserialisation and `Path::file_stem` with its lossy conversion to a string. These are foreign library calls, so their outcomes are fields of `SourceFile`. The model does not tie `parsed` to the text in `utf8`.
- The logging through `tracing` and `pretty_env_logger`. The informational lines (`- tag`, `- item`) are dropped. The error lines are the returned `Violation` list.
- `url::Url` validation and the `Cow` wrappers on record fields. URLs are kept as their text, and every field is a plain `string`.
- The `usize` width of `created_in`. It is a `nat`, since no operation does arithmetic on it.
- `HashMap` iteration order. Both loops of the check pick the next key by an unspecified choice. The result does not depend on that order.
- src/lib.rs: a wrapper that only calls `load_directory`, and an ignored test that serialises to JSON and writes a file (I/O).
- DirectoryCheck.CheckDirectory: the log is specified as a set of violations. The Rust test writes one line per offending tag occurrence, so a repeated reference is logged twice. The model keeps those repeats but does not state their number or order.
