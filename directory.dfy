/**
 The directory records and their loader.

 The embedded file tree is an input value: each file carries the outcomes of
 the three foreign calls the loader makes on it (taking the path's stem,
 reading the contents as UTF-8 text, deserialising that text as YAML).
 Loading scans every tag file, then every top-level file, keys each parsed
 record by its file stem, and aborts with the first error it meets.
 */
module Directory {

  datatype Option<+T> = None | Some(value: T)

  /** Failure-compatible result, so that `:-` plays the part of Rust's `?`. */
  datatype Result<+T, +E> = Ok(value: T) | Err(error: E) {
    predicate IsFailure() { Err? }

    function PropagateFailure<U>(): Result<U, E>
      requires Err?
    {
      Err(error)
    }

    function Extract(): T
      requires Ok?
    {
      value
    }
  }

  /** The loader's error kinds. */
  datatype DirectoryError = TagsDirNotFound | CouldNotReadFile | YamlDeserialization

  /** A category. `key` is a field of the YAML record, distinct from the stem it is stored under. */
  datatype Tag = Tag(key: string, title: string, description: seq<string>)

  /** A directory entry; `url` and `backlink` are kept as their text. */
  datatype Item = Item(
    key: string,
    name: string,
    title: string,
    tags: seq<string>,
    createdIn: Option<nat>,
    description: seq<string>,
    url: string,
    backlink: Option<string>)

  /** The loaded data: both maps are keyed by file stem. */
  datatype Directory = Directory(tags: map<string, Tag>, items: map<string, Item>)

  /**
   One embedded file: `stem` is what the path's stem gives (None when the
   path has no file name), `utf8` the contents when they are valid UTF-8,
   `parsed` the record the YAML deserialiser produces from them, if any.
   */
  datatype SourceFile<R> = SourceFile(stem: Option<string>, utf8: Option<string>, parsed: Option<R>)

  /**
   The embedded tree: the files of the "tags" sub-directory (None when that
   sub-directory does not exist) and the files directly at the top level.
   */
  datatype FileSource = FileSource(tagsDir: Option<seq<SourceFile<Tag>>>, files: seq<SourceFile<Item>>)

  /** The key a file is stored under: its stem, or CouldNotReadFile when there is none. */
  function GetFileStem<R>(f: SourceFile<R>): (r: Result<string, DirectoryError>)
    ensures r.Ok? <==> f.stem.Some?
    ensures r.Ok? ==> r.value == f.stem.value
    ensures r.Err? ==> r.error == CouldNotReadFile
  {
    match f.stem
    case None => Err(CouldNotReadFile)
    case Some(s) => Ok(s)
  }

  /**
   The error that one iteration of a loading loop raises on `f`, if any:
   first the stem, then the UTF-8 contents, then the deserialisation.
   */
  function FileError<R>(f: SourceFile<R>): (e: Option<DirectoryError>)
    ensures e == Some(CouldNotReadFile) <==> f.stem.None? || f.utf8.None?
    ensures e == Some(YamlDeserialization) <==> f.stem.Some? && f.utf8.Some? && f.parsed.None?
    ensures e.None? <==> f.stem.Some? && f.utf8.Some? && f.parsed.Some?
  {
    if GetFileStem(f).Err? then Some(GetFileStem(f).error)
    else if f.utf8.None? then Some(CouldNotReadFile)
    else if f.parsed.None? then Some(YamlDeserialization)
    else None
  }

  predicate Readable<R>(f: SourceFile<R>) {
    FileError(f).None?
  }

  predicate AllReadable<R>(fs: seq<SourceFile<R>>) {
    forall i | 0 <= i < |fs| :: Readable(fs[i])
  }

  /** The error of the first file in `fs` that cannot be loaded, or None when every file loads. */
  function FirstError<R>(fs: seq<SourceFile<R>>): (e: Option<DirectoryError>)
    ensures e.None? <==> AllReadable(fs)
    ensures e.Some? ==> exists i | 0 <= i < |fs| :: FileError(fs[i]) == e && AllReadable(fs[..i])
  {
    if fs == [] then None
    else if FileError(fs[0]).Some? then
      assert fs[..0] == [];
      FileError(fs[0])
    else
      var e := FirstError(fs[1..]);
      assert AllReadable(fs[1..]) ==> AllReadable(fs) by {
        if AllReadable(fs[1..]) {
          forall i | 0 <= i < |fs| ensures Readable(fs[i]) {
            if i > 0 { assert fs[i] == fs[1..][i - 1]; }
          }
        }
      }
      if e.Some? then
        var i :| 0 <= i < |fs[1..]| && FileError(fs[1..][i]) == e && AllReadable(fs[1..][..i]);
        assert fs[1..][i] == fs[i + 1];
        var before := fs[..i + 1];
        assert AllReadable(before) by {
          forall j | 0 <= j < |before| ensures Readable(before[j]) {
            if j > 0 { assert before[j] == fs[1..][..i][j - 1]; }
          }
        }
        e
      else
        e
  }

  /** The first failing file decides the error, whatever follows it. */
  lemma {:induction false} FirstErrorAt<R>(fs: seq<SourceFile<R>>, i: nat)
    requires i < |fs| && AllReadable(fs[..i])
    ensures !Readable(fs[i]) ==> FirstError(fs) == FileError(fs[i])
  {
    if i > 0 {
      assert fs[0] == fs[..i][0];
      assert fs[1..][..i - 1] == fs[..i][1..];
      FirstErrorAt(fs[1..], i - 1);
      assert fs[1..][i - 1] == fs[i];
    }
  }

  /**
   The map built by inserting every file's record under its stem, in order
   (`HashMap::insert`: a later file overwrites an earlier one with the same stem).
   */
  function StemMap<R>(fs: seq<SourceFile<R>>): (m: map<string, R>)
    requires AllReadable(fs)
    ensures |m| <= |fs|
    decreases |fs|
  {
    if fs == [] then map[]
    else
      var last := fs[|fs| - 1];
      var init := fs[..|fs| - 1];
      assert AllReadable(init) by {
        forall j | 0 <= j < |init| ensures Readable(init[j]) {
          assert init[j] == fs[j];
        }
      }
      var m := StemMap(init);
      assert |m[last.stem.value := last.parsed.value]| <= |m| + 1;
      m[last.stem.value := last.parsed.value]
  }

  /** The stems of the files of `fs`. */
  ghost function Stems<R>(fs: seq<SourceFile<R>>): set<string>
    requires AllReadable(fs)
  {
    set i | 0 <= i < |fs| :: fs[i].stem.value
  }

  /** What `load_directory` returns for the tree `src`. */
  ghost function Load(src: FileSource): Result<Directory, DirectoryError> {
    match src.tagsDir
    case None => Err(TagsDirNotFound)
    case Some(tagFiles) =>
      match FirstError(tagFiles)
      case Some(e) => Err(e)
      case None =>
        match FirstError(src.files)
        case Some(e) => Err(e)
        case None => Ok(Directory(StemMap(tagFiles), StemMap(src.files)))
  }

  /** `load_directory`: two loops that fill a map each, leaving at the first error. */
  method LoadDirectory(src: FileSource) returns (r: Result<Directory, DirectoryError>)
    ensures r == Load(src)
  {
    if src.tagsDir.None? {
      return Err(TagsDirNotFound);
    }
    var tagsDir := src.tagsDir.value;
    var tags: map<string, Tag> := map[];
    for i := 0 to |tagsDir|
      invariant AllReadable(tagsDir[..i])
      invariant tags == StemMap(tagsDir[..i])
    {
      var tagFile := tagsDir[i];
      FirstErrorAt(tagsDir, i);
      var key :- GetFileStem(tagFile);
      if tagFile.utf8.None? {
        return Err(CouldNotReadFile);
      }
      if tagFile.parsed.None? {
        return Err(YamlDeserialization);
      }
      assert tagsDir[..i + 1][..i] == tagsDir[..i];
      tags := tags[key := tagFile.parsed.value];
    }
    assert tagsDir[..|tagsDir|] == tagsDir;
    var items: map<string, Item> := map[];
    for i := 0 to |src.files|
      invariant AllReadable(src.files[..i])
      invariant items == StemMap(src.files[..i])
    {
      var itemFile := src.files[i];
      FirstErrorAt(src.files, i);
      var key :- GetFileStem(itemFile);
      if itemFile.utf8.None? {
        return Err(CouldNotReadFile);
      }
      if itemFile.parsed.None? {
        return Err(YamlDeserialization);
      }
      assert src.files[..i + 1][..i] == src.files[..i];
      items := items[key := itemFile.parsed.value];
    }
    assert src.files[..|src.files|] == src.files;
    return Ok(Directory(tags, items));
  }

  /** The keys of the built map are exactly the stems of the files. */
  lemma {:induction false} StemMapKeys<R>(fs: seq<SourceFile<R>>)
    requires AllReadable(fs)
    ensures StemMap(fs).Keys == Stems(fs)
  {
    if fs != [] {
      var n := |fs| - 1;
      assert AllReadable(fs[..n]) by {
        forall j | 0 <= j < n ensures Readable(fs[..n][j]) {
          assert fs[..n][j] == fs[j];
        }
      }
      StemMapKeys(fs[..n]);
      assert Stems(fs) == Stems(fs[..n]) + {fs[n].stem.value} by {
        forall k | k in Stems(fs) ensures k in Stems(fs[..n]) + {fs[n].stem.value} {
          var i :| 0 <= i < |fs| && fs[i].stem.value == k;
          if i < n { assert fs[..n][i] == fs[i]; }
        }
        forall k | k in Stems(fs[..n]) ensures k in Stems(fs) {
          var i :| 0 <= i < n && fs[..n][i].stem.value == k;
          assert fs[..n][i] == fs[i];
        }
      }
    }
  }

  /**
   The record stored under a key is the one parsed from the LAST file with
   that stem: an insert overwrites, no duplicate is reported.
   */
  lemma {:induction false} StemMapLastWins<R>(fs: seq<SourceFile<R>>, k: string)
    requires AllReadable(fs) && k in StemMap(fs)
    ensures exists i | 0 <= i < |fs| ::
      && fs[i].stem == Some(k)
      && StemMap(fs)[k] == fs[i].parsed.value
      && forall j | i < j < |fs| :: fs[j].stem != Some(k)
  {
    var n := |fs| - 1;
    if fs[n].stem == Some(k) {
      assert fs[n].stem == Some(k) && StemMap(fs)[k] == fs[n].parsed.value;
    } else {
      assert AllReadable(fs[..n]) by {
        forall j | 0 <= j < n ensures Readable(fs[..n][j]) {
          assert fs[..n][j] == fs[j];
        }
      }
      StemMapLastWins(fs[..n], k);
      var i :| 0 <= i < n && fs[..n][i].stem == Some(k)
        && StemMap(fs[..n])[k] == fs[..n][i].parsed.value
        && forall j | i < j < n :: fs[..n][j].stem != Some(k);
      assert fs[..n][i] == fs[i];
      forall j | i < j < |fs| ensures fs[j].stem != Some(k) {
        if j < n { assert fs[..n][j] == fs[j]; }
      }
    }
  }

  /** Loading succeeds exactly when the tags sub-directory exists and every file loads. */
  lemma LoadSucceedsIff(src: FileSource)
    ensures Load(src).Ok? <==>
      src.tagsDir.Some? && AllReadable(src.tagsDir.value) && AllReadable(src.files)
  {
  }

  /**
   The error reported is the first one met: a missing tags sub-directory,
   else the first failing tag file, else the first failing top-level file.
   Tag files are thus all read before any item file.
   */
  lemma LoadFirstError(src: FileSource, i: nat)
    requires src.tagsDir.Some? && i < |src.tagsDir.value|
    requires AllReadable(src.tagsDir.value[..i]) && !Readable(src.tagsDir.value[i])
    ensures Load(src) == Err(FileError(src.tagsDir.value[i]).value)
  {
  }

  lemma LoadFirstItemError(src: FileSource, i: nat)
    requires src.tagsDir.Some? && AllReadable(src.tagsDir.value)
    requires i < |src.files| && AllReadable(src.files[..i]) && !Readable(src.files[i])
    ensures Load(src) == Err(FileError(src.files[i]).value)
  {
  }

  /** Every error kind comes from its own cause in the input. */
  lemma LoadErrorCause(src: FileSource)
    ensures Load(src) == Err(TagsDirNotFound) <==> src.tagsDir.None?
    ensures Load(src) == Err(CouldNotReadFile) ==>
      (exists f | f in src.tagsDir.value :: f.stem.None? || f.utf8.None?) ||
      (exists f | f in src.files :: f.stem.None? || f.utf8.None?)
    ensures Load(src) == Err(YamlDeserialization) ==>
      (exists f | f in src.tagsDir.value :: f.stem.Some? && f.utf8.Some? && f.parsed.None?) ||
      (exists f | f in src.files :: f.stem.Some? && f.utf8.Some? && f.parsed.None?)
  {
  }

  /**
   On success each map's keys are the stems of its files (every top-level
   file counts as an item, with no filter on its extension), each map has at
   most as many entries as there were files, and each entry is the record of
   the last file with that stem.
   */
  lemma LoadContents(src: FileSource)
    requires Load(src).Ok?
    ensures Load(src).value.tags.Keys == Stems(src.tagsDir.value)
    ensures Load(src).value.items.Keys == Stems(src.files)
    ensures |Load(src).value.tags| <= |src.tagsDir.value|
    ensures |Load(src).value.items| <= |src.files|
    ensures forall k | k in Load(src).value.items ::
      exists i | 0 <= i < |src.files| ::
        && src.files[i].stem == Some(k)
        && Load(src).value.items[k] == src.files[i].parsed.value
        && forall j | i < j < |src.files| :: src.files[j].stem != Some(k)
    ensures forall k | k in Load(src).value.tags ::
      exists i | 0 <= i < |src.tagsDir.value| ::
        && src.tagsDir.value[i].stem == Some(k)
        && Load(src).value.tags[k] == src.tagsDir.value[i].parsed.value
        && forall j | i < j < |src.tagsDir.value| :: src.tagsDir.value[j].stem != Some(k)
  {
    StemMapKeys(src.tagsDir.value);
    StemMapKeys(src.files);
    forall k | k in Load(src).value.items
      ensures exists i | 0 <= i < |src.files| ::
        && src.files[i].stem == Some(k)
        && Load(src).value.items[k] == src.files[i].parsed.value
        && forall j | i < j < |src.files| :: src.files[j].stem != Some(k)
    {
      StemMapLastWins(src.files, k);
    }
    forall k | k in Load(src).value.tags
      ensures exists i | 0 <= i < |src.tagsDir.value| ::
        && src.tagsDir.value[i].stem == Some(k)
        && Load(src).value.tags[k] == src.tagsDir.value[i].parsed.value
        && forall j | i < j < |src.tagsDir.value| :: src.tagsDir.value[j].stem != Some(k)
    {
      StemMapLastWins(src.tagsDir.value, k);
    }
  }

  /** Two files with one stem: the second record replaces the first, no error is raised. */
  lemma SameStemOverwrites<R>(k: string, a: R, b: R, ta: string, tb: string)
    ensures StemMap([SourceFile(Some(k), Some(ta), Some(a)), SourceFile(Some(k), Some(tb), Some(b))])
      == map[k := b]
  {
  }
}
