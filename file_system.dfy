// The monorepo's configuration files as a store of JSON documents keyed by their
// full path. Reading and writing a configuration file goes through this store.
module FileSystems {
  import opened Wrappers
  import opened Json
  import opened Paths

  /** Why reading a configuration file failed. */
  datatype FromFileError =
    | FileNotFound(path: Path)
      // the file holds JSON, but not the shape the configuration needs
    | InvalidContents(path: Path)

  /** `monorepo_root.join(directory).join(FILENAME)`. */
  function ConfigPath(root: Path, directory: Path, filename: string): (r: Path)
    ensures |r| == |root| + |directory| + 1
    ensures r[..|root|] == root && r[|root|..|root| + |directory|] == directory
    ensures r[|r| - 1] == Utf8(filename)
  {
    root + directory + [Utf8(filename)]
  }

  /** Distinct directories give distinct configuration paths. */
  lemma ConfigPathInjective(root: Path, d1: Path, d2: Path, filename: string)
    requires ConfigPath(root, d1, filename) == ConfigPath(root, d2, filename)
    ensures d1 == d2
  {
    var p := ConfigPath(root, d1, filename);
    assert d1 == p[|root|..|p| - 1];
  }

  lemma ConfigPathsDiffer(root: Path, d1: Path, d2: Path, filename: string)
    requires d1 != d2
    ensures ConfigPath(root, d1, filename) != ConfigPath(root, d2, filename)
  {
    if ConfigPath(root, d1, filename) == ConfigPath(root, d2, filename) {
      ConfigPathInjective(root, d1, d2, filename);
    }
  }

  /** `File::open` followed by `serde_json::from_reader` on a JSON value. */
  function ReadDocument(files: map<Path, Json>, path: Path): (r: Result<Json, FromFileError>)
    ensures r.Ok? <==> path in files
    ensures r.Ok? ==> r.value == files[path]
    ensures r.Err? ==> r.error == FileNotFound(path)
  {
    if path in files then Ok(files[path]) else Err(FileNotFound(path))
  }

  /** `f` and `g` hold the same documents at every path not named `filename`. */
  ghost predicate SameOutside(f: map<Path, Json>, g: map<Path, Json>, filename: string) {
    forall p :: (|p| == 0 || p[|p| - 1] != Utf8(filename)) ==> (p in f <==> p in g) && (p in f ==> f[p] == g[p])
  }

  /** A configuration file under another name reads the same from both stores. */
  lemma ReadDocumentOutside(f: map<Path, Json>, g: map<Path, Json>, filename: string, root: Path, directory: Path, other: string)
    requires SameOutside(f, g, filename) && other != filename
    ensures ReadDocument(f, ConfigPath(root, directory, other)) == ReadDocument(g, ConfigPath(root, directory, other))
  {
    var p := ConfigPath(root, directory, other);
    assert p[|p| - 1] != Utf8(filename);
  }

  // ---------------------------------------------------------------------------
  // A batch of writes.

  /** The paths a batch of writes touches. */
  function WritePaths(writes: set<(Path, Json)>): set<Path> {
    set w | w in writes :: w.0
  }

  /** `after` is `before` with every write of the batch applied in some order: the
      written paths exist and hold what one of their writes put there, and every other
      path is as it was. */
  ghost predicate WrittenBy(before: map<Path, Json>, writes: set<(Path, Json)>, after: map<Path, Json>) {
    && after.Keys == before.Keys + WritePaths(writes)
    && (forall p :: p in WritePaths(writes) ==> exists w :: w in writes && w.0 == p && after[p] == w.1)
    && (forall p :: p in before && p !in WritePaths(writes) ==> after[p] == before[p])
  }

  lemma SameOutsideTrans(f: map<Path, Json>, g: map<Path, Json>, h: map<Path, Json>, filename: string)
    requires SameOutside(f, g, filename) && SameOutside(g, h, filename)
    ensures SameOutside(f, h, filename)
  {
  }

  /** A path the batch does not touch is as it was. */
  lemma WrittenByUntouched(before: map<Path, Json>, writes: set<(Path, Json)>, after: map<Path, Json>, p: Path)
    requires WrittenBy(before, writes, after) && p !in WritePaths(writes)
    ensures (p in after <==> p in before) && (p in before ==> after[p] == before[p])
    ensures ReadDocument(after, p) == ReadDocument(before, p)
  {
  }

  lemma WrittenByNothing(files: map<Path, Json>)
    ensures WrittenBy(files, {}, files)
  {
  }

  /** Applying one more write extends the batch. */
  lemma WrittenByStep(before: map<Path, Json>, writes: set<(Path, Json)>, after: map<Path, Json>, w: (Path, Json))
    requires WrittenBy(before, writes, after)
    ensures WrittenBy(before, writes + {w}, after[w.0 := w.1])
  {
    var after' := after[w.0 := w.1];
    assert WritePaths(writes + {w}) == WritePaths(writes) + {w.0};
    forall p | p in WritePaths(writes + {w})
      ensures exists v :: v in writes + {w} && v.0 == p && after'[p] == v.1
    {
      if p == w.0 {
        assert w in writes + {w};
      } else {
        var v :| v in writes && v.0 == p && after[p] == v.1;
        assert v in writes + {w};
      }
    }
  }

  /** A path written only once holds that write's document. */
  lemma WrittenByUnique(before: map<Path, Json>, writes: set<(Path, Json)>, after: map<Path, Json>, w: (Path, Json))
    requires WrittenBy(before, writes, after) && w in writes
    requires forall v :: v in writes && v.0 == w.0 ==> v == w
    ensures w.0 in after && after[w.0] == w.1
  {
    assert w.0 in WritePaths(writes);
  }

  /** A batch that only writes files named `filename` leaves every other file alone. */
  lemma WrittenBySameOutside(before: map<Path, Json>, writes: set<(Path, Json)>, after: map<Path, Json>, filename: string)
    requires WrittenBy(before, writes, after)
    requires forall w :: w in writes ==> |w.0| > 0 && w.0[|w.0| - 1] == Utf8(filename)
    ensures SameOutside(before, after, filename)
  {
    forall p | |p| == 0 || p[|p| - 1] != Utf8(filename)
      ensures (p in before <==> p in after) && (p in before ==> before[p] == after[p])
    {
      assert p !in WritePaths(writes);
    }
  }

  class FileSystem {
    var files: map<Path, Json>

    constructor(files: map<Path, Json>)
      ensures this.files == files
    {
      this.files := files;
    }

    /** `File::create` and `serde_json::to_writer_pretty`: the document replaces
        whatever the file held. */
    method Write(path: Path, doc: Json)
      modifies this
      ensures files == old(files)[path := doc]
    {
      files := files[path := doc];
    }
  }
}
