// The monorepo index: which package.json files belong to the monorepo (found by a
// glob walk over the patterns lerna.json or the root package.json lists), the
// manifests read from them, and the name → manifest table built from those.
module MonorepoManifests {
  import opened Wrappers
  import opened Json
  import opened Paths
  import opened FileSystems
  import opened PackageManifests

  const LernaManifestFilename: string := "lerna.json"
  const NodeModulesPattern: string := "!node_modules/"

  /** The glob patterns handed to the walker: each package glob joined with
      "package.json", then the node_modules exclusion, last. */
  function ManifestPatterns(globs: seq<string>): (r: seq<string>)
    ensures |r| == |globs| + 1 && r[|globs|] == NodeModulesPattern
    ensures forall i :: 0 <= i < |globs| ==> r[i] == JoinStr(globs[i], ManifestFilename)
  {
    seq(|globs|, i requires 0 <= i < |globs| => JoinStr(globs[i], ManifestFilename)) + [NodeModulesPattern]
  }

  /** Every pattern but the last starts with its glob and names a package.json. */
  lemma PatternsNameManifests(globs: seq<string>, i: int)
    requires 0 <= i < |globs|
    ensures var p := ManifestPatterns(globs)[i];
            |p| >= |globs[i]| + |ManifestFilename| && p[..|globs[i]|] == globs[i]
            && p[|p| - |ManifestFilename|..] == ManifestFilename
  {
  }

  /** One item of the glob walk: a file found, or an entry the walker could not read. */
  datatype WalkEntry = Found(path: Path) | WalkError

  /** The glob walk itself (`GlobWalkerBuilder`, files only, at depth one or more). */
  type GlobWalk = (Path, seq<string>) -> seq<WalkEntry>

  /** A file found at depth one or more lies strictly below the root. */
  predicate BelowRoot(root: Path, paths: seq<Path>) {
    forall i :: 0 <= i < |paths| ==> IsPrefix(root, paths[i]) && |paths[i]| > |root|
  }

  ghost predicate WalksBelowRoot(walk: GlobWalk, root: Path) {
    forall patterns :: BelowRoot(root, FoundPaths(walk(root, patterns)))
  }

  /** `filter_map(Result::ok)`: the found files, in walk order; unreadable entries are dropped. */
  function FoundPaths(entries: seq<WalkEntry>): (r: seq<Path>)
    ensures |r| <= |entries|
    ensures forall p :: p in r <==> Found(p) in entries
  {
    if entries == [] then []
    else
      var rest := FoundPaths(entries[1..]);
      assert entries == [entries[0]] + entries[1..];
      match entries[0]
      case Found(p) => [p] + rest
      case WalkError => rest
  }

  /** `path().parent()` with the root stripped: the package's directory. */
  function EntryDirectory(root: Path, file: Path): (r: Path)
    requires IsPrefix(root, file) && |file| > |root|
    ensures root + r + [file[|file| - 1]] == file
  {
    assert file == file[..|root|] + file[|root|..|file| - 1] + [file[|file| - 1]];
    file[|root|..|file| - 1]
  }

  /** `PackageManifest::from_directory` on the directory of a found file. */
  function ReadEntry(files: map<Path, Json>, root: Path, file: Path): Result<Manifest, FromFileError>
    requires IsPrefix(root, file) && |file| > |root|
  {
    ReadManifest(files, root, EntryDirectory(root, file))
  }

  /** `paths[i]` is the first file whose read fails, and it fails with `e`. */
  predicate FirstFailure(files: map<Path, Json>, root: Path, paths: seq<Path>, i: int, e: FromFileError)
    requires BelowRoot(root, paths)
  {
    0 <= i < |paths| && ReadEntry(files, root, paths[i]) == Err(e)
    && forall j :: 0 <= j < i ==> ReadEntry(files, root, paths[j]).Ok?
  }

  /** The read of every found package.json, in the order the walk found them. */
  function ReadEntries(files: map<Path, Json>, root: Path, paths: seq<Path>): (r: seq<Result<Manifest, FromFileError>>)
    requires BelowRoot(root, paths)
    ensures |r| == |paths| && forall i :: 0 <= i < |paths| ==> r[i] == ReadEntry(files, root, paths[i])
  {
    seq(|paths|, i requires 0 <= i < |paths| => ReadEntry(files, root, paths[i]))
  }

  /** Reading every found package.json; `collect` into a `Result` stops at the first
      failure. */
  function LoadManifests(files: map<Path, Json>, root: Path, paths: seq<Path>): (r: Result<seq<Manifest>, FromFileError>)
    requires BelowRoot(root, paths)
    ensures r.Ok? <==> forall i :: 0 <= i < |paths| ==> ReadEntry(files, root, paths[i]).Ok?
    ensures r.Ok? ==> |r.value| == |paths|
    ensures r.Ok? ==> forall i :: 0 <= i < |paths| ==> ReadEntry(files, root, paths[i]) == Ok(r.value[i])
  {
    CollectResults(ReadEntries(files, root, paths))
  }

  /** The error reported is that of the first file that fails to read. */
  lemma LoadFailsAtFirst(files: map<Path, Json>, root: Path, paths: seq<Path>)
    requires BelowRoot(root, paths) && LoadManifests(files, root, paths).Err?
    ensures exists i :: FirstFailure(files, root, paths, i, LoadManifests(files, root, paths).error)
  {
    var results := ReadEntries(files, root, paths);
    var i := CollectFailsAtFirst(results);
    assert FirstFailure(files, root, paths, i, LoadManifests(files, root, paths).error);
  }

  /** Every manifest read carries the directory of the file it was read from. */
  lemma LoadedDirectories(files: map<Path, Json>, root: Path, paths: seq<Path>, i: int)
    requires BelowRoot(root, paths) && LoadManifests(files, root, paths).Ok? && 0 <= i < |paths|
    ensures LoadManifests(files, root, paths).value[i].directory == EntryDirectory(root, paths[i])
  {
  }

  /** `get_internal_package_manifests`: the walk over the patterns, then the reads. */
  function GetInternalPackageManifests(files: map<Path, Json>, root: Path, globs: seq<string>, walk: GlobWalk)
    : (r: Result<seq<Manifest>, FromFileError>)
    requires WalksBelowRoot(walk, root)
  {
    var paths := FoundPaths(walk(root, ManifestPatterns(globs)));
    assert BelowRoot(root, paths);
    LoadManifests(files, root, paths)
  }

  // ---------------------------------------------------------------------------
  // Where the package globs come from.

  /** `MonorepoManifest { internal_package_manifests }`. */
  datatype MonorepoManifest = MonorepoManifest(internalPackageManifests: seq<Manifest>)

  /** Deserialising a `{ <key>: [String] }` shape: other keys are ignored. */
  function StringListMember(doc: Json, key: string): (r: Option<seq<string>>)
    ensures r.Some? <==> Member(doc, key).Some? && AsStrings(Member(doc, key).value).Some?
    ensures r.Some? ==> AsStrings(Member(doc, key).value) == r
  {
    match Member(doc, key)
    case None => None
    case Some(v) => AsStrings(v)
  }

  /** The package globs a root file lists under `key`; a missing file or a document of
      the wrong shape is an error. */
  function ReadGlobs(files: map<Path, Json>, root: Path, filename: string, key: string): (r: Result<seq<string>, FromFileError>)
    ensures r.Ok? <==> ConfigPath(root, [], filename) in files
                       && StringListMember(files[ConfigPath(root, [], filename)], key).Some?
    ensures r.Ok? ==> Some(r.value) == StringListMember(files[ConfigPath(root, [], filename)], key)
  {
    var path := ConfigPath(root, [], filename);
    match ReadDocument(files, path)
    case Err(e) => Err(e)
    case Ok(doc) =>
      match StringListMember(doc, key)
      case None => Err(InvalidContents(path))
      case Some(globs) => Ok(globs)
  }

  /** `from_lerna_manifest`: the globs under lerna.json's `packages`. */
  function FromLernaManifest(files: map<Path, Json>, root: Path, walk: GlobWalk): (r: Result<MonorepoManifest, FromFileError>)
    requires WalksBelowRoot(walk, root)
    ensures r.Ok? <==> ReadGlobs(files, root, LernaManifestFilename, "packages").Ok?
                       && GetInternalPackageManifests(files, root, ReadGlobs(files, root, LernaManifestFilename, "packages").value, walk).Ok?
  {
    var globs :- ReadGlobs(files, root, LernaManifestFilename, "packages");
    var ms :- GetInternalPackageManifests(files, root, globs, walk);
    Ok(MonorepoManifest(ms))
  }

  /** `from_package_manifest`: the globs under the root package.json's `workspaces`. */
  function FromPackageManifest(files: map<Path, Json>, root: Path, walk: GlobWalk): (r: Result<MonorepoManifest, FromFileError>)
    requires WalksBelowRoot(walk, root)
    ensures r.Ok? <==> ReadGlobs(files, root, ManifestFilename, "workspaces").Ok?
                       && GetInternalPackageManifests(files, root, ReadGlobs(files, root, ManifestFilename, "workspaces").value, walk).Ok?
  {
    var globs :- ReadGlobs(files, root, ManifestFilename, "workspaces");
    var ms :- GetInternalPackageManifests(files, root, globs, walk);
    Ok(MonorepoManifest(ms))
  }

  /** `from_directory`: lerna.json first; the root package.json only when that fails. */
  function FromDirectory(files: map<Path, Json>, root: Path, walk: GlobWalk): (r: Result<MonorepoManifest, FromFileError>)
    requires WalksBelowRoot(walk, root)
    ensures FromLernaManifest(files, root, walk).Ok? ==> r == FromLernaManifest(files, root, walk)
    ensures FromLernaManifest(files, root, walk).Err? ==> r == FromPackageManifest(files, root, walk)
  {
    match FromLernaManifest(files, root, walk)
    case Ok(m) => Ok(m)
    case Err(_) => FromPackageManifest(files, root, walk)
  }

  /** Without a lerna.json the workspaces of the root package.json are used. */
  lemma NoLernaFallsBack(files: map<Path, Json>, root: Path, walk: GlobWalk)
    requires WalksBelowRoot(walk, root)
    requires ConfigPath(root, [], LernaManifestFilename) !in files
    ensures FromDirectory(files, root, walk) == FromPackageManifest(files, root, walk)
  {
  }

  /** Reading the monorepo looks at lerna.json and package.json files only: stores that
      agree outside the files named `filename` give the same index. */
  lemma LoadManifestsOutside(f: map<Path, Json>, g: map<Path, Json>, filename: string, root: Path, paths: seq<Path>)
    requires SameOutside(f, g, filename) && filename != ManifestFilename && BelowRoot(root, paths)
    ensures LoadManifests(f, root, paths) == LoadManifests(g, root, paths)
  {
    forall i | 0 <= i < |paths|
      ensures ReadEntry(f, root, paths[i]) == ReadEntry(g, root, paths[i])
    {
      ReadDocumentOutside(f, g, filename, root, EntryDirectory(root, paths[i]), ManifestFilename);
    }
    assert ReadEntries(f, root, paths) == ReadEntries(g, root, paths);
  }

  lemma FromDirectoryOutside(f: map<Path, Json>, g: map<Path, Json>, filename: string, root: Path, walk: GlobWalk)
    requires WalksBelowRoot(walk, root)
    requires SameOutside(f, g, filename) && filename != ManifestFilename && filename != LernaManifestFilename
    ensures FromDirectory(f, root, walk) == FromDirectory(g, root, walk)
  {
    FromGlobsOutside(f, g, filename, root, walk, LernaManifestFilename, "packages");
    FromGlobsOutside(f, g, filename, root, walk, ManifestFilename, "workspaces");
    assert FromLernaManifest(f, root, walk) == FromLernaManifest(g, root, walk);
    assert FromPackageManifest(f, root, walk) == FromPackageManifest(g, root, walk);
  }

  /** Reading the globs from one root file and loading what they match does not look
      at another file. */
  lemma FromGlobsOutside(f: map<Path, Json>, g: map<Path, Json>, filename: string, root: Path, walk: GlobWalk,
                         source: string, key: string)
    requires WalksBelowRoot(walk, root)
    requires SameOutside(f, g, filename) && filename != ManifestFilename && filename != source
    ensures ReadGlobs(f, root, source, key) == ReadGlobs(g, root, source, key)
    ensures ReadGlobs(f, root, source, key).Ok? ==>
              GetInternalPackageManifests(f, root, ReadGlobs(f, root, source, key).value, walk)
              == GetInternalPackageManifests(g, root, ReadGlobs(f, root, source, key).value, walk)
  {
    ReadDocumentOutside(f, g, filename, root, [], source);
    assert ReadGlobs(f, root, source, key) == ReadGlobs(g, root, source, key);
    if ReadGlobs(f, root, source, key).Ok? {
      var globs := ReadGlobs(f, root, source, key).value;
      LoadManifestsOutside(f, g, filename, root, FoundPaths(walk(root, ManifestPatterns(globs))));
    }
  }

  /** Every manifest of the index is what reading its own directory gives. */
  lemma LoadedReadBack(files: map<Path, Json>, root: Path, paths: seq<Path>, i: int)
    requires BelowRoot(root, paths) && LoadManifests(files, root, paths).Ok? && 0 <= i < |paths|
    ensures ReadManifest(files, root, LoadManifests(files, root, paths).value[i].directory) == Ok(LoadManifests(files, root, paths).value[i])
  {
    LoadedDirectories(files, root, paths, i);
  }

  lemma ManifestsReadBack(files: map<Path, Json>, root: Path, walk: GlobWalk, i: int)
    requires WalksBelowRoot(walk, root) && FromDirectory(files, root, walk).Ok?
    requires 0 <= i < |FromDirectory(files, root, walk).value.internalPackageManifests|
    ensures var m := FromDirectory(files, root, walk).value.internalPackageManifests[i];
            ReadManifest(files, root, m.directory) == Ok(m)
  {
    var lerna := ReadGlobs(files, root, LernaManifestFilename, "packages");
    var globs := if FromLernaManifest(files, root, walk).Ok? then lerna.value
                 else ReadGlobs(files, root, ManifestFilename, "workspaces").value;
    var paths := FoundPaths(walk(root, ManifestPatterns(globs)));
    assert BelowRoot(root, paths);
    LoadedReadBack(files, root, paths, i);
  }

  // ---------------------------------------------------------------------------
  // The name → manifest table.

  /** `manifests[i]` is the last manifest in the list named `n`. */
  predicate LastWithName(manifests: seq<Manifest>, n: string, i: int) {
    0 <= i < |manifests| && manifests[i].name == n
    && forall j :: i < j < |manifests| ==> manifests[j].name != n
  }

  /** `package_manifests_by_package_name` and `into_package_manifests_by_package_name`:
      collecting `(name, manifest)` pairs into a `HashMap`, so a later manifest with a
      name already seen replaces the earlier one. */
  function PackageManifestsByPackageName(manifests: seq<Manifest>): (r: map<string, Manifest>)
    ensures r.Keys == set i | 0 <= i < |manifests| :: manifests[i].name
    ensures Consistent(r)
    ensures forall n :: n in r ==> exists i :: 0 <= i < |manifests| && LastWithName(manifests, n, i) && r[n] == manifests[i]
  {
    if manifests == [] then map[]
    else
      var init := manifests[..|manifests| - 1];
      var last := manifests[|manifests| - 1];
      var prev := PackageManifestsByPackageName(init);
      var r := prev[last.name := last];
      ByNameKeys(manifests, init, prev, r);
      ByNameValues(manifests, init, prev, r);
      r
  }

  lemma ByNameKeys(manifests: seq<Manifest>, init: seq<Manifest>, prev: map<string, Manifest>, r: map<string, Manifest>)
    requires manifests != [] && init == manifests[..|manifests| - 1]
    requires prev.Keys == set i | 0 <= i < |init| :: init[i].name
    requires r.Keys == prev.Keys + {manifests[|manifests| - 1].name}
    ensures r.Keys == set i | 0 <= i < |manifests| :: manifests[i].name
  {
    forall n | n in r
      ensures exists i :: 0 <= i < |manifests| && manifests[i].name == n
    {
      if n != manifests[|manifests| - 1].name {
        var i :| 0 <= i < |init| && init[i].name == n;
        assert manifests[i] == init[i];
      }
    }
    forall i | 0 <= i < |manifests|
      ensures manifests[i].name in r
    {
      if i < |init| {
        assert manifests[i] == init[i];
      }
    }
  }

  lemma ByNameValues(manifests: seq<Manifest>, init: seq<Manifest>, prev: map<string, Manifest>, r: map<string, Manifest>)
    requires manifests != [] && init == manifests[..|manifests| - 1]
    requires forall n :: n in prev ==> exists i :: 0 <= i < |init| && LastWithName(init, n, i) && prev[n] == init[i]
    requires r == prev[manifests[|manifests| - 1].name := manifests[|manifests| - 1]]
    ensures forall n :: n in r ==> exists i :: 0 <= i < |manifests| && LastWithName(manifests, n, i) && r[n] == manifests[i]
  {
    var last := manifests[|manifests| - 1];
    forall n | n in r
      ensures exists i :: 0 <= i < |manifests| && LastWithName(manifests, n, i) && r[n] == manifests[i]
    {
      if n == last.name {
        assert LastWithName(manifests, n, |manifests| - 1);
      } else {
        var i :| 0 <= i < |init| && LastWithName(init, n, i) && prev[n] == init[i];
        forall j | i < j < |manifests|
          ensures manifests[j].name != n
        {
          if j < |init| {
            assert manifests[j] == init[j];
          }
        }
        assert manifests[i] == init[i];
        assert LastWithName(manifests, n, i);
      }
    }
  }

  /** With distinct names, every manifest is found under its own name. */
  lemma ByNameOfDistinctNames(manifests: seq<Manifest>, i: int)
    requires forall j, k :: 0 <= j < k < |manifests| ==> manifests[j].name != manifests[k].name
    requires 0 <= i < |manifests|
    ensures PackageManifestsByPackageName(manifests)[manifests[i].name] == manifests[i]
  {
    var r := PackageManifestsByPackageName(manifests);
    var n := manifests[i].name;
    assert n in r;
    var k :| 0 <= k < |manifests| && LastWithName(manifests, n, k) && r[n] == manifests[k];
  }
}
