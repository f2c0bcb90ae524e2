// `make-depend`: the values the makefile template receives for one package — its
// transitive internal dependencies' manifest files, and where each dependency's
// `npm pack` archive is copied from and to.
module MakeDepends {
  import opened Wrappers
  import opened Json
  import opened Paths
  import opened Collections
  import opened Graphs
  import opened FileSystems
  import opened PackageManifests
  import opened MonorepoManifests
  import opened LernaManifests

  datatype MakeDependOptions = MakeDependOptions(root: Path, packageDirectory: Path, outputFile: Path,
                                                 createPackTarget: bool)

  /** The fields of `MakefileTemplate`. */
  datatype MakefileTemplate = MakefileTemplate(
    root: string,
    outputFile: string,
    packageDirectory: string,
    scopedPackageName: string,
    unscopedPackageName: string,
    packArchiveFilename: string,
    internalDependencyPackageJsonFilenamesInclusive: seq<string>,
    createPackTarget: bool,
    npmPackArchiveDependencies: map<string, string>,
    internalNpmDependenciesExclusive: seq<string>)

  /** The makefile: the file `fs::write` creates and the values its text is rendered from. */
  datatype Makefile = Makefile(path: Path, template: MakefileTemplate)

  /** A `?` that returns a read error, or an `expect` that panics with its message. */
  datatype MakeDependError = ReadFailed(error: FromFileError) | Panicked(message: string)

  const PackFilenameNotUtf8: string := "npm pack filename is not UTF-8 encodable"
  const RootNotUtf8: string := "Monorepo root is not UTF_8 encodable"
  const OutputFileNotUtf8: string := "Output file is not UTF-8 encodable"
  const PackageDirectoryNotUtf8: string := "Package directory is not UTF-8 encodable"

  const InternalNpmDependenciesDirectory: string := ".internal-npm-dependencies"

  // ---------------------------------------------------------------------------
  // The pack archives.

  /** Where the makefile copies a dependency's archive: a file named like the archive,
      in the package's `.internal-npm-dependencies` directory. */
  function PackArchiveTarget(m: Manifest, dependency: Manifest): (r: Path)
    ensures IsUtf8(r) <==> IsUtf8(m.directory)
  {
    var r := m.directory + [Utf8(InternalNpmDependenciesDirectory), Utf8(NpmPackFileBasename(dependency))];
    assert forall i :: 0 <= i < |m.directory| ==> r[i] == m.directory[i];
    r
  }

  /** Both halves of a dependency's entry can be turned into text. */
  predicate PackUtf8(m: Manifest, dependency: Manifest) {
    IsUtf8(PackArchiveTarget(m, dependency)) && IsUtf8(NpmPackFilename(dependency))
  }

  /** An entry fails to render exactly when the package's or the dependency's
      directory is not UTF-8. */
  lemma PackUtf8Meaning(m: Manifest, dependency: Manifest)
    ensures PackUtf8(m, dependency) <==> IsUtf8(m.directory) && IsUtf8(dependency.directory)
  {
    var source := NpmPackFilename(dependency);
    if IsUtf8(source) {
      assert forall i :: 0 <= i < |dependency.directory| ==> dependency.directory[i] == source[i];
    }
  }

  predicate AllUtf8(paths: seq<Path>) {
    forall i :: 0 <= i < |paths| ==> IsUtf8(paths[i])
  }

  /** `to_str` of every path, in order. */
  function RenderAll(paths: seq<Path>): (r: seq<string>)
    requires AllUtf8(paths)
    ensures |r| == |paths| && forall i :: 0 <= i < |paths| ==> r[i] == Render(paths[i])
  {
    seq(|paths|, i requires 0 <= i < |paths| => Render(paths[i]))
  }

  lemma RenderAllSnoc(paths: seq<Path>, p: Path)
    requires AllUtf8(paths) && IsUtf8(p)
    ensures AllUtf8(paths + [p]) && RenderAll(paths + [p]) == RenderAll(paths) + [Render(p)]
  {
    assert forall i :: 0 <= i < |paths| ==> (paths + [p])[i] == paths[i];
  }

  /** Every dependency's target path. */
  function TargetPaths(m: Manifest, deps: seq<Manifest>): (r: seq<Path>)
    ensures |r| == |deps| && forall i :: 0 <= i < |deps| ==> r[i] == PackArchiveTarget(m, deps[i])
  {
    if deps == [] then []
    else
      var init := deps[..|deps| - 1];
      assert forall i :: 0 <= i < |init| ==> init[i] == deps[i];
      TargetPaths(m, init) + [PackArchiveTarget(m, deps[|deps| - 1])]
  }

  /** Every dependency's `npm_pack_filename`. */
  function SourcePaths(deps: seq<Manifest>): (r: seq<Path>)
    ensures |r| == |deps| && forall i :: 0 <= i < |deps| ==> r[i] == NpmPackFilename(deps[i])
  {
    if deps == [] then []
    else
      var init := deps[..|deps| - 1];
      assert forall i :: 0 <= i < |init| ==> init[i] == deps[i];
      SourcePaths(init) + [NpmPackFilename(deps[|deps| - 1])]
  }

  predicate AllPackUtf8(m: Manifest, deps: seq<Manifest>) {
    AllUtf8(TargetPaths(m, deps)) && AllUtf8(SourcePaths(deps))
  }

  /** `keys[i]` is the last occurrence of `k`. */
  predicate LastAt<K(==)>(keys: seq<K>, k: K, i: int) {
    0 <= i < |keys| && keys[i] == k && forall j :: i < j < |keys| ==> keys[j] != k
  }

  /** `r` is what collecting the pairs `(keys[i], values[i])` into a `HashMap` gives: one
      entry per key, holding the value paired with its last occurrence. */
  ghost predicate Collected<K, V>(keys: seq<K>, values: seq<V>, r: map<K, V>)
    requires |keys| == |values|
  {
    r.Keys == Elems(keys) && forall k :: k in r ==> exists i :: LastAt(keys, k, i) && r[k] == values[i]
  }

  /** Inserting the next pair into the map collected from the ones before it. */
  lemma CollectedStep<K, V>(keys: seq<K>, values: seq<V>, r: map<K, V>, k: K, v: V)
    requires |keys| == |values| && Collected(keys, values, r)
    ensures Collected(keys + [k], values + [v], r[k := v])
  {
    var keys', values', r' := keys + [k], values + [v], r[k := v];
    ElemsAppend(keys, [k]);
    forall x | x in r'
      ensures exists i :: LastAt(keys', x, i) && r'[x] == values'[i]
    {
      if x == k {
        assert LastAt(keys', x, |keys|);
      } else {
        var i :| LastAt(keys, x, i) && r[x] == values[i];
        assert LastAt(keys', x, i);
      }
    }
  }

  /** Pairs with distinct keys give one entry each. */
  lemma CollectedDistinct<K, V>(keys: seq<K>, values: seq<V>, r: map<K, V>)
    requires |keys| == |values| && Collected(keys, values, r) && Distinct(keys)
    ensures |r| == |keys|
  {
    DistinctCard(keys);
  }

  /** The pack-archive map of the dependencies `deps`, in that order: each target's text
      holds the source text of the last dependency with that target. */
  ghost predicate PackMap(m: Manifest, deps: seq<Manifest>, pack: map<string, string>)
    requires AllPackUtf8(m, deps)
  {
    Collected(RenderAll(TargetPaths(m, deps)), RenderAll(SourcePaths(deps)), pack)
  }

  /** One more dependency adds its target and its source at the end. */
  lemma PairsSnoc(m: Manifest, deps: seq<Manifest>, i: nat)
    requires i < |deps|
    ensures TargetPaths(m, deps[..i + 1]) == TargetPaths(m, deps[..i]) + [PackArchiveTarget(m, deps[i])]
    ensures SourcePaths(deps[..i + 1]) == SourcePaths(deps[..i]) + [NpmPackFilename(deps[i])]
  {
    var next := deps[..i + 1];
    assert next[..|next| - 1] == deps[..i] && next[|next| - 1] == deps[i];
  }

  /** The `map(...).collect()` into `npm_pack_archive_dependencies`: the first pair that
      cannot be turned into text panics, otherwise every pair is inserted in order. */
  method NpmPackArchiveDependencies(m: Manifest, deps: seq<Manifest>) returns (r: Result<map<string, string>, string>)
    ensures r.Ok? <==> AllPackUtf8(m, deps)
    ensures r.Err? ==> r.error == PackFilenameNotUtf8
    ensures r.Ok? ==> PackMap(m, deps, r.value)
  {
    var pack: map<string, string> := map[];
    for i := 0 to |deps|
      invariant AllPackUtf8(m, deps[..i])
      invariant PackMap(m, deps[..i], pack)
    {
      var dependency := deps[i];
      var target := ToStr(PackArchiveTarget(m, dependency));
      var source := ToStr(NpmPackFilename(dependency));
      PairsSnoc(m, deps, i);
      if target.None? || source.None? {
        assert !AllPackUtf8(m, deps) by {
          assert TargetPaths(m, deps)[i] == PackArchiveTarget(m, dependency);
          assert SourcePaths(deps)[i] == NpmPackFilename(dependency);
        }
        return Err(PackFilenameNotUtf8);
      }
      RenderAllSnoc(TargetPaths(m, deps[..i]), PackArchiveTarget(m, dependency));
      RenderAllSnoc(SourcePaths(deps[..i]), NpmPackFilename(dependency));
      CollectedStep(RenderAll(TargetPaths(m, deps[..i])), RenderAll(SourcePaths(deps[..i])), pack, target.value, source.value);
      pack := pack[target.value := source.value];
    }
    assert deps[..|deps|] == deps;
    r := Ok(pack);
  }

  /** Two dependencies share a target, and so a single map entry, exactly when their
      archives have the same name. */
  lemma TargetsCollide(m: Manifest, d1: Manifest, d2: Manifest)
    requires IsUtf8(m.directory)
    ensures Render(PackArchiveTarget(m, d1)) == Render(PackArchiveTarget(m, d2))
            <==> NpmPackFileBasename(d1) == NpmPackFileBasename(d2)
  {
    var dir := m.directory + [Utf8(InternalNpmDependenciesDirectory)];
    RenderSnoc(m.directory, InternalNpmDependenciesDirectory);
    var prefix := Render(dir) + "/";
    var b1, b2 := NpmPackFileBasename(d1), NpmPackFileBasename(d2);
    assert PackArchiveTarget(m, d1) == dir + [Utf8(b1)];
    assert PackArchiveTarget(m, d2) == dir + [Utf8(b2)];
    RenderSnoc(dir, b1);
    RenderSnoc(dir, b2);
    assert (prefix + b1)[|prefix|..] == b1 && (prefix + b2)[|prefix|..] == b2;
  }

  /** When no two dependencies' archives have the same name, the map has one entry per
      dependency. */
  lemma PackMapOnePerDependency(m: Manifest, deps: seq<Manifest>, pack: map<string, string>)
    requires AllPackUtf8(m, deps) && PackMap(m, deps, pack)
    requires forall i, j :: 0 <= i < j < |deps| ==> NpmPackFileBasename(deps[i]) != NpmPackFileBasename(deps[j])
    ensures |pack| == |deps|
  {
    var targets := RenderAll(TargetPaths(m, deps));
    forall i, j | 0 <= i < j < |targets|
      ensures targets[i] != targets[j]
    {
      assert TargetPaths(m, deps)[i] == PackArchiveTarget(m, deps[i]);
      TargetsCollide(m, deps[i], deps[j]);
    }
    DistinctMeaning(targets);
    CollectedDistinct(targets, RenderAll(SourcePaths(deps)), pack);
  }

  // ---------------------------------------------------------------------------
  // The package.json filenames.

  /** `internal_dependency_package_directories_inclusive`: the `path()` of every
      dependency, in order, then the package's own pushed last. */
  method InclusivePaths(m: Manifest, exclusive: seq<Manifest>) returns (paths: seq<Path>)
    ensures |paths| == |exclusive| + 1 && paths[|exclusive|] == ManifestPath(m)
    ensures forall i :: 0 <= i < |exclusive| ==> paths[i] == ManifestPath(exclusive[i])
  {
    paths := seq(|exclusive|, i requires 0 <= i < |exclusive| => ManifestPath(exclusive[i]));
    paths := paths + [ManifestPath(m)];
  }

  /** The `internal_dependency_package_json_filenames_inclusive` values as the code
      computes them: `path()` already names package.json, and the code joins
      "package.json" onto it once more. */
  function PackageJsonFilenamesAsWritten(paths: seq<Path>): (r: seq<string>)
    requires AllUtf8(paths)
    ensures |r| == |paths|
    ensures forall i :: 0 <= i < |paths| ==>
              IsUtf8(paths[i] + [Utf8(ManifestFilename)]) && r[i] == Render(paths[i] + [Utf8(ManifestFilename)])
  {
    seq(|paths|, i requires 0 <= i < |paths| => (RenderSnoc(paths[i], ManifestFilename); Render(paths[i] + [Utf8(ManifestFilename)])))
  }

  /** As written, every value is the intended one followed by a second "/package.json",
      so none of them names a manifest file. */
  lemma PackageJsonJoinedTwice(paths: seq<Path>, i: nat)
    requires AllUtf8(paths) && i < |paths|
    ensures PackageJsonFilenamesAsWritten(paths)[i] == RenderAll(paths)[i] + "/package.json"
            || (paths[i] == [] && PackageJsonFilenamesAsWritten(paths)[i] == "package.json")
    ensures PackageJsonFilenamesAsWritten(paths)[i] != RenderAll(paths)[i]
  {
    RenderSnoc(paths[i], ManifestFilename);
    if paths[i] == [] {
      assert Render(paths[i]) == "";
    }
  }

  /** The as-written value for the package in directory `a`. */
  lemma PackageJsonJoinedTwiceExample(extraFields: seq<Field>)
    ensures var m := Manifest([Utf8("a")], "a", "1.0.0", extraFields);
            PackageJsonFilenamesAsWritten([ManifestPath(m)]) == ["a/package.json/package.json"]
            && RenderAll([ManifestPath(m)]) == ["a/package.json"]
  {
    var m := Manifest([Utf8("a")], "a", "1.0.0", extraFields);
    var p := ManifestPath(m);
    assert Render(p) == "a/package.json" by {
      assert Texts([Utf8("a")]) == ["a"];
      RenderSnoc([Utf8("a")], ManifestFilename);
    }
    assert Render(p + [Utf8(ManifestFilename)]) == "a/package.json/package.json" by {
      RenderSnoc(p, ManifestFilename);
    }
  }

  /** The intended value of a manifest: its directory's text, then "/package.json" —
      the file `PackageManifest::from_directory` reads, relative to the root. */
  lemma PackageJsonFilenameOfManifest(m: Manifest)
    requires IsUtf8(m.directory)
    ensures IsUtf8(ManifestPath(m))
    ensures RenderAll([ManifestPath(m)])[0]
            == if m.directory == [] then ManifestFilename else Render(m.directory) + "/" + ManifestFilename
  {
    RenderSnoc(m.directory, ManifestFilename);
  }

  // ---------------------------------------------------------------------------
  // The panics, and the template.

  /** The message of the first `expect` that fails, in the order `make_dependency_makefile`
      runs them: the pack-archive pairs (built before the template), then the root, the
      output file and the package directory. */
  function FirstPanic(opts: MakeDependOptions, m: Manifest, exclusive: seq<Manifest>): Option<string> {
    if !AllPackUtf8(m, exclusive) then Some(PackFilenameNotUtf8)
    else if !IsUtf8(opts.root) then Some(RootNotUtf8)
    else if !IsUtf8(opts.outputFile) then Some(OutputFileNotUtf8)
    else if !IsUtf8(m.directory) then Some(PackageDirectoryNotUtf8)
    else None
  }

  /** No `expect` fails exactly when every path involved is UTF-8; then the package's own
      archive name and every package.json filename render too, so the two later
      `expect`s ("npm pack filename" for the package, "Internal package directory")
      can never fire. */
  lemma NoPanicMeaning(opts: MakeDependOptions, m: Manifest, exclusive: seq<Manifest>, paths: seq<Path>)
    requires |paths| == |exclusive| + 1 && paths[|exclusive|] == ManifestPath(m)
    requires forall i :: 0 <= i < |exclusive| ==> paths[i] == ManifestPath(exclusive[i])
    ensures FirstPanic(opts, m, exclusive).None?
            <==> IsUtf8(opts.root) && IsUtf8(opts.outputFile) && IsUtf8(m.directory)
                 && forall i :: 0 <= i < |exclusive| ==> IsUtf8(exclusive[i].directory)
    ensures FirstPanic(opts, m, exclusive).None? ==> IsUtf8(NpmPackFilename(m)) && AllUtf8(paths)
  {
    forall i | 0 <= i < |exclusive|
      ensures PackUtf8(m, exclusive[i]) <==> IsUtf8(m.directory) && IsUtf8(exclusive[i].directory)
    {
      PackUtf8Meaning(m, exclusive[i]);
    }
    if FirstPanic(opts, m, exclusive).None? {
      PackUtf8Meaning(m, m);
      forall i | 0 <= i < |paths|
        ensures IsUtf8(paths[i])
      {
        if i < |exclusive| {
          RenderSnoc(exclusive[i].directory, ManifestFilename);
        } else {
          RenderSnoc(m.directory, ManifestFilename);
        }
      }
    }
  }

  /** The package.json filenames as the code computes them: one per dependency, in
      order, then the package's own, each `path()` with "package.json" joined onto it
      again. */
  predicate JoinedTwice(m: Manifest, exclusive: seq<Manifest>, values: seq<string>) {
    && |values| == |exclusive| + 1
    && (forall i :: 0 <= i < |exclusive| ==>
          IsUtf8(ManifestPath(exclusive[i]) + [Utf8(ManifestFilename)])
          && values[i] == Render(ManifestPath(exclusive[i]) + [Utf8(ManifestFilename)]))
    && IsUtf8(ManifestPath(m) + [Utf8(ManifestFilename)])
    && values[|exclusive|] == Render(ManifestPath(m) + [Utf8(ManifestFilename)])
  }

  /** The template's values for the package `m` whose dependencies, in the order the
      traversal yields them, are `exclusive`. The package.json filenames are the ones
      the code computes: each `path()` with "package.json" joined onto it again. */
  ghost predicate Fills(opts: MakeDependOptions, m: Manifest, exclusive: seq<Manifest>, t: MakefileTemplate)
    requires FirstPanic(opts, m, exclusive).None?
  {
    && t.root == Render(opts.root)
    && t.outputFile == Render(opts.outputFile)
    && t.packageDirectory == Render(m.directory)
    && t.scopedPackageName == m.name
    && t.unscopedPackageName == UnscopedPackageName(m.name)
    && IsUtf8(NpmPackFilename(m)) && t.packArchiveFilename == Render(NpmPackFilename(m))
    && JoinedTwice(m, exclusive, t.internalDependencyPackageJsonFilenamesInclusive)
    && t.createPackTarget == opts.createPackTarget
    && PackMap(m, exclusive, t.npmPackArchiveDependencies)
    && Distinct(t.internalNpmDependenciesExclusive)
    && Elems(t.internalNpmDependenciesExclusive) == t.npmPackArchiveDependencies.Keys
  }

  /** What building the makefile for `m` and its dependencies `exclusive` yields: the first
      failing `expect`'s panic, or the makefile in the package directory with the
      template's values. */
  ghost predicate Builds(opts: MakeDependOptions, m: Manifest, exclusive: seq<Manifest>, r: Result<Makefile, MakeDependError>) {
    match FirstPanic(opts, m, exclusive)
    case Some(message) => r == Err(Panicked(message))
    case None => r.Ok? && r.value.path == opts.packageDirectory + opts.outputFile
                 && Fills(opts, m, exclusive, r.value.template)
  }

  /** Everything after the dependencies are known: the pack map, then the template. */
  method BuildMakefile(opts: MakeDependOptions, m: Manifest, exclusive: seq<Manifest>)
    returns (r: Result<Makefile, MakeDependError>)
    ensures Builds(opts, m, exclusive, r)
  {
    var inclusive := InclusivePaths(m, exclusive);
    var pack := NpmPackArchiveDependencies(m, exclusive);
    if pack.Err? {
      return Err(Panicked(pack.error));
    }
    var root := ToStr(opts.root);
    if root.None? {
      return Err(Panicked(RootNotUtf8));
    }
    var outputFile := ToStr(opts.outputFile);
    if outputFile.None? {
      return Err(Panicked(OutputFileNotUtf8));
    }
    var packageDirectory := ToStr(m.directory);
    if packageDirectory.None? {
      return Err(Panicked(PackageDirectoryNotUtf8));
    }
    NoPanicMeaning(opts, m, exclusive, inclusive);
    var packArchiveFilename := Render(NpmPackFilename(m));
    var filenames := PackageJsonFilenamesAsWritten(inclusive);
    var keys := SetToSeq(pack.value.Keys);
    var t := MakefileTemplate(root.value, outputFile.value, packageDirectory.value, m.name,
                              UnscopedPackageName(m.name), packArchiveFilename, filenames,
                              opts.createPackTarget, pack.value, keys);
    r := Ok(Makefile(opts.packageDirectory + opts.outputFile, t));
  }

  /** The template with the package.json filenames the code evidently means: each
      package's `path()`, the manifest file itself, joined once. */
  function IntendedTemplate(t: MakefileTemplate, m: Manifest, exclusive: seq<Manifest>): (r: MakefileTemplate)
    requires IsUtf8(ManifestPath(m)) && forall i :: 0 <= i < |exclusive| ==> IsUtf8(ManifestPath(exclusive[i]))
  {
    t.(internalDependencyPackageJsonFilenamesInclusive :=
         RenderAll(seq(|exclusive|, i requires 0 <= i < |exclusive| => ManifestPath(exclusive[i])) + [ManifestPath(m)]))
  }

  /** With the intended values every filename names the manifest of its package, and
      every value the code computes is the intended one followed by a second
      "/package.json"; nothing else in the template changes. */
  lemma IntendedTemplateMeaning(m: Manifest, exclusive: seq<Manifest>, t: MakefileTemplate)
    requires JoinedTwice(m, exclusive, t.internalDependencyPackageJsonFilenamesInclusive)
    ensures IsUtf8(ManifestPath(m)) && forall i :: 0 <= i < |exclusive| ==> IsUtf8(ManifestPath(exclusive[i]))
    ensures var r := IntendedTemplate(t, m, exclusive).internalDependencyPackageJsonFilenamesInclusive;
            && |r| == |exclusive| + 1
            && (forall i :: 0 <= i < |exclusive| ==> r[i] == Render(exclusive[i].directory + [Utf8(ManifestFilename)]))
            && r[|exclusive|] == Render(m.directory + [Utf8(ManifestFilename)])
            && forall i :: 0 <= i <= |exclusive| ==> t.internalDependencyPackageJsonFilenamesInclusive[i] == r[i] + "/" + ManifestFilename
    ensures IntendedTemplate(t, m, exclusive).(internalDependencyPackageJsonFilenamesInclusive := t.internalDependencyPackageJsonFilenamesInclusive) == t
  {
    var values := t.internalDependencyPackageJsonFilenamesInclusive;
    forall i | 0 <= i < |exclusive|
      ensures IsUtf8(ManifestPath(exclusive[i]))
      ensures values[i] == Render(ManifestPath(exclusive[i])) + "/" + ManifestFilename
    {
      JoinedAgain(ManifestPath(exclusive[i]));
    }
    JoinedAgain(ManifestPath(m));
  }

  /** Joining "package.json" onto a UTF-8 path `p` that is not empty renders as `p`
      followed by "/package.json". */
  lemma JoinedAgain(p: Path)
    requires IsUtf8(p + [Utf8(ManifestFilename)]) && p != []
    ensures IsUtf8(p)
    ensures Render(p + [Utf8(ManifestFilename)]) == Render(p) + "/" + ManifestFilename
  {
    var q := p + [Utf8(ManifestFilename)];
    forall i | 0 <= i < |p|
      ensures p[i].Utf8?
    {
      assert q[i] == p[i];
    }
    RenderSnoc(p, ManifestFilename);
  }

  /** The stored manifests of the packages `names` names. */
  ghost function StoredManifests(byName: map<string, Manifest>, names: set<string>): set<Manifest> {
    set n | n in names && n in byName :: byName[n]
  }

  /** The stored manifests of every package `m`'s dependencies reach. */
  ghost function DependencyManifests(byName: map<string, Manifest>, m: Manifest): set<Manifest> {
    StoredManifests(byName, Reachable(ManifestGraph(byName, m), m.name))
  }

  /** Manifests that are each stored under their own name are the stored manifests of
      their names. */
  lemma ExclusiveManifests(byName: map<string, Manifest>, exclusive: seq<Manifest>, names: set<string>)
    requires Elems(NamesOf(exclusive)) == names
    requires forall i :: 0 <= i < |exclusive| ==> exclusive[i].name in byName && exclusive[i] == byName[exclusive[i].name]
    ensures Elems(exclusive) == StoredManifests(byName, names)
  {
    forall d | d in Elems(exclusive)
      ensures d in StoredManifests(byName, names)
    {
      var i :| 0 <= i < |exclusive| && exclusive[i] == d;
      assert NamesOf(exclusive)[i] in Elems(NamesOf(exclusive));
    }
    forall d | d in StoredManifests(byName, names)
      ensures d in Elems(exclusive)
    {
      var n :| n in names && n in byName && byName[n] == d;
      assert n in Elems(NamesOf(exclusive));
      var i :| 0 <= i < |exclusive| && NamesOf(exclusive)[i] == n;
      assert exclusive[i] == d;
    }
  }

  /** `make_dependency_makefile`: read lerna.json and the package's manifest, passing
      their errors on, find the package's transitive internal dependencies, and build
      the makefile from them (rendering the template and writing the file are not part
      of this model). */
  method MakeDependencyMakefile(files: map<Path, Json>, walk: GlobWalk, opts: MakeDependOptions)
    returns (r: Result<Makefile, MakeDependError>)
    requires WalksBelowRoot(walk, opts.root)
    ensures ReadLernaManifest(files, opts.root, walk).Err?
            ==> r == Err(ReadFailed(ReadLernaManifest(files, opts.root, walk).error))
    ensures ReadLernaManifest(files, opts.root, walk).Ok? && ReadManifest(files, opts.root, opts.packageDirectory).Err?
            ==> r == Err(ReadFailed(ReadManifest(files, opts.root, opts.packageDirectory).error))
    ensures ReadLernaManifest(files, opts.root, walk).Ok? && ReadManifest(files, opts.root, opts.packageDirectory).Ok?
            ==> var m := ReadManifest(files, opts.root, opts.packageDirectory).value;
                var byName := PackageManifestsByPackageName(ReadLernaManifest(files, opts.root, walk).value);
                exists exclusive :: Distinct(exclusive) && Elems(exclusive) == DependencyManifests(byName, m)
                                    && Builds(opts, m, exclusive, r)
  {
    var lerna := LernaManifest.FromDirectory(files, opts.root, walk);
    if lerna.Err? {
      return Err(ReadFailed(lerna.error));
    }
    var manifest := ReadManifest(files, opts.root, opts.packageDirectory);
    if manifest.Err? {
      return Err(ReadFailed(manifest.error));
    }
    var byName := lerna.value.PackageManifestsByName();
    var exclusive := TransitiveInternalDependencyPackageNames(manifest.value, byName);
    ExclusiveManifests(byName, exclusive, Reachable(ManifestGraph(byName, manifest.value), manifest.value.name));
    r := BuildMakefile(opts, manifest.value, exclusive);
    assert Distinct(exclusive) && Elems(exclusive) == DependencyManifests(byName, manifest.value)
           && Builds(opts, manifest.value, exclusive, r);
  }
}
