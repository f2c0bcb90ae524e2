// The name-keyed traversal the `query` command runs: relative package directories,
// the name → directory table, and the transitive internal dependencies of one
// package rendered as names or as directories.
module Dependencies {
  import opened Wrappers
  import opened Json
  import opened Paths
  import opened Collections
  import opened Graphs
  import opened PackageManifests

  /** `crate::io::PackageManifest`: a manifest seen only through its `name` and the
      rest of its top-level keys. */
  datatype IoManifest = IoManifest(name: string, extraFields: seq<Field>)

  datatype RelativePathError =
    | NotUnderRoot
      // the manifest path consists of the root alone, so it has no parent
    | InMonorepoRoot

  /** `relative_path_from_monorepo_root`: the manifest file's directory, relative to
      the monorepo root. */
  function RelativePathFromMonorepoRoot(root: Path, manifestFile: Path): (r: Result<Path, RelativePathError>)
    ensures r.Ok? <==> IsPrefix(root, manifestFile) && |manifestFile| > |root|
    ensures r == Err(NotUnderRoot) <==> !IsPrefix(root, manifestFile)
    ensures r.Ok? ==> root + r.value + [manifestFile[|manifestFile| - 1]] == manifestFile
  {
    match StripPrefix(manifestFile, root)
    case None => Err(NotUnderRoot)
    case Some(rel) =>
      match Parent(rel)
      case None => Err(InMonorepoRoot)
      case Some(dir) =>
        assert root + rel == manifestFile;
        assert dir + [rel[|rel| - 1]] == rel;
        Ok(dir)
  }

  /** The directory of `root/dir/filename` is `dir` again. */
  lemma RelativePathOfConfigFile(root: Path, dir: Path, filename: string)
    ensures RelativePathFromMonorepoRoot(root, root + dir + [Utf8(filename)]) == Ok(dir)
  {
    var file := root + dir + [Utf8(filename)];
    assert file[..|root|] == root;
    assert file[|root|..] == dir + [Utf8(filename)];
    assert (dir + [Utf8(filename)])[..|dir|] == dir;
  }

  // ---------------------------------------------------------------------------
  // The name → directory table.

  /** The fold of `key_internal_package_manifest_path_by_package_name` over the
      manifests in `order`, the iteration order of the `HashMap` it walks. */
  function KeyFold(root: Path, manifests: map<Path, IoManifest>, order: seq<Path>): (r: map<string, Path>)
    requires forall i :: 0 <= i < |order| ==> order[i] in manifests
    requires forall i :: 0 <= i < |order| ==> RelativePathFromMonorepoRoot(root, order[i]).Ok?
    ensures r.Keys == set i | 0 <= i < |order| :: manifests[order[i]].name
    ensures LastWins(root, manifests, order, r)
  {
    if order == [] then map[]
    else
      var prev := KeyFold(root, manifests, order[..|order| - 1]);
      var last := order[|order| - 1];
      var r := prev[manifests[last].name := RelativePathFromMonorepoRoot(root, last).value];
      KeyFoldKeys(manifests, order, order[..|order| - 1], prev, r);
      KeyFoldValues(root, manifests, order, prev, r);
      r
  }

  /** Every name is mapped to the directory of the last manifest in `order` with that name. */
  predicate LastWins(root: Path, manifests: map<Path, IoManifest>, order: seq<Path>, r: map<string, Path>)
    requires forall i :: 0 <= i < |order| ==> order[i] in manifests
    requires forall i :: 0 <= i < |order| ==> RelativePathFromMonorepoRoot(root, order[i]).Ok?
  {
    forall n :: n in r ==> exists i :: 0 <= i < |order| && LastNamed(manifests, order, n, i)
                                       && r[n] == RelativePathFromMonorepoRoot(root, order[i]).value
  }

  lemma KeyFoldKeys(manifests: map<Path, IoManifest>, order: seq<Path>, init: seq<Path>,
                    prev: map<string, Path>, r: map<string, Path>)
    requires order != [] && init == order[..|order| - 1] && forall i :: 0 <= i < |order| ==> order[i] in manifests
    requires prev.Keys == set i | 0 <= i < |init| :: manifests[init[i]].name
    requires r.Keys == prev.Keys + {manifests[order[|order| - 1]].name}
    ensures r.Keys == set i | 0 <= i < |order| :: manifests[order[i]].name
  {
    forall n | n in r
      ensures exists i :: 0 <= i < |order| && manifests[order[i]].name == n
    {
      if n != manifests[order[|order| - 1]].name {
        var i :| 0 <= i < |init| && manifests[init[i]].name == n;
        assert order[i] == init[i];
      }
    }
    forall i | 0 <= i < |order|
      ensures manifests[order[i]].name in r
    {
      if i < |init| {
        assert order[i] == init[i];
      }
    }
  }

  lemma KeyFoldValues(root: Path, manifests: map<Path, IoManifest>, order: seq<Path>, prev: map<string, Path>, r: map<string, Path>)
    requires order != [] && forall i :: 0 <= i < |order| ==> order[i] in manifests
    requires forall i :: 0 <= i < |order| ==> RelativePathFromMonorepoRoot(root, order[i]).Ok?
    requires LastWins(root, manifests, order[..|order| - 1], prev)
    requires r == prev[manifests[order[|order| - 1]].name := RelativePathFromMonorepoRoot(root, order[|order| - 1]).value]
    ensures LastWins(root, manifests, order, r)
  {
    var init := order[..|order| - 1];
    var last := order[|order| - 1];
    forall n | n in r
      ensures exists i :: LastNamed(manifests, order, n, i)
                          && r[n] == RelativePathFromMonorepoRoot(root, order[i]).value
    {
      if n == manifests[last].name {
        assert LastNamed(manifests, order, n, |order| - 1);
      } else {
        var i :| 0 <= i < |init| && LastNamed(manifests, init, n, i)
                && prev[n] == RelativePathFromMonorepoRoot(root, init[i]).value;
        LastNamedExtend(manifests, order, n, i);
      }
    }
  }

  /** `order[i]` is the last manifest in `order` named `n`. */
  predicate LastNamed(manifests: map<Path, IoManifest>, order: seq<Path>, n: string, i: int)
    requires forall j :: 0 <= j < |order| ==> order[j] in manifests
  {
    0 <= i < |order| && manifests[order[i]].name == n
    && forall j :: i < j < |order| ==> manifests[order[j]].name != n
  }

  lemma LastNamedExtend(manifests: map<Path, IoManifest>, order: seq<Path>, n: string, i: int)
    requires order != [] && forall j :: 0 <= j < |order| ==> order[j] in manifests
    requires LastNamed(manifests, order[..|order| - 1], n, i)
    requires manifests[order[|order| - 1]].name != n
    ensures LastNamed(manifests, order, n, i) && order[i] == order[..|order| - 1][i]
  {
    var init := order[..|order| - 1];
    forall j | i < j < |order|
      ensures manifests[order[j]].name != n
    {
      if j < |init| {
        assert order[j] == init[j];
      }
    }
  }

  /** `key_internal_package_manifest_path_by_package_name`: one key per distinct name;
      when two manifests share a name the one iterated last wins. */
  function KeyInternalPackageManifestPathByPackageName(root: Path, manifests: map<Path, IoManifest>, order: seq<Path>)
    : (r: map<string, Path>)
    requires Distinct(order) && Elems(order) == manifests.Keys
    requires forall p :: p in manifests ==> RelativePathFromMonorepoRoot(root, p).Ok?
    ensures r.Keys == set p | p in manifests :: manifests[p].name
  {
    var r := KeyFold(root, manifests, order);
    assert (set i | 0 <= i < |order| :: manifests[order[i]].name) == set p | p in manifests :: manifests[p].name by {
      forall p | p in manifests
        ensures exists i :: 0 <= i < |order| && order[i] == p
      {
        assert p in Elems(order);
      }
    }
    r
  }

  /** When no two manifests share a name the table is the same for every iteration
      order: each name maps to its own manifest's directory. */
  lemma KeyTableOfDistinctNames(root: Path, manifests: map<Path, IoManifest>, order: seq<Path>, p: Path)
    requires Distinct(order) && Elems(order) == manifests.Keys
    requires forall p :: p in manifests ==> RelativePathFromMonorepoRoot(root, p).Ok?
    requires forall p, q :: p in manifests && q in manifests && manifests[p].name == manifests[q].name ==> p == q
    requires p in manifests
    ensures KeyInternalPackageManifestPathByPackageName(root, manifests, order)[manifests[p].name]
            == RelativePathFromMonorepoRoot(root, p).value
  {
    var r := KeyFold(root, manifests, order);
    var n := manifests[p].name;
    assert p in Elems(order);
    var k :| 0 <= k < |order| && order[k] == p;
    assert n in r;
    assert LastWins(root, manifests, order, r);
    var i :| 0 <= i < |order| && LastNamed(manifests, order, n, i)
            && r[n] == RelativePathFromMonorepoRoot(root, order[i]).value;
    assert order[i] in Elems(order);
    assert order[i] == p;
  }

  // ---------------------------------------------------------------------------
  // The transitive traversal.

  /** `crate::opts::InternalDependenciesFormat`. */
  datatype InternalDependenciesFormat = NameFormat | PathFormat

  /** `crate::opts::InternalDependencies`: the monorepo root and the output format. */
  datatype QueryOptions = QueryOptions(root: Path, format: InternalDependenciesFormat)

  /** The closure's internal names: the four groups in order, filtered by the set of
      internal package names. */
  function InternalNames(m: IoManifest, internal: set<string>): (r: seq<string>)
    ensures forall i :: 0 <= i < |r| ==> r[i] in internal
  {
    var r := FilterInternal(DependencyNamesIn(m.extraFields), internal);
    assert forall i :: 0 <= i < |r| ==> r[i] in internal by {
      forall i | 0 <= i < |r|
        ensures r[i] in internal
      {
        assert multiset(r)[r[i]] > 0;
      }
    }
    r
  }

  /** The graph the name-keyed traversal walks. */
  function DependencyGraph(byName: map<string, IoManifest>, internal: set<string>): (g: Graph)
    ensures Targets(g) <= internal
  {
    var g := map n | n in byName :: Elems(InternalNames(byName[n], internal));
    assert Targets(g) <= internal by {
      forall m | m in Targets(g)
        ensures m in internal
      {
        var n :| n in g && m in g[n];
        var i :| 0 <= i < |InternalNames(byName[n], internal)| && InternalNames(byName[n], internal)[i] == m;
      }
    }
    g
  }

  /** How one dependency is reported: the stored manifest's name, or its directory
      relative to the root as a UTF-8 string; None where the source panics. */
  function Rendered(opts: QueryOptions, filenameByName: map<string, Path>, byName: map<string, IoManifest>,
                    n: string): (r: Option<string>)
    ensures opts.format == NameFormat ==> (r.Some? <==> n in byName)
    ensures opts.format == NameFormat && r.Some? ==> r.value == byName[n].name
    ensures opts.format == PathFormat ==>
              (r.Some? <==> n in filenameByName && RelativePathFromMonorepoRoot(opts.root, filenameByName[n]).Ok?
                            && IsUtf8(RelativePathFromMonorepoRoot(opts.root, filenameByName[n]).value))
    ensures opts.format == PathFormat && r.Some? ==>
              r.value == Render(RelativePathFromMonorepoRoot(opts.root, filenameByName[n]).value)
  {
    match opts.format
    case NameFormat => if n in byName then Some(byName[n].name) else None
    case PathFormat =>
      if n !in filenameByName then None
      else match RelativePathFromMonorepoRoot(opts.root, filenameByName[n])
        case Err(_) => None
        case Ok(dir) => ToStr(dir)
  }

  /** What a set of reached names is reported as. */
  function Image(opts: QueryOptions, filenameByName: map<string, Path>, byName: map<string, IoManifest>,
                 names: set<string>): set<string>
  {
    set n | n in names && Rendered(opts, filenameByName, byName, n).Some? :: Rendered(opts, filenameByName, byName, n).value
  }

  lemma ImageAdd(opts: QueryOptions, filenameByName: map<string, Path>, byName: map<string, IoManifest>,
                 names: set<string>, n: string)
    requires Rendered(opts, filenameByName, byName, n).Some?
    ensures Image(opts, filenameByName, byName, names + {n})
            == Image(opts, filenameByName, byName, names) + {Rendered(opts, filenameByName, byName, n).value}
  {
  }

  /** With the name format and a table whose keys are the names they store, the
      report is the reached names themselves. */
  lemma NameImage(opts: QueryOptions, filenameByName: map<string, Path>, byName: map<string, IoManifest>,
                  names: set<string>)
    requires opts.format == NameFormat && names <= byName.Keys
    requires forall k :: k in byName ==> byName[k].name == k
    ensures Image(opts, filenameByName, byName, names) == names
  {
    forall n | n in names
      ensures n in Image(opts, filenameByName, byName, names)
    {
      assert Rendered(opts, filenameByName, byName, n).value == n;
    }
  }

  /** The `for` loop over one manifest's internal names. */
  method VisitDependencies(opts: QueryOptions, filenameByName: map<string, Path>, byName: map<string, IoManifest>,
                           deps: seq<string>, queue: seq<string>, seen: set<string>,
                           ghost found: set<string>, reported: set<string>)
    returns (queue': seq<string>, ghost found': set<string>, reported': set<string>)
    requires forall i :: 0 <= i < |deps| ==> Rendered(opts, filenameByName, byName, deps[i]).Some?
    requires reported == Image(opts, filenameByName, byName, found)
    ensures found' == found + Elems(deps)
    ensures reported' == Image(opts, filenameByName, byName, found')
    ensures Elems(queue') == Elems(queue) + (Elems(deps) - seen)
    ensures CountSeen(queue', seen) == CountSeen(queue, seen)
  {
    queue', found', reported' := queue, found, reported;
    var j := 0;
    while j < |deps|
      invariant 0 <= j <= |deps|
      invariant found' == found + Elems(deps[..j])
      invariant reported' == Image(opts, filenameByName, byName, found')
      invariant Elems(queue') == Elems(queue) + (Elems(deps[..j]) - seen)
      invariant CountSeen(queue', seen) == CountSeen(queue, seen)
    {
      var dependency := deps[j];
      assert deps[..j + 1] == deps[..j] + [dependency];
      ElemsAppend(deps[..j], [dependency]);
      assert Elems([dependency]) == {dependency};
      var shown := Rendered(opts, filenameByName, byName, dependency).value;
      ImageAdd(opts, filenameByName, byName, found', dependency);
      reported' := reported' + {shown};
      found' := found' + {dependency};
      if dependency !in seen {
        ElemsAppend(queue', [dependency]);
        assert Elems([dependency]) == {dependency};
        CountSeenAppend(queue', dependency, seen);
        queue' := queue' + [dependency];
      }
      j := j + 1;
    }
    assert deps[..|deps|] == deps;
  }

  /** The successors of a package in the graph are its internal dependencies. */
  lemma DependencyGraphSucc(byName: map<string, IoManifest>, internal: set<string>, n: string)
    requires n in byName
    ensures Succ(DependencyGraph(byName, internal), n) == Elems(InternalNames(byName[n], internal))
  {
  }

  /** `transitive_internal_dependencies`: every internal package reachable from
      `packageName` by one or more edges, reported once each in the chosen format. */
  method TransitiveInternalDependencies(filenameByName: map<string, Path>, byName: map<string, IoManifest>,
                                        internal: set<string>, packageName: string, opts: QueryOptions)
    returns (r: seq<string>)
    requires packageName in byName
    requires Reachable(DependencyGraph(byName, internal), packageName) <= byName.Keys
    requires forall n :: n in Reachable(DependencyGraph(byName, internal), packageName)
                         ==> Rendered(opts, filenameByName, byName, n).Some?
    ensures Distinct(r)
    ensures Elems(r) == Image(opts, filenameByName, byName, Reachable(DependencyGraph(byName, internal), packageName))
  {
    ghost var g := DependencyGraph(byName, internal);
    var seen: set<string> := {};
    ghost var found: set<string> := {};
    var reported: set<string> := {};
    var queue := [packageName];
    TraversalInit(g, packageName);
    while queue != []
      invariant TraversalInv(g, packageName, queue, seen, found)
      invariant reported == Image(opts, filenameByName, byName, found)
      decreases |Universe(g, packageName) - seen|, CountSeen(queue, seen)
    {
      var current := queue[0];
      ghost var queue0, seen0, found0 := queue, seen, found;
      queue := queue[1..];
      seen := seen + {current};
      TraversalHead(g, packageName, queue0, seen0, found0);
      var deps := InternalNames(byName[current], internal);
      DependencyGraphSucc(byName, internal, current);
      ReachableStep(g, packageName, current);
      queue, found, reported := VisitDependencies(opts, filenameByName, byName, deps, queue, seen, found, reported);
      TraversalStep(g, packageName, queue0, seen0, found0, Elems(deps), queue, found);
    }
    TraversalDone(g, packageName, seen, found);
    r := SetToSeq(reported);
  }
}
