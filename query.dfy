// `query internal-dependencies`: for every package lerna.json's globs find, the
// packages it depends on transitively inside the monorepo, keyed and listed by name or
// by directory.
module Query {
  import opened Wrappers
  import opened Json
  import opened Paths
  import opened Collections
  import opened Graphs
  import opened PackageManifests
  import opened MonorepoManifests
  import opened LernaManifests
  import Dependencies

  type Format = Dependencies.InternalDependenciesFormat

  /** How a package is shown under the format: its name, or its directory as text. */
  function Show(format: Format, m: Manifest): string
    requires format.PathFormat? ==> IsUtf8(m.directory)
  {
    match format
    case NameFormat => m.name
    case PathFormat => Render(m.directory)
  }

  /** Every stored manifest can be shown. */
  ghost predicate Showable(format: Format, byName: map<string, Manifest>) {
    format.PathFormat? ==> forall n :: n in byName ==> IsUtf8(byName[n].directory)
  }

  /** No two stored packages are shown alike. */
  ghost predicate ShowInjective(format: Format, byName: map<string, Manifest>)
    requires Showable(format, byName)
  {
    forall a, b :: a in byName && b in byName && Show(format, byName[a]) == Show(format, byName[b]) ==> a == b
  }

  /** The packages named in `names`, shown under the format. */
  ghost function ShownNames(format: Format, byName: map<string, Manifest>, names: set<string>): set<string>
    requires Showable(format, byName)
  {
    set d | d in names && d in byName :: Show(format, byName[d])
  }

  /** The names the dependencies of the package stored under `n` reach. */
  ghost function Reached(byName: map<string, Manifest>, n: string): set<string>
    requires n in byName
  {
    Reachable(ManifestGraph(byName, byName[n]), n)
  }

  /** `reach` records, for every stored package, the names it reaches. */
  ghost predicate Reaches(byName: map<string, Manifest>, reach: map<string, set<string>>) {
    && byName.Keys <= reach.Keys
    && forall n {:trigger Reached(byName, n)} :: n in byName ==> reach[n] == Reached(byName, n)
  }

  lemma ReachAt(byName: map<string, Manifest>, reach: map<string, set<string>>, n: string)
    requires Reaches(byName, reach) && n in byName
    ensures n in reach && reach[n] == Reachable(ManifestGraph(byName, byName[n]), n)
  {
    assert reach[n] == Reached(byName, n);
  }

  /** The table `reach` is for every package of the monorepo. */
  ghost function ReachedFrom(byName: map<string, Manifest>): (reach: map<string, set<string>>)
    ensures Reaches(byName, reach)
  {
    map n | n in byName :: Reached(byName, n)
  }

  /** The keys the query should produce: every stored package, shown under the format. */
  ghost function ShownKeys(format: Format, byName: map<string, Manifest>): set<string>
    requires Showable(format, byName)
  {
    set n | n in byName :: Show(format, byName[n])
  }

  /** `values` is what the package shown as `k` reaches, shown under the format, each
      once when no two packages are shown alike. */
  ghost predicate Entry(format: Format, byName: map<string, Manifest>, reach: map<string, set<string>>,
                        k: string, values: seq<string>)
    requires Showable(format, byName)
  {
    exists n :: n in byName && n in reach && Show(format, byName[n]) == k
                && Elems(values) == ShownNames(format, byName, reach[n])
                && (ShowInjective(format, byName) ==> Distinct(values))
  }

  /** What the query promises of its table: one key per stored package under the
      format, and under each key what that package reaches. */
  ghost predicate Answers(format: Format, byName: map<string, Manifest>, reach: map<string, set<string>>,
                          r: map<string, seq<string>>)
    requires Showable(format, byName)
  {
    r.Keys == ShownKeys(format, byName) && forall k :: k in r ==> Entry(format, byName, reach, k, r[k])
  }

  /** The `map(...)` over the traversal's manifests: each shown under the format. */
  function ShowAll(format: Format, deps: seq<Manifest>): (r: seq<string>)
    requires format.PathFormat? ==> forall j :: 0 <= j < |deps| ==> IsUtf8(deps[j].directory)
    ensures |r| == |deps| && forall j :: 0 <= j < |deps| ==> r[j] == Show(format, deps[j])
  {
    seq(|deps|, j requires 0 <= j < |deps| => Show(format, deps[j]))
  }

  /** Showing the stored manifests of some names gives exactly those names shown. */
  lemma ShowAllElems(format: Format, byName: map<string, Manifest>, deps: seq<Manifest>, names: set<string>)
    requires Showable(format, byName)
    requires forall j :: 0 <= j < |deps| ==> deps[j].name in byName && deps[j] == byName[deps[j].name]
    requires Elems(NamesOf(deps)) == names
    ensures Elems(ShowAll(format, deps)) == ShownNames(format, byName, names)
  {
    var values := ShowAll(format, deps);
    forall v | v in Elems(values)
      ensures v in ShownNames(format, byName, names)
    {
      var j :| 0 <= j < |values| && values[j] == v;
      assert NamesOf(deps)[j] in Elems(NamesOf(deps));
    }
    forall v | v in ShownNames(format, byName, names)
      ensures v in Elems(values)
    {
      var d :| d in names && d in byName && Show(format, byName[d]) == v;
      assert d in Elems(NamesOf(deps));
      var j :| 0 <= j < |deps| && NamesOf(deps)[j] == d;
      assert values[j] == v;
    }
  }

  /** Showing distinct stored manifests gives distinct strings when no two packages are
      shown alike. */
  lemma ShowAllDistinct(format: Format, byName: map<string, Manifest>, deps: seq<Manifest>)
    requires Showable(format, byName) && ShowInjective(format, byName)
    requires forall j :: 0 <= j < |deps| ==> deps[j].name in byName && deps[j] == byName[deps[j].name]
    requires Distinct(deps)
    ensures Distinct(ShowAll(format, deps))
  {
    var values := ShowAll(format, deps);
    DistinctMeaning(deps);
    DistinctMeaning(values);
    forall j, k | 0 <= j < k < |values|
      ensures values[j] != values[k]
    {
      assert deps[j] == byName[deps[j].name] && deps[k] == byName[deps[k].name];
    }
  }

  /** The list made for one package: the traversal's manifests shown under the format,
      exactly the packages reachable from it, each once when no two are shown alike. */
  method ShowDependencies(format: Format, byName: map<string, Manifest>, ghost reach: map<string, set<string>>, n: string)
    returns (values: seq<string>)
    requires Consistent(byName) && Showable(format, byName) && Reaches(byName, reach) && n in byName
    ensures Elems(values) == ShownNames(format, byName, reach[n])
    ensures ShowInjective(format, byName) ==> Distinct(values)
    ensures Entry(format, byName, reach, Show(format, byName[n]), values)
  {
    var deps := TransitiveInternalDependencyPackageNames(byName[n], byName);
    ReachAt(byName, reach, n);
    ShowAllElems(format, byName, deps, reach[n]);
    if ShowInjective(format, byName) {
      ShowAllDistinct(format, byName, deps);
    }
    values := ShowAll(format, deps);
  }

  /** The fold over the table, in the order `HashMap` iteration yields the packages:
      under the name format the key is the table's key, under the path format the
      directory; a later package shown alike replaces an earlier one. */
  method QueryTable(format: Format, byName: map<string, Manifest>, ghost reach: map<string, set<string>>)
    returns (r: map<string, seq<string>>)
    requires Consistent(byName) && Showable(format, byName) && Reaches(byName, reach)
    ensures Answers(format, byName, reach, r)
  {
    var names := SetToSeq(byName.Keys);
    r := map[];
    ghost var shown: set<string> := {};
    for i := 0 to |names|
      invariant shown == ShownNames(format, byName, Elems(names[..i]))
      invariant r.Keys == shown
      invariant forall k :: k in r ==> Entry(format, byName, reach, k, r[k])
    {
      var name := names[i];
      assert name in Elems(names);
      var key := Show(format, byName[name]);
      var values := ShowDependencies(format, byName, reach, name);
      ShownNamesStep(format, byName, names, i);
      r := r[key := values];
      shown := shown + {key};
    }
    ShownAll(format, byName, names);
  }

  /** Once every stored name is shown, the shown names are the expected keys. */
  lemma ShownAll(format: Format, byName: map<string, Manifest>, names: seq<string>)
    requires Showable(format, byName) && Elems(names) == byName.Keys
    ensures ShownNames(format, byName, Elems(names[..|names|])) == ShownKeys(format, byName)
  {
    assert names[..|names|] == names;
  }

  /** Showing one more name of the list adds that name's shown form. */
  lemma ShownNamesStep(format: Format, byName: map<string, Manifest>, names: seq<string>, i: nat)
    requires Showable(format, byName) && i < |names| && names[i] in byName
    ensures ShownNames(format, byName, Elems(names[..i + 1]))
            == ShownNames(format, byName, Elems(names[..i])) + {Show(format, byName[names[i]])}
  {
    assert names[..i + 1] == names[..i] + [names[i]];
    ElemsAppend(names[..i], [names[i]]);
  }

  /** `query_internal_dependencies`: read lerna.json's manifests, key them by name, and
      build the table; reading lerna.json and, under the path format, rendering the
      directory of a package kept in the by-name table are `expect`s the caller must
      satisfy (a manifest shadowed by a later one of the same name is never rendered). */
  method QueryInternalDependencies(files: map<Path, Json>, root: Path, walk: GlobWalk, format: Format)
    returns (r: map<string, seq<string>>)
    requires WalksBelowRoot(walk, root)
    requires ReadLernaManifest(files, root, walk).Ok?
    requires Showable(format, PackageManifestsByPackageName(ReadLernaManifest(files, root, walk).value))
    ensures var byName := PackageManifestsByPackageName(ReadLernaManifest(files, root, walk).value);
            Showable(format, byName) && Answers(format, byName, ReachedFrom(byName), r)
  {
    var lerna := LernaManifest.FromDirectory(files, root, walk);
    var byName := lerna.value.PackageManifestsByName();
    r := QueryTable(format, byName, ReachedFrom(byName));
  }

  /** When no two packages are shown alike, each package's entry is found under its own
      key and lists what it reaches, each once. */
  lemma EntryOfPackage(format: Format, byName: map<string, Manifest>, r: map<string, seq<string>>, n: string)
    requires Showable(format, byName) && ShowInjective(format, byName) && n in byName
    requires Answers(format, byName, ReachedFrom(byName), r)
    ensures Show(format, byName[n]) in r
    ensures Elems(r[Show(format, byName[n])]) == ShownNames(format, byName, Reached(byName, n))
    ensures Distinct(r[Show(format, byName[n])])
  {
    var k := Show(format, byName[n]);
    var reach := ReachedFrom(byName);
    assert k in ShownKeys(format, byName);
    assert Entry(format, byName, reach, k, r[k]);
    var m :| m in byName && m in reach && Show(format, byName[m]) == k
             && Elems(r[k]) == ShownNames(format, byName, reach[m])
             && (ShowInjective(format, byName) ==> Distinct(r[k]));
    assert m == n;
    assert reach[n] == Reached(byName, n);
  }

  /** Under the name format no two packages are shown alike, the keys are the package
      names, and each list is the set of names reached. */
  lemma NameFormatEntries(byName: map<string, Manifest>, n: string)
    requires Consistent(byName)
    ensures ShowInjective(Dependencies.NameFormat, byName)
    ensures ShownKeys(Dependencies.NameFormat, byName) == byName.Keys
    ensures n in byName ==> ShownNames(Dependencies.NameFormat, byName, Reached(byName, n)) == Reached(byName, n)
  {
    var format := Dependencies.NameFormat;
    assert ShownKeys(format, byName) == byName.Keys by {
      forall k | k in byName
        ensures k in ShownKeys(format, byName)
      {
        assert Show(format, byName[k]) == k;
      }
    }
    if n in byName {
      var g := ManifestGraph(byName, byName[n]);
      forall d | d in Reached(byName, n)
        ensures d in ShownNames(format, byName, Reached(byName, n))
      {
        assert Show(format, byName[d]) == d;
      }
    }
  }
}
