// `lint dependency-version`: for each listed dependency, the packages of the monorepo
// that declare it are bucketed by the version they declare, and every package outside
// the most common bucket is reported. Nothing is written.
module Lint {
  import opened Wrappers
  import opened Json
  import opened Paths
  import opened Collections
  import opened FileSystems
  import opened PackageManifests
  import opened MonorepoManifests

  // ---------------------------------------------------------------------------
  // What one package declares.

  /** `get_dependency_version`: the version a package's manifest gives a dependency,
      if any; it is not part of this model, so the lint takes it as a parameter. */
  type VersionReader = (Manifest, string) -> Option<string>

  /** `path().into_os_string().into_string()`: the package's manifest file relative to
      the monorepo root, as text; the source stops with "Path not UTF-8 encoded" for a
      directory that is not UTF-8. */
  function PathString(m: Manifest): string
    requires IsUtf8(m.directory)
  {
    var p := ManifestPath(m);
    assert forall i :: 0 <= i < |p| ==> p[i].Utf8? by {
      forall i | 0 <= i < |p|
        ensures p[i].Utf8?
      {
        if i < |m.directory| {
          assert p[i] == m.directory[i];
        }
      }
    }
    Render(p)
  }

  /** A package and the version of the dependency it declares. */
  datatype Declaration = Declaration(package: Manifest, version: string)

  /** The `filter_map` of `lint_dependency_version`: the packages that declare the
      dependency, with their versions, in the order the name table yields them. */
  function Declarations(read: VersionReader, values: seq<Manifest>, dependency: string): seq<Declaration> {
    if values == [] then []
    else
      var m := values[|values| - 1];
      Declarations(read, values[..|values| - 1], dependency)
      + match read(m, dependency)
        case None => []
        case Some(v) => [Declaration(m, v)]
  }

  function Packages(decls: seq<Declaration>): (r: seq<Manifest>)
    ensures |r| == |decls| && forall i :: 0 <= i < |decls| ==> r[i] == decls[i].package
  {
    if decls == [] then [] else Packages(decls[..|decls| - 1]) + [decls[|decls| - 1].package]
  }

  /** A declaration is a package of the table and the version it declares. */
  lemma {:induction false} DeclarationsMeaning(read: VersionReader, values: seq<Manifest>, dependency: string, x: Declaration)
    ensures x in Declarations(read, values, dependency) <==> x.package in values && read(x.package, dependency) == Some(x.version)
  {
    if values != [] {
      var init := values[..|values| - 1];
      DeclarationsMeaning(read, init, dependency, x);
      assert values == init + [values[|values| - 1]];
    }
  }

  /** Distinct packages give declarations of distinct packages. */
  lemma {:induction false} DeclarationsDistinct(read: VersionReader, values: seq<Manifest>, dependency: string)
    requires Distinct(values)
    ensures Distinct(Packages(Declarations(read, values, dependency)))
  {
    if values != [] {
      var init := values[..|values| - 1];
      var m := values[|values| - 1];
      DeclarationsDistinct(read, init, dependency);
      var before := Declarations(read, init, dependency);
      if read(m, dependency).Some? {
        var x := Declaration(m, read(m, dependency).value);
        assert Declarations(read, values, dependency) == before + [x];
        assert Packages(before + [x]) == Packages(before) + [m];
        if m in Packages(before) {
          var i :| 0 <= i < |before| && Packages(before)[i] == m;
          DeclarationsMeaning(read, init, dependency, before[i]);
        }
        DistinctSnoc(Packages(before), m);
      } else {
        assert Declarations(read, values, dependency) == before;
      }
    }
  }

  /** Every declaring package has a UTF-8 directory, so the fold does not stop on its
      path. */
  predicate PathsUtf8(decls: seq<Declaration>) {
    forall i :: 0 <= i < |decls| ==> IsUtf8(decls[i].package.directory)
  }

  /** The versions declared. */
  function Versions(decls: seq<Declaration>): set<string> {
    set x | x in decls :: x.version
  }

  /** The packages declaring one version. */
  function Declaring(decls: seq<Declaration>, version: string): set<Manifest> {
    set x | x in decls && x.version == version :: x.package
  }

  // ---------------------------------------------------------------------------
  // The buckets.

  function Lookup(buckets: map<string, seq<string>>, version: string): seq<string> {
    if version in buckets then buckets[version] else []
  }

  /** The `fold` of `lint_dependency_version`: each declaring package's path is pushed
      onto the bucket of the version it declares. */
  function Buckets(decls: seq<Declaration>): map<string, seq<string>>
    requires PathsUtf8(decls)
  {
    if decls == [] then map[]
    else
      var init := decls[..|decls| - 1];
      var x := decls[|decls| - 1];
      assert forall i :: 0 <= i < |init| ==> init[i] == decls[i];
      var prev := Buckets(init);
      prev[x.version := Lookup(prev, x.version) + [PathString(x.package)]]
  }

  lemma BucketsUnfold(decls: seq<Declaration>, i: nat)
    requires i < |decls| && PathsUtf8(decls)
    ensures PathsUtf8(decls[..i]) && PathsUtf8(decls[..i + 1])
    ensures var prev := Buckets(decls[..i]);
            Buckets(decls[..i + 1]) == prev[decls[i].version := Lookup(prev, decls[i].version) + [PathString(decls[i].package)]]
  {
    assert forall k :: 0 <= k < i ==> decls[..i][k] == decls[k];
    assert decls[..i + 1][..i] == decls[..i];
  }

  /** The loop `fold` runs: `entry(version).or_default().push(path)` for each package. */
  method CollectBuckets(decls: seq<Declaration>) returns (buckets: map<string, seq<string>>)
    requires PathsUtf8(decls)
    ensures buckets == Buckets(decls)
  {
    buckets := map[];
    for i := 0 to |decls|
      invariant PathsUtf8(decls[..i])
      invariant buckets == Buckets(decls[..i])
    {
      BucketsUnfold(decls, i);
      var x := decls[i];
      var bucket := if x.version in buckets then buckets[x.version] else [];
      buckets := buckets[x.version := bucket + [PathString(x.package)]];
    }
    assert decls[..|decls|] == decls;
  }

  /** One step of the fold, seen through the bucket of one version. */
  lemma BucketsStep(decls: seq<Declaration>, i: nat, version: string)
    requires i < |decls| && PathsUtf8(decls)
    ensures PathsUtf8(decls[..i]) && PathsUtf8(decls[..i + 1])
    ensures Buckets(decls[..i + 1]).Keys == Buckets(decls[..i]).Keys + {decls[i].version}
    ensures Lookup(Buckets(decls[..i + 1]), version) ==
            if decls[i].version == version then Lookup(Buckets(decls[..i]), version) + [PathString(decls[i].package)]
            else Lookup(Buckets(decls[..i]), version)
  {
    BucketsUnfold(decls, i);
  }

  /** One more declaration adds its version, and its package to that version. */
  lemma DeclaringStep(decls: seq<Declaration>, i: nat, version: string)
    requires i < |decls|
    ensures Versions(decls[..i + 1]) == Versions(decls[..i]) + {decls[i].version}
    ensures Declaring(decls[..i + 1], version) ==
            Declaring(decls[..i], version) + if decls[i].version == version then {decls[i].package} else {}
  {
    assert decls[..i + 1] == decls[..i] + [decls[i]];
  }

  /** With distinct packages, a declaration's package is not among the earlier ones. */
  lemma FreshPackage(decls: seq<Declaration>, i: nat)
    requires i < |decls| && Distinct(Packages(decls))
    ensures forall x :: x in decls[..i] ==> x.package != decls[i].package
  {
    DistinctMeaning(Packages(decls));
  }

  /** One bucket per declared version. */
  lemma {:induction false} BucketsKeys(decls: seq<Declaration>)
    requires PathsUtf8(decls)
    ensures Buckets(decls).Keys == Versions(decls)
  {
    if decls != [] {
      var n := |decls| - 1;
      BucketsStep(decls, n, "");
      DeclaringStep(decls, n, "");
      BucketsKeys(decls[..n]);
      assert decls[..n + 1] == decls;
    }
  }

  /** A bucket holds as many paths as there are packages declaring its version. */
  lemma {:induction false} BucketsCount(decls: seq<Declaration>, version: string)
    requires Distinct(Packages(decls)) && PathsUtf8(decls)
    ensures |Lookup(Buckets(decls), version)| == |Declaring(decls, version)|
  {
    if decls != [] {
      var n := |decls| - 1;
      BucketsStep(decls, n, version);
      DeclaringStep(decls, n, version);
      FreshPackage(decls, n);
      DistinctSnoc(Packages(decls[..n]), decls[n].package);
      BucketsCount(decls[..n], version);
      assert decls[..n + 1] == decls;
    }
  }

  /** Some declaration of the version has the path. */
  ghost predicate DeclaresPath(decls: seq<Declaration>, version: string, path: string)
    requires PathsUtf8(decls)
  {
    exists i :: 0 <= i < |decls| && decls[i].version == version && PathString(decls[i].package) == path
  }

  lemma DeclaresPathSnoc(decls: seq<Declaration>, version: string, path: string)
    requires decls != [] && PathsUtf8(decls)
    ensures PathsUtf8(decls[..|decls| - 1])
    ensures DeclaresPath(decls, version, path) <==>
            DeclaresPath(decls[..|decls| - 1], version, path)
            || (decls[|decls| - 1].version == version && PathString(decls[|decls| - 1].package) == path)
  {
    var n := |decls| - 1;
    var init := decls[..n];
    if DeclaresPath(init, version, path) {
      var i :| 0 <= i < |init| && init[i].version == version && PathString(init[i].package) == path;
      assert decls[i] == init[i];
    }
    if DeclaresPath(decls, version, path) {
      var i :| 0 <= i < |decls| && decls[i].version == version && PathString(decls[i].package) == path;
      if i < n {
        assert init[i] == decls[i];
      }
    }
  }

  /** A bucket holds exactly the paths of the packages declaring its version. */
  lemma {:induction false} BucketsMembers(decls: seq<Declaration>, version: string, path: string)
    requires PathsUtf8(decls)
    ensures path in Lookup(Buckets(decls), version) <==>
            exists i :: 0 <= i < |decls| && decls[i].version == version && PathString(decls[i].package) == path
  {
    if decls != [] {
      var n := |decls| - 1;
      BucketsStep(decls, n, version);
      BucketsMembers(decls[..n], version, path);
      assert decls[..n + 1] == decls;
      DeclaresPathSnoc(decls, version, path);
      assert DeclaresPath(decls[..n], version, path) <==> path in Lookup(Buckets(decls[..n]), version);
    }
  }

  // ---------------------------------------------------------------------------
  // The most common version.

  /** `most_common_dependency_version`: a version with the longest bucket, `None` only
      for no buckets; `max_by` keeps the last maximum it meets, and the buckets are met
      in the order the map chooses. */
  method MostCommonDependencyVersion(buckets: map<string, seq<string>>) returns (r: Option<string>)
    ensures r.None? <==> |buckets| == 0
    ensures r.Some? ==> r.value in buckets && forall v :: v in buckets ==> |buckets[v]| <= |buckets[r.value]|
  {
    r := None;
    var remaining := buckets.Keys;
    while remaining != {}
      invariant remaining <= buckets.Keys
      invariant r.None? <==> remaining == buckets.Keys
      invariant r.Some? ==> r.value in buckets && forall v :: v in buckets && v !in remaining ==> |buckets[v]| <= |buckets[r.value]|
      decreases remaining
    {
      var v :| v in remaining;
      if r.None? || |buckets[r.value]| <= |buckets[v]| {
        r := Some(v);
      }
      remaining := remaining - {v};
    }
  }

  /** `version` is declared by at least as many packages as any other version. */
  ghost predicate IsMostCommon(decls: seq<Declaration>, version: string) {
    version in Versions(decls)
    && forall v :: v in Versions(decls) ==> |Declaring(decls, v)| <= |Declaring(decls, version)|
  }

  // ---------------------------------------------------------------------------
  // What is printed for one dependency.

  /** A line "In <path>, expected version <expected> but found version <found>". */
  datatype Mismatch = Mismatch(package: string, expected: string, found: string)

  /** A dependency with more than one version: the version taken as expected and the
      packages that declare another one. */
  datatype DependencyReport = DependencyReport(dependency: string, expected: string, mismatches: set<Mismatch>)

  /** The `filter` and `for_each` over the buckets: a line for every path in every
      bucket other than the expected one. */
  function ReportedMismatches(buckets: map<string, seq<string>>, expected: string): set<Mismatch> {
    set v, p | v in buckets && v != expected && p in buckets[v] :: Mismatch(p, expected, v)
  }

  /** A line of the report: a declaring package whose version is not the expected one. */
  ghost predicate Mismatched(decls: seq<Declaration>, expected: string, x: Mismatch)
    requires PathsUtf8(decls)
  {
    x.expected == expected && x.found != expected
    && exists i :: 0 <= i < |decls| && decls[i].version == x.found && PathString(decls[i].package) == x.package
  }

  /** The report for a dependency, in terms of its declarations: the expected version is
      a most common one, and a line names each package declaring another version. */
  ghost predicate ReportOf(decls: seq<Declaration>, dependency: string, report: DependencyReport) {
    && PathsUtf8(decls)
    && report.dependency == dependency
    && IsMostCommon(decls, report.expected)
    && forall x :: x in report.mismatches <==> Mismatched(decls, report.expected, x)
  }

  lemma ReportedMismatchesMeaning(decls: seq<Declaration>, expected: string, x: Mismatch)
    requires PathsUtf8(decls)
    ensures x in ReportedMismatches(Buckets(decls), expected) <==> Mismatched(decls, expected, x)
  {
    var buckets := Buckets(decls);
    BucketsMembers(decls, x.found, x.package);
    if x in ReportedMismatches(buckets, expected) {
      var v, p :| v in buckets && v != expected && p in buckets[v] && x == Mismatch(p, expected, v);
    }
  }

  /** The most common bucket is that of a most common version. */
  lemma MostCommonMeaning(decls: seq<Declaration>, expected: string)
    requires Distinct(Packages(decls)) && PathsUtf8(decls)
    requires var buckets := Buckets(decls);
             expected in buckets && forall v :: v in buckets ==> |buckets[v]| <= |buckets[expected]|
    ensures IsMostCommon(decls, expected)
  {
    var buckets := Buckets(decls);
    BucketsKeys(decls);
    BucketsCount(decls, expected);
    forall v | v in Versions(decls)
      ensures |Declaring(decls, v)| <= |Declaring(decls, expected)|
    {
      BucketsCount(decls, v);
    }
  }

  /** One turn of the dependency loop, up to the check of `keys().len() <= 1`: `None`
      for a dependency with at most one version, its report otherwise. */
  method LintDependency(read: VersionReader, values: seq<Manifest>, dependency: string) returns (report: Option<DependencyReport>)
    requires Distinct(values) && PathsUtf8(Declarations(read, values, dependency))
    ensures report.None? <==> !Inconsistent(read, values, dependency)
    ensures report.Some? ==> ReportOf(Declarations(read, values, dependency), dependency, report.value)
  {
    var decls := Declarations(read, values, dependency);
    DeclarationsDistinct(read, values, dependency);
    var buckets := CollectBuckets(decls);
    BucketsKeys(decls);
    assert |buckets.Keys| == |buckets|;
    if |buckets.Keys| <= 1 {
      return None;
    }
    var mostCommon := MostCommonDependencyVersion(buckets);
    var expected := mostCommon.value;
    MostCommonMeaning(decls, expected);
    var mismatches := ReportedMismatches(buckets, expected);
    forall x
      ensures x in mismatches <==> Mismatched(decls, expected, x)
    {
      ReportedMismatchesMeaning(decls, expected, x);
    }
    report := Some(DependencyReport(dependency, expected, mismatches));
  }

  // ---------------------------------------------------------------------------
  // The loop over the listed dependencies.

  /** A dependency the lint fails on: two or more versions are declared. */
  predicate Inconsistent(read: VersionReader, values: seq<Manifest>, dependency: string) {
    |Versions(Declarations(read, values, dependency))| > 1
  }

  /** A version is declared exactly when some package of the table declares it. */
  lemma VersionsMeaning(read: VersionReader, values: seq<Manifest>, dependency: string, v: string)
    ensures v in Versions(Declarations(read, values, dependency)) <==>
            exists m :: m in values && read(m, dependency) == Some(v)
  {
    if exists m :: m in values && read(m, dependency) == Some(v) {
      var m :| m in values && read(m, dependency) == Some(v);
      DeclarationsMeaning(read, values, dependency, Declaration(m, v));
    }
    if v in Versions(Declarations(read, values, dependency)) {
      var x :| x in Declarations(read, values, dependency) && x.version == v;
      DeclarationsMeaning(read, values, dependency, x);
    }
  }

  /** A package declares a version exactly when the table holds it and it names that
      version. */
  lemma DeclaringMeaning(read: VersionReader, values: seq<Manifest>, dependency: string, v: string, m: Manifest)
    ensures m in Declaring(Declarations(read, values, dependency), v) <==>
            m in values && read(m, dependency) == Some(v)
  {
    DeclarationsMeaning(read, values, dependency, Declaration(m, v));
    if m in Declaring(Declarations(read, values, dependency), v) {
      var x :| x in Declarations(read, values, dependency) && x.version == v && x.package == m;
      DeclarationsMeaning(read, values, dependency, x);
    }
  }

  /** The order the name table yields its packages in changes neither the versions, nor
      who declares them, nor so whether the lint passes. */
  lemma OrderFree(read: VersionReader, values: seq<Manifest>, others: seq<Manifest>, dependency: string)
    requires Elems(values) == Elems(others)
    ensures Versions(Declarations(read, values, dependency)) == Versions(Declarations(read, others, dependency))
    ensures forall v :: Declaring(Declarations(read, values, dependency), v) == Declaring(Declarations(read, others, dependency), v)
    ensures Inconsistent(read, values, dependency) <==> Inconsistent(read, others, dependency)
  {
    forall v
      ensures v in Versions(Declarations(read, values, dependency)) <==> v in Versions(Declarations(read, others, dependency))
    {
      VersionsMeaning(read, values, dependency, v);
      VersionsMeaning(read, others, dependency, v);
      assert forall m :: m in values <==> m in others by {
        forall m
          ensures m in values <==> m in others
        {
          assert m in values <==> m in Elems(values);
          assert m in others <==> m in Elems(others);
        }
      }
    }
    forall v
      ensures Declaring(Declarations(read, values, dependency), v) == Declaring(Declarations(read, others, dependency), v)
    {
      forall m
        ensures m in Declaring(Declarations(read, values, dependency), v) <==> m in Declaring(Declarations(read, others, dependency), v)
      {
        DeclaringMeaning(read, values, dependency, v, m);
        DeclaringMeaning(read, others, dependency, v, m);
        assert m in values <==> m in Elems(values);
        assert m in others <==> m in Elems(others);
      }
    }
  }

  /** The listed dependencies the lint fails on, in list order. */
  function Failing(read: VersionReader, values: seq<Manifest>, dependencies: seq<string>): (r: seq<string>)
    ensures |r| <= |dependencies|
  {
    if dependencies == [] then []
    else
      var init := dependencies[..|dependencies| - 1];
      var d := dependencies[|dependencies| - 1];
      Failing(read, values, init) + (if Inconsistent(read, values, d) then [d] else [])
  }

  /** One report for each failing dependency, in list order. */
  ghost predicate ReportsFor(read: VersionReader, values: seq<Manifest>, dependencies: seq<string>, reports: seq<DependencyReport>) {
    |reports| == |Failing(read, values, dependencies)|
    && forall k :: 0 <= k < |reports| ==>
         ReportOf(Declarations(read, values, Failing(read, values, dependencies)[k]), Failing(read, values, dependencies)[k], reports[k])
  }

  lemma ReportsForStep(read: VersionReader, values: seq<Manifest>, dependencies: seq<string>, i: nat,
                       reports: seq<DependencyReport>, report: Option<DependencyReport>)
    requires i < |dependencies| && ReportsFor(read, values, dependencies[..i], reports)
    requires report.None? <==> !Inconsistent(read, values, dependencies[i])
    requires report.Some? ==> ReportOf(Declarations(read, values, dependencies[i]), dependencies[i], report.value)
    ensures ReportsFor(read, values, dependencies[..i + 1], reports + if report.Some? then [report.value] else [])
  {
    assert dependencies[..i + 1][..i] == dependencies[..i];
  }

  /** The lint passes: no listed dependency has two versions. */
  predicate Passes(read: VersionReader, values: seq<Manifest>, dependencies: seq<string>) {
    forall i :: 0 <= i < |dependencies| ==> !Inconsistent(read, values, dependencies[i])
  }

  /** Passing is having no failing dependency. */
  lemma {:induction false} PassesIffNoneFailing(read: VersionReader, values: seq<Manifest>, dependencies: seq<string>)
    ensures Passes(read, values, dependencies) <==> Failing(read, values, dependencies) == []
  {
    if dependencies != [] {
      var init := dependencies[..|dependencies| - 1];
      PassesIffNoneFailing(read, values, init);
      assert forall i :: 0 <= i < |init| ==> init[i] == dependencies[i];
    }
  }

  /** The packages of every listed dependency's declarations have UTF-8 directories. */
  predicate DeclarersUtf8(read: VersionReader, values: seq<Manifest>, dependencies: seq<string>) {
    forall i :: 0 <= i < |dependencies| ==> PathsUtf8(Declarations(read, values, dependencies[i]))
  }

  /** The loop of `lint_dependency_version` with `continue` where the source returns:
      every listed dependency is checked, and the result is a success exactly when none
      of them has two versions. */
  method LintManifests(read: VersionReader, values: seq<Manifest>, dependencies: seq<string>) returns (success: bool, reports: seq<DependencyReport>)
    requires Distinct(values) && DeclarersUtf8(read, values, dependencies)
    ensures success <==> Passes(read, values, dependencies)
    ensures ReportsFor(read, values, dependencies, reports)
  {
    success := true;
    reports := [];
    for i := 0 to |dependencies|
      invariant success <==> Passes(read, values, dependencies[..i])
      invariant ReportsFor(read, values, dependencies[..i], reports)
    {
      var report := LintDependency(read, values, dependencies[i]);
      ReportsForStep(read, values, dependencies, i, reports, report);
      assert dependencies[..i + 1] == dependencies[..i] + [dependencies[i]];
      if report.None? {
        continue;
      }
      reports := reports + [report.value];
      success := false;
    }
    assert dependencies[..|dependencies|] == dependencies;
  }

  // ---------------------------------------------------------------------------
  // The loop as the source writes it.

  /** The position of the first listed dependency with at most one version, or the
      length of the list when there is none. */
  function FirstConsistent(read: VersionReader, values: seq<Manifest>, dependencies: seq<string>): (k: nat)
    ensures k <= |dependencies|
    ensures forall i :: 0 <= i < k ==> Inconsistent(read, values, dependencies[i])
    ensures k < |dependencies| ==> !Inconsistent(read, values, dependencies[k])
  {
    if dependencies == [] then 0
    else if !Inconsistent(read, values, dependencies[0]) then 0
    else 1 + FirstConsistent(read, values, dependencies[1..])
  }

  /** The dependencies whose buckets the loop as written builds: every one up to and
      including the first with at most one version, since the buckets, and with them
      the path conversions, come before the early return. */
  function Examined(read: VersionReader, values: seq<Manifest>, dependencies: seq<string>): (r: seq<string>)
    ensures r <= dependencies
    ensures FirstConsistent(read, values, dependencies) < |dependencies| ==> |r| == FirstConsistent(read, values, dependencies) + 1
    ensures FirstConsistent(read, values, dependencies) == |dependencies| ==> r == dependencies
  {
    var k := FirstConsistent(read, values, dependencies);
    if k < |dependencies| then dependencies[..k + 1] else dependencies
  }

  /** What the source's loop decides: a success as soon as one dependency has at most
      one version, otherwise a failure unless the list is empty. */
  predicate PassesAsWritten(read: VersionReader, values: seq<Manifest>, dependencies: seq<string>) {
    dependencies == [] || exists i :: 0 <= i < |dependencies| && !Inconsistent(read, values, dependencies[i])
  }

  /** The loop of `lint_dependency_version` as written: `return Ok(())` at the first
      dependency with at most one version, whatever the earlier ones reported. */
  method LintManifestsAsWritten(read: VersionReader, values: seq<Manifest>, dependencies: seq<string>) returns (success: bool, reports: seq<DependencyReport>)
    requires Distinct(values) && DeclarersUtf8(read, values, Examined(read, values, dependencies))
    ensures success <==> PassesAsWritten(read, values, dependencies)
    ensures ReportsFor(read, values, dependencies[..FirstConsistent(read, values, dependencies)], reports)
  {
    ghost var k := FirstConsistent(read, values, dependencies);
    var isExitSuccess := true;
    reports := [];
    for i := 0 to |dependencies|
      invariant i <= k
      invariant isExitSuccess <==> i == 0
      invariant ReportsFor(read, values, dependencies[..i], reports)
    {
      assert Examined(read, values, dependencies)[i] == dependencies[i];
      var report := LintDependency(read, values, dependencies[i]);
      ReportsForStep(read, values, dependencies, i, reports, report);
      if report.None? {
        assert i == k;
        return true, reports;
      }
      assert i < k;
      reports := reports + [report.value];
      isExitSuccess := false;
    }
    assert k == |dependencies|;
    return isExitSuccess, reports;
  }

  /** The early return hides an earlier failure: a dependency with two versions listed
      before one with a single version passes the lint as written. */
  lemma EarlyReturnHidesFailure(read: VersionReader, values: seq<Manifest>, failing: string, settled: string)
    requires Inconsistent(read, values, failing) && !Inconsistent(read, values, settled)
    ensures PassesAsWritten(read, values, [failing, settled])
    ensures !Passes(read, values, [failing, settled])
  {
    assert [failing, settled][1] == settled;
    assert [failing, settled][0] == failing;
  }

  /** The early return only ever lets more through: whatever passes the lint with
      `continue` passes it as written. */
  lemma PassesThenPassesAsWritten(read: VersionReader, values: seq<Manifest>, dependencies: seq<string>)
    requires Passes(read, values, dependencies)
    ensures PassesAsWritten(read, values, dependencies)
  {
    if dependencies != [] {
      assert !Inconsistent(read, values, dependencies[0]);
    }
  }

  /** With a single dependency both loops agree. */
  lemma SingleDependencyAgrees(read: VersionReader, values: seq<Manifest>, dependency: string)
    ensures PassesAsWritten(read, values, [dependency]) <==> Passes(read, values, [dependency])
  {
    assert [dependency][0] == dependency;
  }

  // ---------------------------------------------------------------------------
  // The subcommand.

  datatype LintError =
    | ReadFailed(error: FromFileError)
      // "Found unexpected dependency versions"
    | UnexpectedDependencyVersions

  /** The versions the packages of a set declare for one dependency. */
  ghost function TableVersions(read: VersionReader, ms: set<Manifest>, dependency: string): set<string> {
    set m | m in ms && read(m, dependency).Some? :: read(m, dependency).value
  }

  /** The loop as written gets to position `i`: every dependency listed before it has
      two or more versions among the packages. */
  ghost predicate ReachedAt(read: VersionReader, ms: set<Manifest>, dependencies: seq<string>, i: int) {
    forall j :: 0 <= j < i && j < |dependencies| ==> |TableVersions(read, ms, dependencies[j])| > 1
  }

  /** Every package that declares a dependency the loop gets to has a UTF-8 directory. */
  ghost predicate TableUtf8(read: VersionReader, ms: set<Manifest>, dependencies: seq<string>) {
    forall i, m :: 0 <= i < |dependencies| && ReachedAt(read, ms, dependencies, i) && m in ms && read(m, dependencies[i]).Some?
                   ==> IsUtf8(m.directory)
  }

  /** The versions of a table's declarations are those its set of packages declares. */
  lemma TableVersionsOf(read: VersionReader, values: seq<Manifest>, dependency: string)
    ensures Versions(Declarations(read, values, dependency)) == TableVersions(read, Elems(values), dependency)
  {
    forall v
      ensures v in Versions(Declarations(read, values, dependency)) <==> v in TableVersions(read, Elems(values), dependency)
    {
      VersionsMeaning(read, values, dependency, v);
      if v in TableVersions(read, Elems(values), dependency) {
        var m :| m in Elems(values) && read(m, dependency).Some? && read(m, dependency).value == v;
        assert m in values;
      }
    }
  }

  /** The loop gets to a position exactly when it lies at or before the first
      dependency with at most one version. */
  lemma ReachedAtFirstConsistent(read: VersionReader, values: seq<Manifest>, dependencies: seq<string>, i: int)
    requires 0 <= i < |dependencies|
    ensures ReachedAt(read, Elems(values), dependencies, i) <==> i <= FirstConsistent(read, values, dependencies)
  {
    var k := FirstConsistent(read, values, dependencies);
    forall j | 0 <= j < |dependencies|
      ensures Inconsistent(read, values, dependencies[j]) <==> |TableVersions(read, Elems(values), dependencies[j])| > 1
    {
      TableVersionsOf(read, values, dependencies[j]);
    }
    if i > k {
      assert !(|TableVersions(read, Elems(values), dependencies[k])| > 1);
    }
  }

  /** UTF-8 directories of the declaring packages of the dependencies the loop gets to
      are exactly what the conversions of the examined dependencies need. */
  lemma TableDeclarersUtf8(read: VersionReader, values: seq<Manifest>, dependencies: seq<string>)
    ensures TableUtf8(read, Elems(values), dependencies) <==> DeclarersUtf8(read, values, Examined(read, values, dependencies))
  {
    if TableUtf8(read, Elems(values), dependencies) {
      TableUtf8Declarers(read, values, dependencies);
    }
    if DeclarersUtf8(read, values, Examined(read, values, dependencies)) {
      DeclarersTableUtf8(read, values, dependencies);
    }
  }

  lemma TableUtf8Declarers(read: VersionReader, values: seq<Manifest>, dependencies: seq<string>)
    requires TableUtf8(read, Elems(values), dependencies)
    ensures DeclarersUtf8(read, values, Examined(read, values, dependencies))
  {
    var e := Examined(read, values, dependencies);
    forall i, t | 0 <= i < |e| && 0 <= t < |Declarations(read, values, e[i])|
      ensures IsUtf8(Declarations(read, values, e[i])[t].package.directory)
    {
      var x := Declarations(read, values, e[i])[t];
      assert e[i] == dependencies[i];
      ReachedAtFirstConsistent(read, values, dependencies, i);
      DeclarationsMeaning(read, values, e[i], x);
      assert x.package in Elems(values);
      assert read(x.package, dependencies[i]).Some?;
    }
  }

  lemma DeclarersTableUtf8(read: VersionReader, values: seq<Manifest>, dependencies: seq<string>)
    requires DeclarersUtf8(read, values, Examined(read, values, dependencies))
    ensures TableUtf8(read, Elems(values), dependencies)
  {
    var e := Examined(read, values, dependencies);
    forall i, m | 0 <= i < |dependencies| && ReachedAt(read, Elems(values), dependencies, i) && m in Elems(values) && read(m, dependencies[i]).Some?
      ensures IsUtf8(m.directory)
    {
      ReachedAtFirstConsistent(read, values, dependencies, i);
      assert e[i] == dependencies[i];
      var x := Declaration(m, read(m, dependencies[i]).value);
      DeclarationsMeaning(read, values, dependencies[i], x);
      var decls := Declarations(read, values, e[i]);
      var t :| 0 <= t < |decls| && decls[t] == x;
      assert PathsUtf8(decls);
    }
  }

  /** `lint_dependency_version`: read the monorepo index, key it by name and run the
      dependency loop, as the source writes it, over the name table's packages in the
      order the table yields them. The lint succeeds at the first listed dependency with
      at most one version, having reported every dependency before it. */
  method LintDependencyVersion(read: VersionReader, files: map<Path, Json>, root: Path, walk: GlobWalk, dependencies: seq<string>)
    returns (r: Result<(), LintError>, reports: seq<DependencyReport>)
    requires WalksBelowRoot(walk, root)
    requires FromDirectory(files, root, walk).Ok? ==>
               TableUtf8(read, PackageManifestsByPackageName(FromDirectory(files, root, walk).value.internalPackageManifests).Values, dependencies)
    ensures FromDirectory(files, root, walk).Err? ==> r == Err(ReadFailed(FromDirectory(files, root, walk).error)) && reports == []
    ensures FromDirectory(files, root, walk).Ok? ==>
              var byName := PackageManifestsByPackageName(FromDirectory(files, root, walk).value.internalPackageManifests);
              && (r.Err? ==> r.error == UnexpectedDependencyVersions)
              && exists values :: Distinct(values) && Elems(values) == byName.Values
                                  && (r.Ok? <==> PassesAsWritten(read, values, dependencies))
                                  && ReportsFor(read, values, dependencies[..FirstConsistent(read, values, dependencies)], reports)
  {
    var monorepo := FromDirectory(files, root, walk);
    if monorepo.Err? {
      return Err(ReadFailed(monorepo.error)), [];
    }
    var byName := PackageManifestsByPackageName(monorepo.value.internalPackageManifests);
    var values := SetToSeq(byName.Values);
    TableDeclarersUtf8(read, values, dependencies);
    var success;
    success, reports := LintManifestsAsWritten(read, values, dependencies);
    r := if success then Ok(()) else Err(UnexpectedDependencyVersions);
    assert Distinct(values) && Elems(values) == byName.Values
           && (r.Ok? <==> PassesAsWritten(read, values, dependencies))
           && ReportsFor(read, values, dependencies[..FirstConsistent(read, values, dependencies)], reports);
  }
}
