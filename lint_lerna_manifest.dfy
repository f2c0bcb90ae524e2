// `lint lerna-manifest`: the package names lerna.json's globs find are compared with
// the scoped packages found by walking the whole monorepo, and every name found by
// only one of the two is reported.
module LintLernaManifests {
  import opened Wrappers
  import opened Json
  import opened Paths
  import opened Collections
  import opened FileSystems
  import opened PackageManifests
  import opened MonorepoManifests

  // ---------------------------------------------------------------------------
  // The names lerna.json declares.

  /** `get_lerna_manifest_keys`: the names of the manifests lerna.json's globs find. */
  function GetLernaManifestKeys(files: map<Path, Json>, root: Path, walk: GlobWalk): (r: Result<set<string>, FromFileError>)
    requires WalksBelowRoot(walk, root)
    ensures r.Ok? <==> FromLernaManifest(files, root, walk).Ok?
    ensures r.Err? ==> r.error == FromLernaManifest(files, root, walk).error
    ensures r.Ok? ==> var ms := FromLernaManifest(files, root, walk).value.internalPackageManifests;
                      r.value == set i | 0 <= i < |ms| :: ms[i].name
  {
    var monorepo :- FromLernaManifest(files, root, walk);
    Ok(PackageManifestsByPackageName(monorepo.internalPackageManifests).Keys)
  }

  // ---------------------------------------------------------------------------
  // The names the walk finds.

  /** The scope the walk keeps. */
  const Scope: string := "@bitgo/"

  /** The patterns handed to the walk: skip node_modules, take every package.json. */
  const WalkPatterns: seq<string> := [NodeModulesPattern, ManifestFilename]

  /** `pattern` occurs in `s` at position `j`. */
  predicate OccursAt(s: string, pattern: string, j: int) {
    0 <= j && j + |pattern| <= |s| && s[j..j + |pattern|] == pattern
  }

  /** `str::find`: the first position at which `pattern` occurs in `s`. */
  function Find(s: string, pattern: string): (r: Option<nat>)
    ensures r.Some? ==> OccursAt(s, pattern, r.value) && forall j :: 0 <= j < r.value ==> !OccursAt(s, pattern, j)
    ensures r.None? ==> forall j :: !OccursAt(s, pattern, j)
  {
    FindFrom(s, pattern, 0)
  }

  /** The first position from `k` on at which `pattern` occurs. */
  function FindFrom(s: string, pattern: string, k: nat): (r: Option<nat>)
    ensures r.Some? ==> k <= r.value && OccursAt(s, pattern, r.value)
    ensures r.Some? ==> forall j :: k <= j < r.value ==> !OccursAt(s, pattern, j)
    ensures r.None? ==> forall j :: k <= j ==> !OccursAt(s, pattern, j)
    decreases |s| - k
  {
    if k + |pattern| > |s| then None
    else if s[k..k + |pattern|] == pattern then Some(k)
    else FindFrom(s, pattern, k + 1)
  }

  /** The `filter` predicate on a manifest read: its name contains the scope. */
  predicate InScope(m: Manifest) {
    Find(m.name, Scope).Some?
  }

  /** The `filter`: a read manifest is kept when it is in scope, a failed read always. */
  function KeepInScope(results: seq<Result<Manifest, FromFileError>>): seq<Result<Manifest, FromFileError>> {
    if results == [] then []
    else
      (if results[0].Err? || InScope(results[0].value) then [results[0]] else []) + KeepInScope(results[1..])
  }

  /** The `map` to the name and the `collect` into a `Result` of a set: the names, or
      the first failure. */
  function CollectNames(results: seq<Result<Manifest, FromFileError>>): Result<set<string>, FromFileError> {
    if results == [] then Ok({})
    else
      match results[0]
      case Err(e) => Err(e)
      case Ok(m) =>
        match CollectNames(results[1..])
        case Err(e) => Err(e)
        case Ok(names) => Ok({m.name} + names)
  }

  /** The names of the reads that succeeded and are in scope. */
  function ScopedNames(results: seq<Result<Manifest, FromFileError>>): set<string> {
    set i | 0 <= i < |results| && results[i].Ok? && InScope(results[i].value) :: results[i].value.name
  }

  /** The names of the reads that succeeded. */
  function OkNames(results: seq<Result<Manifest, FromFileError>>): set<string> {
    set i | 0 <= i < |results| && results[i].Ok? :: results[i].value.name
  }

  /** `results[i]` is the first failed read. */
  predicate FirstFailed(results: seq<Result<Manifest, FromFileError>>, i: int) {
    0 <= i < |results| && results[i].Err? && forall j :: 0 <= j < i ==> results[j].Ok?
  }

  predicate AllOk(results: seq<Result<Manifest, FromFileError>>) {
    forall i :: 0 <= i < |results| ==> results[i].Ok?
  }

  lemma OkNamesCons(results: seq<Result<Manifest, FromFileError>>)
    requires results != [] && results[0].Ok?
    ensures OkNames(results) == {results[0].value.name} + OkNames(results[1..])
  {
    var rest := results[1..];
    forall n | n in OkNames(results)
      ensures n in {results[0].value.name} + OkNames(rest)
    {
      var i :| 0 <= i < |results| && results[i].Ok? && results[i].value.name == n;
      if i > 0 {
        assert rest[i - 1] == results[i];
      }
    }
    forall n | n in OkNames(rest)
      ensures n in OkNames(results)
    {
      var i :| 0 <= i < |rest| && rest[i].Ok? && rest[i].value.name == n;
      assert results[i + 1] == rest[i];
    }
  }

  lemma ScopedNamesCons(results: seq<Result<Manifest, FromFileError>>)
    requires results != [] && results[0].Ok?
    ensures ScopedNames(results) == (if InScope(results[0].value) then {results[0].value.name} else {}) + ScopedNames(results[1..])
  {
    var rest := results[1..];
    forall n | n in ScopedNames(results)
      ensures n in (if InScope(results[0].value) then {results[0].value.name} else {}) + ScopedNames(rest)
    {
      var i :| 0 <= i < |results| && results[i].Ok? && InScope(results[i].value) && results[i].value.name == n;
      if i > 0 {
        assert rest[i - 1] == results[i];
      }
    }
    forall n | n in ScopedNames(rest)
      ensures n in ScopedNames(results)
    {
      var i :| 0 <= i < |rest| && rest[i].Ok? && InScope(rest[i].value) && rest[i].value.name == n;
      assert results[i + 1] == rest[i];
    }
  }

  /** A failed read at the front adds no name. */
  lemma ErrNamesCons(results: seq<Result<Manifest, FromFileError>>)
    requires results != [] && results[0].Err?
    ensures OkNames(results) == OkNames(results[1..]) && ScopedNames(results) == ScopedNames(results[1..])
  {
    var rest := results[1..];
    forall n | n in OkNames(results)
      ensures n in OkNames(rest)
    {
      var i :| 0 <= i < |results| && results[i].Ok? && results[i].value.name == n;
      assert rest[i - 1] == results[i];
    }
    forall n | n in OkNames(rest)
      ensures n in OkNames(results)
    {
      var i :| 0 <= i < |rest| && rest[i].Ok? && rest[i].value.name == n;
      assert results[i + 1] == rest[i];
    }
    forall n | n in ScopedNames(results)
      ensures n in ScopedNames(rest)
    {
      var i :| 0 <= i < |results| && results[i].Ok? && InScope(results[i].value) && results[i].value.name == n;
      assert rest[i - 1] == results[i];
    }
    forall n | n in ScopedNames(rest)
      ensures n in ScopedNames(results)
    {
      var i :| 0 <= i < |rest| && rest[i].Ok? && InScope(rest[i].value) && rest[i].value.name == n;
      assert results[i + 1] == rest[i];
    }
  }

  /** `collect` into a `Result`: the names when every read succeeded, the first failure
      otherwise. */
  lemma {:induction false} CollectNamesMeaning(results: seq<Result<Manifest, FromFileError>>)
    ensures CollectNames(results).Ok? <==> AllOk(results)
    ensures CollectNames(results).Ok? ==> CollectNames(results).value == OkNames(results)
    ensures CollectNames(results).Err? ==> exists i :: FirstFailed(results, i) && results[i].error == CollectNames(results).error
  {
    if results != [] {
      var rest := results[1..];
      CollectNamesMeaning(rest);
      assert forall i :: 1 <= i < |results| ==> results[i] == rest[i - 1];
      if results[0].Err? {
        assert FirstFailed(results, 0);
      } else {
        OkNamesCons(results);
        if CollectNames(results).Err? {
          var i :| FirstFailed(rest, i) && rest[i].error == CollectNames(results).error;
          assert FirstFailed(results, i + 1);
        }
      }
    }
  }

  lemma AllOkCons(results: seq<Result<Manifest, FromFileError>>)
    requires results != []
    ensures AllOk(results) <==> results[0].Ok? && AllOk(results[1..])
  {
    assert forall i :: 1 <= i < |results| ==> results[i] == results[1..][i - 1];
  }

  /** The filter drops no failure. */
  lemma {:induction false} KeepAllOk(results: seq<Result<Manifest, FromFileError>>)
    ensures AllOk(KeepInScope(results)) <==> AllOk(results)
  {
    if results != [] {
      var rest := results[1..];
      var tail := KeepInScope(rest);
      KeepAllOk(rest);
      if results[0].Err? || InScope(results[0].value) {
        var kept := KeepInScope(results);
        assert kept == [results[0]] + tail;
        assert kept[1..] == tail;
        AllOkCons(kept);
      } else {
        assert KeepInScope(results) == tail;
      }
      AllOkCons(results);
    }
  }

  /** Of the manifests, the filter keeps those in scope. */
  lemma {:induction false} KeepNames(results: seq<Result<Manifest, FromFileError>>)
    ensures OkNames(KeepInScope(results)) == ScopedNames(results)
  {
    if results != [] {
      var rest := results[1..];
      var tail := KeepInScope(rest);
      var kept := KeepInScope(results);
      KeepNames(rest);
      if results[0].Err? {
        assert kept == [results[0]] + tail;
        assert kept[1..] == tail;
        ErrNamesCons(kept);
        ErrNamesCons(results);
      } else if InScope(results[0].value) {
        assert kept == [results[0]] + tail;
        assert kept[1..] == tail;
        OkNamesCons(kept);
        ScopedNamesCons(results);
      } else {
        assert kept == tail;
        ScopedNamesCons(results);
      }
    }
  }

  /** The first failure kept is the first failure read. */
  lemma {:induction false} KeepFirstFailure(results: seq<Result<Manifest, FromFileError>>, i: int)
    requires FirstFailed(KeepInScope(results), i)
    ensures exists j :: FirstFailed(results, j) && results[j] == KeepInScope(results)[i]
  {
    var rest := results[1..];
    var tail := KeepInScope(rest);
    var kept := KeepInScope(results);
    if results[0].Err? {
      assert kept == [results[0]] + tail;
      assert kept[0] == results[0];
      assert i == 0;
      assert FirstFailed(results, 0);
    } else if InScope(results[0].value) {
      assert kept == [results[0]] + tail;
      assert tail[i - 1] == kept[i];
      assert FirstFailed(tail, i - 1) by {
        assert forall j :: 0 <= j < i - 1 ==> tail[j] == kept[j + 1];
      }
      KeepFirstFailure(rest, i - 1);
      var j :| FirstFailed(rest, j) && rest[j] == tail[i - 1];
      assert forall k :: 1 <= k <= j ==> results[k] == rest[k - 1];
      assert FirstFailed(results, j + 1);
    } else {
      assert kept == tail;
      KeepFirstFailure(rest, i);
      var j :| FirstFailed(rest, j) && rest[j] == tail[i];
      assert forall k :: 1 <= k <= j ==> results[k] == rest[k - 1];
      assert FirstFailed(results, j + 1);
    }
  }

  /** Filtering then collecting: the scoped names when every read succeeds, otherwise
      the first failure, wherever it is and whatever the scope. */
  lemma ScopedCollect(results: seq<Result<Manifest, FromFileError>>)
    ensures CollectNames(KeepInScope(results)).Ok? <==> AllOk(results)
    ensures CollectNames(KeepInScope(results)).Ok? ==> CollectNames(KeepInScope(results)).value == ScopedNames(results)
    ensures CollectNames(KeepInScope(results)).Err? ==>
              exists i :: FirstFailed(results, i) && results[i].error == CollectNames(KeepInScope(results)).error
  {
    var kept := KeepInScope(results);
    KeepAllOk(results);
    KeepNames(results);
    CollectNamesMeaning(kept);
    if CollectNames(kept).Err? {
      var i :| FirstFailed(kept, i) && kept[i].error == CollectNames(kept).error;
      KeepFirstFailure(results, i);
    }
  }

  /** `get_packages_from_globwalk`: every package.json below the root outside
      node_modules is read, and the names of those in scope are collected. */
  function GetPackagesFromGlobwalk(files: map<Path, Json>, root: Path, walk: GlobWalk): Result<set<string>, FromFileError>
    requires WalksBelowRoot(walk, root)
  {
    var paths := FoundPaths(walk(root, WalkPatterns));
    CollectNames(KeepInScope(ReadEntries(files, root, paths)))
  }

  /** The walk's names are those of the scoped packages when every found package.json
      reads, and the first failure otherwise, even for a package out of scope. */
  lemma GlobwalkNames(files: map<Path, Json>, root: Path, walk: GlobWalk)
    requires WalksBelowRoot(walk, root)
    ensures var results := ReadEntries(files, root, FoundPaths(walk(root, WalkPatterns)));
            var r := GetPackagesFromGlobwalk(files, root, walk);
            && (r.Ok? <==> AllOk(results))
            && (r.Ok? ==> r.value == ScopedNames(results))
            && (r.Err? ==> exists i :: FirstFailed(results, i) && results[i] == Err(r.error))
  {
    var results := ReadEntries(files, root, FoundPaths(walk(root, WalkPatterns)));
    ScopedCollect(results);
  }

  // ---------------------------------------------------------------------------
  // The comparison.

  /** `DifferentManifestEntry`: a name found by one side only, and which side. */
  datatype DifferentManifestEntry = DifferentManifestEntry(key: string, inLernaManifest: bool)

  /** `LernaManifestLintErr`. */
  datatype LernaManifestLintErr = DifferentManifestEntries(entries: seq<DifferentManifestEntry>)

  datatype LintError =
    | ReadFailed(error: FromFileError)
    | Different(lintErr: LernaManifestLintErr)

  /** `symmetric_difference`. */
  function SymmetricDifference(a: set<string>, b: set<string>): (r: set<string>)
    ensures forall k :: k in r <==> (k in a) != (k in b)
  {
    (a - b) + (b - a)
  }

  /** The entry for each key, marked with whether lerna.json has it. */
  function Entries(keys: seq<string>, lerna: set<string>): (r: seq<DifferentManifestEntry>)
    ensures |r| == |keys| && forall i :: 0 <= i < |keys| ==> r[i] == DifferentManifestEntry(keys[i], keys[i] in lerna)
  {
    seq(|keys|, i requires 0 <= i < |keys| => DifferentManifestEntry(keys[i], keys[i] in lerna))
  }

  lemma EntriesDistinct(keys: seq<string>, lerna: set<string>)
    requires Distinct(keys)
    ensures Distinct(Entries(keys, lerna))
  {
    DistinctMeaning(keys);
    DistinctMeaning(Entries(keys, lerna));
  }

  /** The `map` over the symmetric difference: an entry for every name in exactly
      one of the two sets, in the order the set yields them, marked with whether
      lerna.json has it. */
  method DifferentEntries(lerna: set<string>, found: set<string>) returns (entries: seq<DifferentManifestEntry>)
    ensures Distinct(entries)
    ensures forall k :: (exists i :: 0 <= i < |entries| && entries[i].key == k) <==> (k in lerna) != (k in found)
    ensures forall i :: 0 <= i < |entries| ==> (entries[i].inLernaManifest <==> entries[i].key in lerna)
    ensures entries == [] <==> lerna == found
  {
    var keys := SetToSeq(SymmetricDifference(lerna, found));
    entries := Entries(keys, lerna);
    EntriesDistinct(keys, lerna);
    forall k
      ensures (exists i :: 0 <= i < |entries| && entries[i].key == k) <==> (k in lerna) != (k in found)
    {
      if k in SymmetricDifference(lerna, found) {
        assert k in Elems(keys);
        var i :| 0 <= i < |keys| && keys[i] == k;
        assert entries[i].key == k;
      }
    }
    if lerna != found {
      var k :| k in SymmetricDifference(lerna, found);
      assert k in Elems(keys);
    }
  }

  /** `lint_lerna_manifest`: both name sets are read, lerna.json's first; the lint
      passes exactly when they are equal, and otherwise reports the names found by one
      side only. */
  method LintLernaManifest(files: map<Path, Json>, root: Path, walk: GlobWalk) returns (r: Result<(), LintError>)
    requires WalksBelowRoot(walk, root)
    ensures var lerna := GetLernaManifestKeys(files, root, walk);
            lerna.Err? ==> r == Err(ReadFailed(lerna.error))
    ensures var lerna := GetLernaManifestKeys(files, root, walk);
            var found := GetPackagesFromGlobwalk(files, root, walk);
            lerna.Ok? && found.Err? ==> r == Err(ReadFailed(found.error))
    ensures var lerna := GetLernaManifestKeys(files, root, walk);
            var found := GetPackagesFromGlobwalk(files, root, walk);
            lerna.Ok? && found.Ok? ==>
              && (r.Ok? <==> lerna.value == found.value)
              && (r.Err? ==> r.error.Different?
                             && var entries := r.error.lintErr.entries;
                             && Distinct(entries)
                             && (forall k :: (exists i :: 0 <= i < |entries| && entries[i].key == k) <==> (k in lerna.value) != (k in found.value))
                             && forall i :: 0 <= i < |entries| ==> (entries[i].inLernaManifest <==> entries[i].key in lerna.value))
  {
    var lerna := GetLernaManifestKeys(files, root, walk);
    if lerna.Err? {
      return Err(ReadFailed(lerna.error));
    }
    var found := GetPackagesFromGlobwalk(files, root, walk);
    if found.Err? {
      return Err(ReadFailed(found.error));
    }
    var entries := DifferentEntries(lerna.value, found.value);
    if entries == [] {
      return Ok(());
    }
    r := Err(Different(DifferentManifestEntries(entries)));
  }

  // ---------------------------------------------------------------------------
  // What the error prints.

  /** The line `Display` writes for one entry. */
  function EntryLine(entry: DifferentManifestEntry): string {
    if entry.inLernaManifest then
      "Found package '" + entry.key + "' in lerna manifest couldn't find package directory\n"
    else
      "Found package '" + entry.key + "' but couldn't find it in lerna manifest\n"
  }

  /** `Display for LernaManifestLintErr`: one line per entry, in entry order. */
  function Display(err: LernaManifestLintErr): string {
    Lines(err.entries)
  }

  function Lines(entries: seq<DifferentManifestEntry>): string {
    if entries == [] then "" else EntryLine(entries[0]) + Lines(entries[1..])
  }

  /** The text of a list of entries is that of its parts, one after the other. */
  lemma {:induction false} LinesAppend(a: seq<DifferentManifestEntry>, b: seq<DifferentManifestEntry>)
    ensures Lines(a + b) == Lines(a) + Lines(b)
  {
    if a != [] {
      assert (a + b)[0] == a[0];
      assert (a + b)[1..] == a[1..] + b;
      LinesAppend(a[1..], b);
      assert Lines(a + b) == EntryLine(a[0]) + Lines(a[1..] + b);
      assert Lines(a) == EntryLine(a[0]) + Lines(a[1..]);
      assert EntryLine(a[0]) + (Lines(a[1..]) + Lines(b)) == (EntryLine(a[0]) + Lines(a[1..])) + Lines(b);
    } else {
      assert a + b == b;
    }
  }

  /** A line names its key and which side it was found on: no two entries print the same
      line. */
  lemma EntryLineInjective(e: DifferentManifestEntry, f: DifferentManifestEntry)
    requires EntryLine(e) == EntryLine(f)
    ensures e == f
  {
    var s := EntryLine(e);
    var head := "Found package '";
    var inLerna := "' in lerna manifest couldn't find package directory\n";
    var notInLerna := "' but couldn't find it in lerna manifest\n";
    assert s[|s| - 2] == (if e.inLernaManifest then 'y' else 't');
    assert s[|s| - 2] == (if f.inLernaManifest then 'y' else 't');
    var tail := if e.inLernaManifest then inLerna else notInLerna;
    assert s == head + e.key + tail;
    assert s == head + f.key + tail;
    assert e.key == s[|head|..|s| - |tail|];
    assert f.key == s[|head|..|s| - |tail|];
  }
}
