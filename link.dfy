// The project-reference synchroniser. Every directory above a package gets a parent
// tsconfig.json whose `references` list its immediate children, and every package's
// tsconfig.json references its direct internal dependencies by relative path. A
// tsconfig is out of date exactly when its current list differs from the desired one;
// `modify` rewrites only those, and `lint` succeeds exactly when there are none.
module Link {
  import opened Wrappers
  import opened Json
  import opened Paths
  import opened Collections
  import opened Sorting
  import opened FileSystems
  import opened TypescriptConfigs
  import opened PackageManifests
  import opened MonorepoManifests
  import opened OutOfDateProjectReferences

  /** `InvalidUtf8Error(OsString)`: the component `to_str` rejected. */
  datatype InvalidUtf8Error = InvalidUtf8Error(component: Component)

  /** `InternalError`. Its `EnumeratePackageManifests` case does not arise: the
      monorepo manifest already holds its package manifests. */
  datatype InternalError =
    | FromFile(fileError: FromFileError)
    | InvalidUtf8(utf8Error: InvalidUtf8Error)

  /** `LinkError`: reading the monorepo manifest or a tsconfig failed, or a directory
      is not UTF-8. Writes into the document store cannot fail. */
  datatype LinkError =
    | LinkFromFile(fileError: FromFileError)
    | LinkInvalidUtf8(utf8Error: InvalidUtf8Error)

  /** `LinkLintError`. */
  datatype LinkLintError =
    | LintFromFile(fileError: FromFileError)
    | LintInvalidUtf8(utf8Error: InvalidUtf8Error)
    | ProjectReferencesOutOfDate(report: AllOutOfDateTypescriptConfig)

  function LinkErrorOf(e: InternalError): LinkError {
    match e
    case FromFile(f) => LinkFromFile(f)
    case InvalidUtf8(u) => LinkInvalidUtf8(u)
  }

  function LintErrorOf(e: InternalError): LinkLintError {
    match e
    case FromFile(f) => LintFromFile(f)
    case InvalidUtf8(u) => LintInvalidUtf8(u)
  }

  // ---------------------------------------------------------------------------
  // The children of every directory above a package.

  /** Each directory above a package with the names of its immediate children. */
  type ChildrenMap = map<Path, seq<string>>

  /** `entry(path).or_default()`. */
  function Lookup(acc: ChildrenMap, p: Path): seq<string> {
    if p in acc then acc[p] else []
  }

  /** Pushing a child onto a list unless the list already holds it. */
  function WithChild(children: seq<string>, child: string): seq<string> {
    if child in children then children else children + [child]
  }

  /** After the push, the list holds the old children, in their old order, followed
      at most by the new child. It names exactly the old children and the new one, and
      a list without repeats stays without repeats. */
  lemma WithChildMeaning(children: seq<string>, child: string)
    ensures Elems(WithChild(children, child)) == Elems(children) + {child}
    ensures Distinct(children) ==> Distinct(WithChild(children, child))
    ensures |children| <= |WithChild(children, child)| && WithChild(children, child)[..|children|] == children
  {
    if child !in children {
      ElemsAppend(children, [child]);
      assert Elems([child]) == {child};
      DistinctSnoc(children, child);
      assert (children + [child])[..|children|] == children;
    }
  }

  predicate ProperPrefix(p: Path, dir: Path) {
    |p| < |dir| && dir[..|p|] == p
  }

  /** The first `n` proper prefixes of `dir`, the empty path first. */
  function Prefixes(dir: Path, n: nat): set<Path>
    requires n <= |dir|
  {
    set k | 0 <= k < n :: dir[..k]
  }

  lemma PrefixesAreProper(dir: Path, p: Path)
    ensures p in Prefixes(dir, |dir|) <==> ProperPrefix(p, dir)
  {
    if ProperPrefix(p, dir) {
      assert dir[..|p|] == p;
    }
  }

  /** The table once the first `n` components of `dir` have been recorded, component
      k under the prefix of length k. */
  function ChildrenUpTo(acc: ChildrenMap, dir: Path, n: nat): ChildrenMap
    requires n <= |dir| && forall k :: 0 <= k < n ==> dir[k].Utf8?
  {
    if n == 0 then acc
    else
      var prev := ChildrenUpTo(acc, dir, n - 1);
      prev[dir[..n - 1] := WithChild(Lookup(prev, dir[..n - 1]), dir[n - 1].text)]
  }

  lemma ChildrenUpToUnfold(acc: ChildrenMap, dir: Path, i: nat)
    requires i < |dir| && forall k :: 0 <= k <= i ==> dir[k].Utf8?
    ensures ChildrenUpTo(acc, dir, i + 1)
            == ChildrenUpTo(acc, dir, i)[dir[..i] := WithChild(Lookup(ChildrenUpTo(acc, dir, i), dir[..i]), dir[i].text)]
  {
  }

  /** One turn of the component loop, from the table and path after `i` components to
      those after `i + 1`. */
  lemma ChildrenUpToStep(accumulator: ChildrenMap, dir: Path, i: nat, acc: ChildrenMap)
    requires i < |dir| && (forall k :: 0 <= k <= i ==> dir[k].Utf8?) && acc == ChildrenUpTo(accumulator, dir, i)
    ensures ChildrenUpTo(accumulator, dir, i + 1) == acc[dir[..i] := WithChild(Lookup(acc, dir[..i]), dir[i].text)]
    ensures dir[..i + 1] == dir[..i] + [dir[i]]
  {
    ChildrenUpToUnfold(accumulator, dir, i);
    PrefixSnoc(dir, i);
  }

  /** After recording n components, the keys are the old ones and the first n proper
      prefixes. */
  lemma {:induction false} ChildrenUpToKeys(acc: ChildrenMap, dir: Path, n: nat)
    requires n <= |dir| && forall k :: 0 <= k < n ==> dir[k].Utf8?
    ensures ChildrenUpTo(acc, dir, n).Keys == acc.Keys + Prefixes(dir, n)
  {
    if n > 0 {
      ChildrenUpToKeys(acc, dir, n - 1);
      PrefixesStep(dir, n - 1);
    }
  }

  /** After recording n components, the prefix of length k < n has gained component k,
      whatever was recorded before or after it. */
  lemma {:induction false} ChildrenUpToAt(acc: ChildrenMap, dir: Path, n: nat, k: nat)
    requires n <= |dir| && forall j :: 0 <= j < n ==> dir[j].Utf8?
    requires k < n
    ensures dir[..k] in ChildrenUpTo(acc, dir, n)
    ensures ChildrenUpTo(acc, dir, n)[dir[..k]] == WithChild(Lookup(acc, dir[..k]), dir[k].text)
  {
    var prev := ChildrenUpTo(acc, dir, n - 1);
    var q := dir[..n - 1];
    var w := WithChild(Lookup(prev, q), dir[n - 1].text);
    ChildrenUpToUnfold(acc, dir, n - 1);
    assert ChildrenUpTo(acc, dir, n) == prev[q := w];
    if k < n - 1 {
      ChildrenUpToAt(acc, dir, n - 1, k);
      assert |dir[..k]| != |q|;
    } else {
      ChildrenUpToUntouched(acc, dir, n - 1, q);
    }
  }

  /** After recording n components, every path that is not one of the first n proper
      prefixes keeps what it had. */
  lemma {:induction false} ChildrenUpToUntouched(acc: ChildrenMap, dir: Path, n: nat, p: Path)
    requires n <= |dir| && forall j :: 0 <= j < n ==> dir[j].Utf8?
    requires !(|p| < n && dir[..|p|] == p)
    ensures Lookup(ChildrenUpTo(acc, dir, n), p) == Lookup(acc, p)
  {
    if n > 0 {
      ChildrenUpToUntouched(acc, dir, n - 1, p);
    }
  }

  lemma PrefixesStep(dir: Path, i: nat)
    requires i < |dir|
    ensures Prefixes(dir, i + 1) == Prefixes(dir, i) + {dir[..i]}
  {
  }

  /** The index of the first non-UTF-8 component, once all before it are UTF-8. */
  lemma FirstNonUtf8At(p: Path, i: nat)
    requires i < |p| && p[i].NonUtf8? && forall k :: 0 <= k < i ==> p[k].Utf8?
    ensures !IsUtf8(p) && FirstNonUtf8(p) == i
  {
    var k := FirstNonUtf8(p);
    assert forall j :: 0 <= j < k ==> p[..k][j] == p[j];
  }

  /** Every directory whose children are held has no child listed twice. */
  predicate DistinctChildren(acc: ChildrenMap) {
    forall p :: p in acc ==> Distinct(acc[p])
  }

  /** `key_children_by_parent` on one package directory: the prefix of length k gains
      component k as a child, unless it already lists it; the directory itself gains no
      entry; a component that is not UTF-8 fails the whole step. */
  function KeyChildren(acc: ChildrenMap, dir: Path): (r: Result<ChildrenMap, InvalidUtf8Error>)
    ensures r.Err? <==> !IsUtf8(dir)
    ensures r.Err? ==> r.error == InvalidUtf8Error(dir[FirstNonUtf8(dir)])
    ensures r.Ok? ==> r.value == ChildrenUpTo(acc, dir, |dir|)
  {
    if IsUtf8(dir) then Ok(ChildrenUpTo(acc, dir, |dir|))
    else Err(InvalidUtf8Error(dir[FirstNonUtf8(dir)]))
  }

  /** What one step records: the keys are the old ones and the proper prefixes of the
      directory (not the directory itself); the prefix of length k gains component k;
      every other entry is untouched. */
  lemma KeyChildrenRecords(acc: ChildrenMap, dir: Path)
    requires IsUtf8(dir)
    ensures forall p :: p in KeyChildren(acc, dir).value <==> p in acc || ProperPrefix(p, dir)
    ensures forall k :: 0 <= k < |dir| ==> dir[..k] in KeyChildren(acc, dir).value
                                           && KeyChildren(acc, dir).value[dir[..k]] == WithChild(Lookup(acc, dir[..k]), dir[k].text)
    ensures forall p :: !ProperPrefix(p, dir) ==> Lookup(KeyChildren(acc, dir).value, p) == Lookup(acc, p)
  {
    ChildrenUpToKeys(acc, dir, |dir|);
    forall p
      ensures p in KeyChildren(acc, dir).value <==> p in acc || ProperPrefix(p, dir)
    {
      PrefixesAreProper(dir, p);
    }
    forall k | 0 <= k < |dir|
      ensures dir[..k] in KeyChildren(acc, dir).value
      ensures KeyChildren(acc, dir).value[dir[..k]] == WithChild(Lookup(acc, dir[..k]), dir[k].text)
    {
      ChildrenUpToAt(acc, dir, |dir|, k);
    }
    forall p | !ProperPrefix(p, dir)
      ensures Lookup(KeyChildren(acc, dir).value, p) == Lookup(acc, p)
    {
      ChildrenUpToUntouched(acc, dir, |dir|, p);
    }
  }

  /** No step ever lists a child twice. */
  lemma KeyChildrenDistinct(acc: ChildrenMap, dir: Path)
    requires IsUtf8(dir) && DistinctChildren(acc)
    ensures DistinctChildren(KeyChildren(acc, dir).value)
  {
    ChildrenUpToDistinct(acc, dir, |dir|);
  }

  lemma {:induction false} ChildrenUpToDistinct(acc: ChildrenMap, dir: Path, n: nat)
    requires n <= |dir| && (forall k :: 0 <= k < n ==> dir[k].Utf8?) && DistinctChildren(acc)
    ensures DistinctChildren(ChildrenUpTo(acc, dir, n))
  {
    if n > 0 {
      ChildrenUpToDistinct(acc, dir, n - 1);
      var prev := ChildrenUpTo(acc, dir, n - 1);
      var q := dir[..n - 1];
      var w := WithChild(Lookup(prev, q), dir[n - 1].text);
      ChildrenUpToUnfold(acc, dir, n - 1);
      assert Distinct(Lookup(prev, q));
      WithChildMeaning(Lookup(prev, q), dir[n - 1].text);
      var next := prev[q := w];
      forall p | p in next
        ensures Distinct(next[p])
      {
        if p != q {
          assert next[p] == prev[p];
        }
      }
    }
  }

  /** `key_children_by_parent`: the loop over the directory's components, pushing each
      one under the path walked so far. */
  method KeyChildrenByParent(accumulator: ChildrenMap, manifest: Manifest) returns (r: Result<ChildrenMap, InvalidUtf8Error>)
    ensures r == KeyChildren(accumulator, manifest.directory)
  {
    var dir := manifest.directory;
    var acc := accumulator;
    var pathSoFar: Path := [];
    var i := 0;
    while i < |dir|
      invariant 0 <= i <= |dir|
      invariant pathSoFar == dir[..i]
      invariant forall k :: 0 <= k < i ==> dir[k].Utf8?
      invariant acc == ChildrenUpTo(accumulator, dir, i)
    {
      var children := Lookup(acc, pathSoFar);
      var component := dir[i];
      if !component.Utf8? {
        KeyChildrenFailsAt(accumulator, dir, i);
        return Err(InvalidUtf8Error(component));
      }
      var newChild := component.text;
      if newChild !in children {
        children := children + [newChild];
      }
      assert children == WithChild(Lookup(acc, dir[..i]), dir[i].text);
      ChildrenUpToStep(accumulator, dir, i, acc);
      var parent := pathSoFar;
      pathSoFar := pathSoFar + [component];
      i := i + 1;
      acc := acc[parent := children];
    }
    KeyChildrenSucceeds(accumulator, dir);
    return Ok(acc);
  }

  lemma KeyChildrenFailsAt(accumulator: ChildrenMap, dir: Path, i: nat)
    requires i < |dir| && dir[i].NonUtf8? && forall k :: 0 <= k < i ==> dir[k].Utf8?
    ensures KeyChildren(accumulator, dir) == Err(InvalidUtf8Error(dir[i]))
  {
    FirstNonUtf8At(dir, i);
  }

  lemma KeyChildrenSucceeds(accumulator: ChildrenMap, dir: Path)
    requires forall k :: 0 <= k < |dir| ==> dir[k].Utf8?
    ensures KeyChildren(accumulator, dir) == Ok(ChildrenUpTo(accumulator, dir, |dir|))
  {
  }

  // ---------------------------------------------------------------------------
  // The fold over all manifests.

  predicate AllUtf8(ms: seq<Manifest>) {
    forall i :: 0 <= i < |ms| ==> IsUtf8(ms[i].directory)
  }

  /** `p` is a directory above some package. */
  predicate IsParent(ms: seq<Manifest>, p: Path) {
    exists i :: 0 <= i < |ms| && ProperPrefix(p, ms[i].directory)
  }

  /** `c` is the component after `p` on the way down to some package. */
  predicate IsChild(ms: seq<Manifest>, p: Path, c: string) {
    exists i :: 0 <= i < |ms| && ProperPrefix(p, ms[i].directory) && ms[i].directory[|p|] == Utf8(c)
  }

  /** The table the fold has built from `ms`: one entry per directory above a package,
      listing exactly its immediate children, each once. */
  ghost predicate ChildrenTable(ms: seq<Manifest>, r: ChildrenMap) {
    (forall p :: p in r <==> IsParent(ms, p))
    && (forall p, c :: p in r ==> (c in r[p] <==> IsChild(ms, p, c)))
    && DistinctChildren(r)
  }

  /** The `try_fold` of `key_children_by_parent` over the manifests in list order,
      starting from an empty table: it fails exactly when some directory is not UTF-8,
      and otherwise maps every directory above a package to its immediate children. */
  function ChildrenByParent(ms: seq<Manifest>): (r: Result<ChildrenMap, InvalidUtf8Error>)
    ensures r.Ok? <==> AllUtf8(ms)
    ensures r.Ok? ==> ChildrenTable(ms, r.value)
  {
    if ms == [] then Ok(map[])
    else
      var init := ms[..|ms| - 1];
      AllUtf8Snoc(ms);
      match ChildrenByParent(init)
      case Err(e) => Err(e)
      case Ok(acc) =>
        var r := KeyChildren(acc, ms[|ms| - 1].directory);
        if r.Ok? then
          ChildrenFoldStep(ms, acc);
          r
        else
          r
  }

  lemma AllUtf8Snoc(ms: seq<Manifest>)
    requires ms != []
    ensures AllUtf8(ms) <==> AllUtf8(ms[..|ms| - 1]) && IsUtf8(ms[|ms| - 1].directory)
  {
    var init := ms[..|ms| - 1];
    assert forall i :: 0 <= i < |init| ==> init[i] == ms[i];
  }

  lemma ChildrenFoldInit(ms: seq<Manifest>, p: Path, c: string)
    requires ms != []
    ensures IsParent(ms, p) <==> IsParent(ms[..|ms| - 1], p) || ProperPrefix(p, ms[|ms| - 1].directory)
    ensures IsChild(ms, p, c) <==> IsChild(ms[..|ms| - 1], p, c)
                                   || (ProperPrefix(p, ms[|ms| - 1].directory) && ms[|ms| - 1].directory[|p|] == Utf8(c))
  {
    var init := ms[..|ms| - 1];
    if IsParent(ms, p) {
      var i :| 0 <= i < |ms| && ProperPrefix(p, ms[i].directory);
      if i < |init| {
        assert init[i] == ms[i];
      }
    }
    if IsChild(ms, p, c) {
      var i :| 0 <= i < |ms| && ProperPrefix(p, ms[i].directory) && ms[i].directory[|p|] == Utf8(c);
      if i < |init| {
        assert init[i] == ms[i];
      }
    }
    if IsParent(init, p) {
      var i :| 0 <= i < |init| && ProperPrefix(p, init[i].directory);
      assert init[i] == ms[i];
    }
    if IsChild(init, p, c) {
      var i :| 0 <= i < |init| && ProperPrefix(p, init[i].directory) && init[i].directory[|p|] == Utf8(c);
      assert init[i] == ms[i];
    }
  }

  /** Adding the last manifest's directory to the table of the others gives the table
      of all of them. */
  lemma ChildrenFoldStep(ms: seq<Manifest>, acc: ChildrenMap)
    requires ms != [] && ChildrenTable(ms[..|ms| - 1], acc)
    requires IsUtf8(ms[|ms| - 1].directory)
    ensures ChildrenTable(ms, KeyChildren(acc, ms[|ms| - 1].directory).value)
  {
    KeyChildrenDistinct(acc, ms[|ms| - 1].directory);
    ChildrenFoldKeys(ms, acc);
    ChildrenFoldEntries(ms, acc);
  }

  /** The keys of `ChildrenFoldStep`: the directories above some package. */
  lemma ChildrenFoldKeys(ms: seq<Manifest>, acc: ChildrenMap)
    requires ms != [] && IsUtf8(ms[|ms| - 1].directory)
    requires forall p :: p in acc <==> IsParent(ms[..|ms| - 1], p)
    ensures forall p :: p in KeyChildren(acc, ms[|ms| - 1].directory).value <==> IsParent(ms, p)
  {
    KeyChildrenRecords(acc, ms[|ms| - 1].directory);
    forall p
      ensures p in KeyChildren(acc, ms[|ms| - 1].directory).value <==> IsParent(ms, p)
    {
      ChildrenFoldInit(ms, p, "");
    }
  }

  /** The entries of `ChildrenFoldStep`: the immediate children of each key. */
  lemma ChildrenFoldEntries(ms: seq<Manifest>, acc: ChildrenMap)
    requires ms != [] && IsUtf8(ms[|ms| - 1].directory)
    requires forall p :: p in acc <==> IsParent(ms[..|ms| - 1], p)
    requires forall p, c :: p in acc ==> (c in acc[p] <==> IsChild(ms[..|ms| - 1], p, c))
    ensures forall p, c :: p in KeyChildren(acc, ms[|ms| - 1].directory).value ==>
              (c in KeyChildren(acc, ms[|ms| - 1].directory).value[p] <==> IsChild(ms, p, c))
  {
    forall p, c | p in KeyChildren(acc, ms[|ms| - 1].directory).value
      ensures c in KeyChildren(acc, ms[|ms| - 1].directory).value[p] <==> IsChild(ms, p, c)
    {
      ChildrenFoldAt(ms, acc, p, c);
    }
  }

  /** One entry of `ChildrenFoldStep`: the children listed under `p` after the last
      manifest is added. */
  lemma ChildrenFoldAt(ms: seq<Manifest>, acc: ChildrenMap, p: Path, c: string)
    requires ms != [] && IsUtf8(ms[|ms| - 1].directory)
    requires p in acc <==> IsParent(ms[..|ms| - 1], p)
    requires p in acc ==> (c in acc[p] <==> IsChild(ms[..|ms| - 1], p, c))
    requires p in KeyChildren(acc, ms[|ms| - 1].directory).value
    ensures c in KeyChildren(acc, ms[|ms| - 1].directory).value[p] <==> IsChild(ms, p, c)
  {
    var init := ms[..|ms| - 1];
    var last := ms[|ms| - 1].directory;
    var r := KeyChildren(acc, last).value;
    KeyChildrenRecords(acc, last);
    ChildrenFoldInit(ms, p, c);
    if ProperPrefix(p, last) {
      assert last[..|p|] == p;
      assert r[p] == WithChild(Lookup(acc, p), last[|p|].text);
      WithChildMeaning(Lookup(acc, p), last[|p|].text);
      assert c in Lookup(acc, p) <==> IsChild(init, p, c);
    } else {
      assert Lookup(r, p) == Lookup(acc, p);
    }
  }

  /** The error is that of the first manifest whose directory is not UTF-8, at its first
      component that is not UTF-8. */
  lemma {:induction false} ChildrenByParentFailsAtFirst(ms: seq<Manifest>)
    requires !AllUtf8(ms)
    ensures exists i :: 0 <= i < |ms| && AllUtf8(ms[..i]) && !IsUtf8(ms[i].directory)
                        && ChildrenByParent(ms) == Err(InvalidUtf8Error(ms[i].directory[FirstNonUtf8(ms[i].directory)]))
  {
    var init := ms[..|ms| - 1];
    var last := ms[|ms| - 1];
    if AllUtf8(init) {
      assert ms[..|ms| - 1] == init;
    } else {
      ChildrenByParentFailsAtFirst(init);
      var i :| 0 <= i < |init| && AllUtf8(init[..i]) && !IsUtf8(init[i].directory)
               && ChildrenByParent(init) == Err(InvalidUtf8Error(init[i].directory[FirstNonUtf8(init[i].directory)]));
      assert init[i] == ms[i] && init[..i] == ms[..i];
    }
  }

  /** One more manifest folded into the table built from the ones before it. */
  lemma ChildrenByParentStep(ms: seq<Manifest>, i: nat, acc: ChildrenMap)
    requires i < |ms| && ChildrenByParent(ms[..i]) == Ok(acc)
    ensures ChildrenByParent(ms[..i + 1]) == KeyChildren(acc, ms[i].directory)
  {
    assert ms[..i + 1][..i] == ms[..i];
  }

  /** Once the fold has failed on a prefix of the manifests, the later ones cannot
      change the outcome: `try_fold` stops at the first error. */
  lemma {:induction false} ChildrenByParentErrExtends(ms: seq<Manifest>, j: nat)
    requires 0 < j <= |ms| && ChildrenByParent(ms[..j]).Err?
    ensures ChildrenByParent(ms) == ChildrenByParent(ms[..j])
  {
    if j < |ms| {
      var init := ms[..|ms| - 1];
      assert init[..j] == ms[..j];
      ChildrenByParentErrExtends(init, j);
    } else {
      assert ms[..j] == ms;
    }
  }

  // ---------------------------------------------------------------------------
  // Desired reference lists.

  function ReferencePaths(refs: seq<Reference>): (r: seq<string>)
    ensures |r| == |refs| && forall i :: 0 <= i < |refs| ==> r[i] == refs[i].path
  {
    seq(|refs|, i requires 0 <= i < |refs| => refs[i].path)
  }

  /** `create_project_references`: the children sorted, one reference per child, whose
      path is that child. */
  function CreateProjectReferences(children: seq<string>): (r: seq<Reference>)
    ensures Sorted(ReferencePaths(r)) && multiset(ReferencePaths(r)) == multiset(children)
  {
    var sorted := SortStrings(children);
    var r := seq(|sorted|, i requires 0 <= i < |sorted| => Reference(sorted[i]));
    assert ReferencePaths(r) == sorted;
    r
  }

  /** The list depends only on which children there are, not on the order in which the
      fold met them. */
  lemma CreateProjectReferencesOrderFree(a: seq<string>, b: seq<string>)
    requires multiset(a) == multiset(b)
    ensures CreateProjectReferences(a) == CreateProjectReferences(b)
  {
    var ra := CreateProjectReferences(a);
    var rb := CreateProjectReferences(b);
    SortedUnique(ReferencePaths(ra), ReferencePaths(rb));
    assert |ra| == |rb|;
    forall i | 0 <= i < |ra|
      ensures ra[i] == rb[i]
    {
      assert ra[i].path == ReferencePaths(ra)[i];
    }
  }

  // ---------------------------------------------------------------------------
  // Parent tsconfigs.

  /** The closure of `out_of_date_parent_project_references` for one directory: read
      its parent tsconfig, and report it when its `references` differ from the sorted
      children. */
  function ParentStatus(files: map<Path, Json>, root: Path, directory: Path, children: seq<string>)
    : (r: Result<Option<OutOfDateParentProjectReferences>, FromFileError>)
    ensures r.Ok? <==> ReadParentConfig(files, root, directory).Ok?
    ensures r.Err? ==> r.error == ReadParentConfig(files, root, directory).error
    ensures r.Ok? && r.value.Some? ==> r.value.value.tsconfig.directory == directory
  {
    var desired := CreateProjectReferences(children);
    match ReadParentConfig(files, root, directory)
    case Err(e) => Err(e)
    case Ok(tsconfig) =>
      Ok(if tsconfig.contents.references != desired then Some(OutOfDateParent(tsconfig, desired)) else None)
  }

  predicate ParentsReadable(files: map<Path, Json>, root: Path, children: ChildrenMap) {
    forall d :: d in children ==> ReadParentConfig(files, root, d).Ok?
  }

  /** The report of one directory of the table, if any. */
  function ParentReport(files: map<Path, Json>, root: Path, children: ChildrenMap, d: Path): Option<OutOfDateParentProjectReferences> {
    if d in children && ParentStatus(files, root, d, children[d]).Ok? then ParentStatus(files, root, d, children[d]).value else None
  }

  function ParentReports(files: map<Path, Json>, root: Path, children: ChildrenMap): Path -> Option<OutOfDateParentProjectReferences> {
    d => ParentReport(files, root, children, d)
  }

  /** The out-of-date parent tsconfigs of the directories in `dirs`. */
  function StaleParentsAmong(files: map<Path, Json>, root: Path, children: ChildrenMap, dirs: set<Path>)
    : set<OutOfDateParentProjectReferences>
  {
    Image(ParentReports(files, root, children), dirs)
  }

  function StaleParents(files: map<Path, Json>, root: Path, children: ChildrenMap): set<OutOfDateParentProjectReferences> {
    StaleParentsAmong(files, root, children, children.Keys)
  }

  /** A parent tsconfig is reported exactly when its current `references` differ from
      its sorted children, and the report carries the tsconfig read and that list. */
  lemma StaleParentsExactly(files: map<Path, Json>, root: Path, children: ChildrenMap, o: OutOfDateParentProjectReferences)
    ensures o in StaleParents(files, root, children) <==>
              o.tsconfig.directory in children
              && ReadParentConfig(files, root, o.tsconfig.directory) == Ok(o.tsconfig)
              && o.desiredReferences == CreateProjectReferences(children[o.tsconfig.directory])
              && o.tsconfig.contents.references != o.desiredReferences
  {
    if o in StaleParents(files, root, children) {
      var d := FromImage(ParentReports(files, root, children), children.Keys, o);
      assert ParentReport(files, root, children, d) == Some(o);
    }
    if o.tsconfig.directory in children
       && ReadParentConfig(files, root, o.tsconfig.directory) == Ok(o.tsconfig)
       && o.desiredReferences == CreateProjectReferences(children[o.tsconfig.directory])
       && o.tsconfig.contents.references != o.desiredReferences {
      var d := o.tsconfig.directory;
      assert ParentStatus(files, root, d, children[d]) == Ok(Some(o));
      assert ParentReports(files, root, children)(d) == Some(o);
      InImage(ParentReports(files, root, children), children.Keys, d);
    }
  }

  lemma StaleParentsAmongAdd(files: map<Path, Json>, root: Path, children: ChildrenMap, dirs: set<Path>, d: Path)
    requires d in children
    ensures StaleParentsAmong(files, root, children, dirs + {d}) ==
            StaleParentsAmong(files, root, children, dirs)
            + (if ParentStatus(files, root, d, children[d]).Ok? && ParentStatus(files, root, d, children[d]).value.Some?
               then {ParentStatus(files, root, d, children[d]).value.value} else {})
  {
    assert ParentReports(files, root, children)(d) == ParentReport(files, root, children, d);
    ImageAdd(ParentReports(files, root, children), dirs, d);
  }

  /** The `map` over the table's entries and the `collect` into a `Result`: every
      parent tsconfig is read, in the table's own order; the first that cannot be read
      fails the whole call; otherwise the out-of-date ones are returned. */
  method CollectStaleParents(files: map<Path, Json>, root: Path, children: ChildrenMap)
    returns (r: Result<seq<OutOfDateParentProjectReferences>, InternalError>)
    ensures r.Ok? <==> ParentsReadable(files, root, children)
    ensures r.Err? ==> r.error.FromFile? && exists d :: d in children && ReadParentConfig(files, root, d) == Err(r.error.fileError)
    ensures r.Ok? ==> Distinct(r.value) && Elems(r.value) == StaleParents(files, root, children)
  {
    var dirs := SetToSeq(children.Keys);
    r := StaleParentsIn(files, root, children, dirs);
    if r.Ok? {
      forall d | d in children
        ensures ReadParentConfig(files, root, d).Ok?
      {
        var k :| 0 <= k < |dirs| && dirs[k] == d;
      }
    }
  }

  /** One more directory of a distinct list: its set of elements grows by it, and it
      was not among the ones before. */
  lemma ElemsStep(dirs: seq<Path>, j: nat)
    requires Distinct(dirs) && j < |dirs|
    ensures Elems(dirs[..j + 1]) == Elems(dirs[..j]) + {dirs[j]}
    ensures dirs[j] !in dirs[..j]
  {
    assert dirs[..j + 1] == dirs[..j] + [dirs[j]];
    ElemsAppend(dirs[..j], [dirs[j]]);
    DistinctMeaning(dirs);
  }

  /** Appending the report of a directory not seen before keeps the reports distinct. */
  lemma StaleOutStep(out: seq<OutOfDateParentProjectReferences>, o: OutOfDateParentProjectReferences, before: set<Path>)
    requires Distinct(out) && forall k :: 0 <= k < |out| ==> out[k].tsconfig.directory in before
    requires o.tsconfig.directory !in before
    ensures Distinct(out + [o])
    ensures forall k :: 0 <= k < |out + [o]| ==> (out + [o])[k].tsconfig.directory in before + {o.tsconfig.directory}
    ensures Elems(out + [o]) == Elems(out) + {o}
  {
    ElemsAppend(out, [o]);
    DistinctSnoc(out, o);
  }

  /** One turn of the loop over the entries: the invariants carry over to the next
      directory, `seen` being the directories visited so far. */
  lemma StaleParentsInStep(files: map<Path, Json>, root: Path, children: ChildrenMap, dirs: seq<Path>, j: nat,
                           seen: set<Path>, out: seq<OutOfDateParentProjectReferences>)
    returns (out': seq<OutOfDateParentProjectReferences>)
    requires Distinct(dirs) && j < |dirs| && dirs[j] in children && seen == Elems(dirs[..j])
    requires ParentStatus(files, root, dirs[j], children[dirs[j]]).Ok?
    requires Distinct(out) && forall k :: 0 <= k < |out| ==> out[k].tsconfig.directory in seen
    requires Elems(out) == StaleParentsAmong(files, root, children, seen)
    requires forall k :: 0 <= k < j ==> ReadParentConfig(files, root, dirs[k]).Ok?
    ensures forall k :: 0 <= k < j + 1 ==> ReadParentConfig(files, root, dirs[k]).Ok?
    ensures seen + {dirs[j]} == Elems(dirs[..j + 1])
    ensures var status := ParentStatus(files, root, dirs[j], children[dirs[j]]).value;
            out' == if status.Some? then out + [status.value] else out
    ensures Distinct(out')
    ensures forall k :: 0 <= k < |out'| ==> out'[k].tsconfig.directory in seen + {dirs[j]}
    ensures Elems(out') == StaleParentsAmong(files, root, children, seen + {dirs[j]})
  {
    var d := dirs[j];
    var status := ParentStatus(files, root, d, children[d]).value;
    out' := if status.Some? then out + [status.value] else out;
    ElemsStep(dirs, j);
    StaleParentsAmongAdd(files, root, children, seen, d);
    if status.Some? {
      StaleOutStep(out, status.value, seen);
    } else {
      assert Elems(out) + {} == Elems(out);
    }
  }

  /** The loop over the entries in the order `dirs` lists them. */
  method StaleParentsIn(files: map<Path, Json>, root: Path, children: ChildrenMap, dirs: seq<Path>)
    returns (r: Result<seq<OutOfDateParentProjectReferences>, InternalError>)
    requires Distinct(dirs) && forall k :: 0 <= k < |dirs| ==> dirs[k] in children
    ensures r.Ok? <==> forall k :: 0 <= k < |dirs| ==> ReadParentConfig(files, root, dirs[k]).Ok?
    ensures r.Err? ==> r.error.FromFile? && exists d :: d in children && ReadParentConfig(files, root, d) == Err(r.error.fileError)
    ensures r.Ok? ==> Distinct(r.value) && Elems(r.value) == StaleParentsAmong(files, root, children, Elems(dirs))
  {
    var out: seq<OutOfDateParentProjectReferences> := [];
    ghost var seen: set<Path> := {};
    var j := 0;
    while j < |dirs|
      invariant 0 <= j <= |dirs| && seen == Elems(dirs[..j])
      invariant forall k :: 0 <= k < j ==> ReadParentConfig(files, root, dirs[k]).Ok?
      invariant Distinct(out)
      invariant forall k :: 0 <= k < |out| ==> out[k].tsconfig.directory in seen
      invariant Elems(out) == StaleParentsAmong(files, root, children, seen)
    {
      var d := dirs[j];
      var status := ParentStatus(files, root, d, children[d]);
      if status.Err? {
        assert ReadParentConfig(files, root, dirs[j]) == Err(status.error);
        return Err(FromFile(status.error));
      }
      ghost var out' := StaleParentsInStep(files, root, children, dirs, j, seen, out);
      if status.value.Some? {
        out := out + [status.value.value];
      }
      seen := seen + {d};
      j := j + 1;
    }
    assert dirs[..|dirs|] == dirs;
    return Ok(out);
  }

  /** `out_of_date_parent_project_references`: the fold over the manifests, then the
      tsconfig of every directory above a package. */
  method OutOfDateParentProjectReferences(files: map<Path, Json>, root: Path, monorepo: MonorepoManifest)
    returns (r: Result<seq<OutOfDateParentProjectReferences>, InternalError>)
    ensures ChildrenByParent(monorepo.internalPackageManifests).Err? ==>
              r == Err(InvalidUtf8(ChildrenByParent(monorepo.internalPackageManifests).error))
    ensures ChildrenByParent(monorepo.internalPackageManifests).Ok? ==>
              (r.Ok? <==> ParentsReadable(files, root, ChildrenByParent(monorepo.internalPackageManifests).value))
    ensures ChildrenByParent(monorepo.internalPackageManifests).Ok? && r.Err? ==>
              r.error.FromFile? && exists d :: d in ChildrenByParent(monorepo.internalPackageManifests).value
                                              && ReadParentConfig(files, root, d) == Err(r.error.fileError)
    ensures r.Ok? ==> ChildrenByParent(monorepo.internalPackageManifests).Ok? && Distinct(r.value)
                      && Elems(r.value) == StaleParents(files, root, ChildrenByParent(monorepo.internalPackageManifests).value)
  {
    var children := FoldChildrenByParent(monorepo.internalPackageManifests);
    if children.Err? {
      return Err(InvalidUtf8(children.error));
    }
    r := CollectStaleParents(files, root, children.value);
  }

  /** The `try_fold` of `key_children_by_parent` over the manifests, stopping at the
      first error. */
  method FoldChildrenByParent(ms: seq<Manifest>) returns (r: Result<ChildrenMap, InvalidUtf8Error>)
    ensures r == ChildrenByParent(ms)
  {
    var acc: ChildrenMap := map[];
    var i := 0;
    while i < |ms|
      invariant 0 <= i <= |ms|
      invariant ChildrenByParent(ms[..i]) == Ok(acc)
    {
      var step := KeyChildrenByParent(acc, ms[i]);
      ChildrenByParentStep(ms, i, acc);
      if step.Err? {
        ChildrenByParentErrExtends(ms, i + 1);
        return step;
      }
      acc := step.value;
      i := i + 1;
    }
    assert ms[..|ms|] == ms;
    return Ok(acc);
  }

  // ---------------------------------------------------------------------------
  // Package tsconfigs.

  /** `diff_paths(dependency.directory(), package_manifest.directory())` for each
      direct internal dependency, in the order the dependencies are listed. */
  function DependencyRelativePaths(m: Manifest, byName: map<string, Manifest>): (r: seq<Path>)
    ensures |r| == |GetInternalDependencies(m, byName)|
    ensures forall i :: 0 <= i < |r| ==> r[i] == DiffPaths(GetInternalDependencies(m, byName)[i].directory, m.directory)
  {
    var deps := GetInternalDependencies(m, byName);
    seq(|deps|, i requires 0 <= i < |deps| => DiffPaths(deps[i].directory, m.directory))
  }

  /** Each relative path leads from the package to its dependency. */
  lemma DependencyPathResolves(m: Manifest, byName: map<string, Manifest>, i: nat)
    requires i < |GetInternalDependencies(m, byName)| && Ordinary(GetInternalDependencies(m, byName)[i].directory)
    ensures Resolve(m.directory, DependencyRelativePaths(m, byName)[i]) == GetInternalDependencies(m, byName)[i].directory
  {
    DiffPathsResolves(GetInternalDependencies(m, byName)[i].directory, m.directory);
  }

  /** The source's `to_str().expect(..)`: every relative path must be UTF-8. */
  predicate DiffsUtf8(m: Manifest, byName: map<string, Manifest>) {
    forall i :: 0 <= i < |DependencyRelativePaths(m, byName)| ==> IsUtf8(DependencyRelativePaths(m, byName)[i])
  }

  predicate AllDiffsUtf8(byName: map<string, Manifest>) {
    forall n {:trigger DiffsUtf8(byName[n], byName)} :: n in byName ==> DiffsUtf8(byName[n], byName)
  }

  /** Once the fold has succeeded every directory is UTF-8, and so is every relative
      path between two packages. */
  lemma AllDiffsUtf8OfFold(ms: seq<Manifest>)
    requires AllUtf8(ms)
    ensures AllDiffsUtf8(PackageManifestsByPackageName(ms))
  {
    var byName := PackageManifestsByPackageName(ms);
    forall n, i | n in byName && 0 <= i < |DependencyRelativePaths(byName[n], byName)|
      ensures IsUtf8(DependencyRelativePaths(byName[n], byName)[i])
    {
      var deps := GetInternalDependencies(byName[n], byName);
      var k := InternalDependencyNames(byName[n], byName.Keys)[i];
      var j :| 0 <= j < |ms| && LastWithName(ms, k, j) && byName[k] == ms[j];
      DiffPathsUtf8(deps[i].directory, byName[n].directory);
    }
  }

  /** The rendered relative paths, unsorted. */
  function DependencyReferencePaths(m: Manifest, byName: map<string, Manifest>): (r: seq<string>)
    requires DiffsUtf8(m, byName)
    ensures |r| == |GetInternalDependencies(m, byName)|
    ensures forall i :: 0 <= i < |r| ==> r[i] == Render(DependencyRelativePaths(m, byName)[i])
  {
    var paths := DependencyRelativePaths(m, byName);
    seq(|paths|, i requires 0 <= i < |paths| => Render(paths[i]))
  }

  /** `desired_references` of a package: the relative paths to its direct internal
      dependencies, sorted. */
  function DesiredPackageReferences(m: Manifest, byName: map<string, Manifest>): (r: seq<Reference>)
    requires DiffsUtf8(m, byName)
    ensures Sorted(ReferencePaths(r))
    ensures multiset(ReferencePaths(r)) == multiset(DependencyReferencePaths(m, byName))
    ensures |r| == |GetInternalDependencies(m, byName)|
  {
    var r := CreateProjectReferences(DependencyReferencePaths(m, byName));
    assert |ReferencePaths(r)| == |DependencyReferencePaths(m, byName)| by {
      assert |multiset(ReferencePaths(r))| == |multiset(DependencyReferencePaths(m, byName))|;
    }
    r
  }

  /** The source panics when a package tsconfig's `references` do not deserialise. */
  predicate ReferencesReadableAt(files: map<Path, Json>, root: Path, directory: Path) {
    ReadTypescriptConfig(files, root, directory).Ok? ==> ReferencesReadable(ReadTypescriptConfig(files, root, directory).value)
  }

  predicate AllReferencesReadable(files: map<Path, Json>, root: Path, byName: map<string, Manifest>) {
    forall n {:trigger ReferencesReadableAt(files, root, byName[n].directory)} :: n in byName ==> ReferencesReadableAt(files, root, byName[n].directory)
  }

  /** The closure of `out_of_date_package_project_references` for one package: read
      its tsconfig, and report it when its current `references` (none when the key is
      absent) differ from the desired list. */
  function PackageStatus(files: map<Path, Json>, root: Path, m: Manifest, byName: map<string, Manifest>)
    : (r: Result<Option<OutOfDatePackageProjectReferences>, FromFileError>)
    requires DiffsUtf8(m, byName) && ReferencesReadableAt(files, root, m.directory)
    ensures r.Ok? <==> ReadTypescriptConfig(files, root, m.directory).Ok?
    ensures r.Err? ==> r.error == ReadTypescriptConfig(files, root, m.directory).error
    ensures r.Ok? && r.value.Some? ==> r.value.value.tsconfig.directory == m.directory
  {
    match ReadTypescriptConfig(files, root, m.directory)
    case Err(e) => Err(e)
    case Ok(tsconfig) =>
      var desired := DesiredPackageReferences(m, byName);
      Ok(if CurrentReferences(tsconfig) != desired then Some(OutOfDatePackage(tsconfig, desired)) else None)
  }

  predicate PackagesReadable(files: map<Path, Json>, root: Path, byName: map<string, Manifest>) {
    forall n :: n in byName ==> ReadTypescriptConfig(files, root, byName[n].directory).Ok?
  }

  /** The report of one package of the table, if any. */
  function PackageReport(files: map<Path, Json>, root: Path, byName: map<string, Manifest>, n: string)
    : Option<OutOfDatePackageProjectReferences>
  {
    if n in byName && DiffsUtf8(byName[n], byName) && ReferencesReadableAt(files, root, byName[n].directory)
       && PackageStatus(files, root, byName[n], byName).Ok?
    then PackageStatus(files, root, byName[n], byName).value
    else None
  }

  function PackageReports(files: map<Path, Json>, root: Path, byName: map<string, Manifest>): string -> Option<OutOfDatePackageProjectReferences> {
    n => PackageReport(files, root, byName, n)
  }

  /** The out-of-date package tsconfigs of the packages named in `names`. */
  function StalePackagesAmong(files: map<Path, Json>, root: Path, byName: map<string, Manifest>, names: set<string>)
    : set<OutOfDatePackageProjectReferences>
  {
    Image(PackageReports(files, root, byName), names)
  }

  function StalePackages(files: map<Path, Json>, root: Path, byName: map<string, Manifest>): set<OutOfDatePackageProjectReferences> {
    StalePackagesAmong(files, root, byName, byName.Keys)
  }

  /** What it means for `o` to be the report of the package named `n`: its tsconfig as
      read, and the desired list that its current list differs from. */
  predicate ReportsPackage(files: map<Path, Json>, root: Path, byName: map<string, Manifest>, n: string,
                           o: OutOfDatePackageProjectReferences) {
    && n in byName && DiffsUtf8(byName[n], byName)
    && ReadTypescriptConfig(files, root, byName[n].directory) == Ok(o.tsconfig)
    && o.desiredReferences == DesiredPackageReferences(byName[n], byName)
    && ReferencesReadable(o.tsconfig) && CurrentReferences(o.tsconfig) != o.desiredReferences
  }

  /** A package tsconfig is reported exactly when its current `references` differ from
      the sorted relative paths to the dependencies of a package in that directory. */
  lemma StalePackagesExactly(files: map<Path, Json>, root: Path, byName: map<string, Manifest>, o: OutOfDatePackageProjectReferences)
    requires AllDiffsUtf8(byName) && AllReferencesReadable(files, root, byName)
    ensures o in StalePackages(files, root, byName) <==> exists n :: ReportsPackage(files, root, byName, n, o)
  {
    if o in StalePackages(files, root, byName) {
      var n := FromImage(PackageReports(files, root, byName), byName.Keys, o);
      assert PackageReport(files, root, byName, n) == Some(o);
      assert ReportsPackage(files, root, byName, n, o);
    }
    if n :| ReportsPackage(files, root, byName, n, o) {
      assert ReferencesReadableAt(files, root, byName[n].directory);
      assert PackageStatus(files, root, byName[n], byName) == Ok(Some(o));
      assert PackageReports(files, root, byName)(n) == Some(o);
      InImage(PackageReports(files, root, byName), byName.Keys, n);
    }
  }

  /** The `map` over the table's values and the `collect` into a `Result`. Two names
      may yield equal reports, so the list may repeat one; as a set it is exact. */
  method CollectStalePackages(files: map<Path, Json>, root: Path, byName: map<string, Manifest>)
    returns (r: Result<seq<OutOfDatePackageProjectReferences>, InternalError>)
    requires AllDiffsUtf8(byName) && AllReferencesReadable(files, root, byName)
    ensures r.Ok? <==> PackagesReadable(files, root, byName)
    ensures r.Err? ==> r.error.FromFile? && exists n :: n in byName && ReadTypescriptConfig(files, root, byName[n].directory) == Err(r.error.fileError)
    ensures r.Ok? ==> Elems(r.value) == StalePackages(files, root, byName)
  {
    var names := SetToSeq(byName.Keys);
    r := StalePackagesIn(files, root, byName, names);
    if r.Ok? {
      forall n | n in byName
        ensures ReadTypescriptConfig(files, root, byName[n].directory).Ok?
      {
        var k :| 0 <= k < |names| && names[k] == n;
      }
    }
  }

  /** The tsconfig of every package named in `names` was read. */
  predicate TsconfigsRead(files: map<Path, Json>, root: Path, byName: map<string, Manifest>, names: seq<string>) {
    forall k :: 0 <= k < |names| ==> names[k] in byName && ReadTypescriptConfig(files, root, byName[names[k]].directory).Ok?
  }

  lemma TsconfigsReadStep(files: map<Path, Json>, root: Path, byName: map<string, Manifest>, names: seq<string>, j: nat)
    requires j < |names| && names[j] in byName && TsconfigsRead(files, root, byName, names[..j])
    requires ReadTypescriptConfig(files, root, byName[names[j]].directory).Ok?
    ensures TsconfigsRead(files, root, byName, names[..j + 1])
  {
    assert forall k :: 0 <= k < j ==> names[..j + 1][k] == names[..j][k];
  }

  lemma StalePackagesStep(files: map<Path, Json>, root: Path, byName: map<string, Manifest>, names: seq<string>, j: nat,
                          out: seq<OutOfDatePackageProjectReferences>, status: Option<OutOfDatePackageProjectReferences>)
    requires j < |names| && names[j] in byName
    requires DiffsUtf8(byName[names[j]], byName) && ReferencesReadableAt(files, root, byName[names[j]].directory)
    requires PackageStatus(files, root, byName[names[j]], byName) == Ok(status)
    requires Elems(out) == StalePackagesAmong(files, root, byName, Elems(names[..j]))
    ensures status.Some? ==> Elems(out + [status.value]) == StalePackagesAmong(files, root, byName, Elems(names[..j + 1]))
    ensures status.None? ==> Elems(out) == StalePackagesAmong(files, root, byName, Elems(names[..j + 1]))
  {
    assert PackageReports(files, root, byName)(names[j]) == status;
    ImageStep(PackageReports(files, root, byName), names, j, out, status);
  }

  /** The loop over the names in the order `names` lists them. */
  method StalePackagesIn(files: map<Path, Json>, root: Path, byName: map<string, Manifest>, names: seq<string>)
    returns (r: Result<seq<OutOfDatePackageProjectReferences>, InternalError>)
    requires AllDiffsUtf8(byName) && AllReferencesReadable(files, root, byName)
    requires forall k :: 0 <= k < |names| ==> names[k] in byName
    ensures r.Ok? <==> TsconfigsRead(files, root, byName, names)
    ensures r.Err? ==> r.error.FromFile? && exists n :: n in byName && ReadTypescriptConfig(files, root, byName[n].directory) == Err(r.error.fileError)
    ensures r.Ok? ==> Elems(r.value) == StalePackagesAmong(files, root, byName, Elems(names))
  {
    var out: seq<OutOfDatePackageProjectReferences> := [];
    var j := 0;
    while j < |names|
      invariant 0 <= j <= |names|
      invariant TsconfigsRead(files, root, byName, names[..j])
      invariant Elems(out) == StalePackagesAmong(files, root, byName, Elems(names[..j]))
    {
      var n := names[j];
      var status := PackageStatus(files, root, byName[n], byName);
      if status.Err? {
        return Err(FromFile(status.error));
      }
      TsconfigsReadStep(files, root, byName, names, j);
      assert ReferencesReadableAt(files, root, byName[n].directory);
      StalePackagesStep(files, root, byName, names, j, out, status.value);
      if status.value.Some? {
        out := out + [status.value.value];
      }
      j := j + 1;
    }
    assert names[..|names|] == names;
    return Ok(out);
  }

  /** `out_of_date_package_project_references`: every package of the name → manifest
      table, with the tsconfig it holds and the references it should hold. */
  method OutOfDatePackageProjectReferences(files: map<Path, Json>, root: Path, monorepo: MonorepoManifest)
    returns (r: Result<seq<OutOfDatePackageProjectReferences>, InternalError>)
    requires AllDiffsUtf8(PackageManifestsByPackageName(monorepo.internalPackageManifests))
    requires AllReferencesReadable(files, root, PackageManifestsByPackageName(monorepo.internalPackageManifests))
    ensures r.Ok? <==> PackagesReadable(files, root, PackageManifestsByPackageName(monorepo.internalPackageManifests))
    ensures r.Err? ==> r.error.FromFile?
                       && exists n :: n in PackageManifestsByPackageName(monorepo.internalPackageManifests)
                                      && ReadTypescriptConfig(files, root, PackageManifestsByPackageName(monorepo.internalPackageManifests)[n].directory)
                                         == Err(r.error.fileError)
    ensures r.Ok? ==> Elems(r.value) == StalePackages(files, root, PackageManifestsByPackageName(monorepo.internalPackageManifests))
  {
    var byName := PackageManifestsByPackageName(monorepo.internalPackageManifests);
    r := CollectStalePackages(files, root, byName);
  }

  /** Every reported package still needs its update when the writes come round. */
  lemma StalePackagesNeedUpdate(files: map<Path, Json>, root: Path, byName: map<string, Manifest>, o: OutOfDatePackageProjectReferences)
    requires AllDiffsUtf8(byName) && AllReferencesReadable(files, root, byName)
    requires o in StalePackages(files, root, byName)
    ensures NeedsUpdate(o)
  {
    StalePackagesExactly(files, root, byName, o);
  }

  // ---------------------------------------------------------------------------
  // Rewriting the out-of-date tsconfigs.

  /** What `link_children_packages` writes for one report: the parent tsconfig with its
      `references` replaced by the desired list. */
  function ParentWrite(root: Path, o: OutOfDateParentProjectReferences): (Path, Json) {
    (ConfigPath(root, o.tsconfig.directory, TsconfigFilename),
     EncodeParent(o.tsconfig.contents.(references := o.desiredReferences)))
  }

  function ParentWrites(root: Path, os: set<OutOfDateParentProjectReferences>): set<(Path, Json)> {
    set o | o in os :: ParentWrite(root, o)
  }

  /** The check `link_package_dependencies` repeats before writing a package tsconfig. */
  predicate NeedsUpdate(o: OutOfDatePackageProjectReferences) {
    ReferencesReadable(o.tsconfig) && CurrentReferences(o.tsconfig) != o.desiredReferences
  }

  /** What `link_package_dependencies` writes for one report: the tsconfig with its
      `references` key replaced and every other key kept. */
  function PackageWrite(root: Path, o: OutOfDatePackageProjectReferences): (Path, Json) {
    (ConfigPath(root, o.tsconfig.directory, TsconfigFilename),
     JObject(WithReferences(o.tsconfig, o.desiredReferences).contents))
  }

  function PackageWrites(root: Path, os: set<OutOfDatePackageProjectReferences>): set<(Path, Json)> {
    set o | o in os && NeedsUpdate(o) :: PackageWrite(root, o)
  }

  /** Every file `link_children_packages` writes is a tsconfig.json. */
  lemma ParentWritesTsconfigs(root: Path, os: set<OutOfDateParentProjectReferences>)
    ensures forall w | w in ParentWrites(root, os) :: |w.0| > 0 && w.0[|w.0| - 1] == Utf8(TsconfigFilename)
  {
    forall w | w in ParentWrites(root, os)
      ensures |w.0| > 0 && w.0[|w.0| - 1] == Utf8(TsconfigFilename)
    {
      var o :| o in os && w == ParentWrite(root, o);
    }
  }

  /** Every file `link_package_dependencies` writes is a tsconfig.json. */
  lemma PackageWritesTsconfigs(root: Path, os: set<OutOfDatePackageProjectReferences>)
    ensures forall w | w in PackageWrites(root, os) :: |w.0| > 0 && w.0[|w.0| - 1] == Utf8(TsconfigFilename)
  {
    forall w | w in PackageWrites(root, os)
      ensures |w.0| > 0 && w.0[|w.0| - 1] == Utf8(TsconfigFilename)
    {
      var o :| o in os && NeedsUpdate(o) && w == PackageWrite(root, o);
    }
  }

  /** The `try_for_each` of `link_children_packages`: each report's tsconfig, its
      references replaced, is written in list order. */
  method WriteParentConfigs(fs: FileSystem, root: Path, os: seq<OutOfDateParentProjectReferences>)
    modifies fs
    ensures WrittenBy(old(fs.files), ParentWrites(root, Elems(os)), fs.files)
  {
    ghost var before := fs.files;
    WrittenByNothing(before);
    var i := 0;
    while i < |os|
      invariant 0 <= i <= |os|
      invariant WrittenBy(before, ParentWrites(root, Elems(os[..i])), fs.files)
    {
      var o := os[i];
      var tsconfig := o.tsconfig.(contents := o.tsconfig.contents.(references := o.desiredReferences));
      ghost var prev := fs.files;
      WriteParentConfig(fs, root, tsconfig);
      WrittenByStep(before, ParentWrites(root, Elems(os[..i])), prev, ParentWrite(root, o));
      ElemsPrefixStep(os, i);
      assert ParentWrites(root, Elems(os[..i + 1])) == ParentWrites(root, Elems(os[..i])) + {ParentWrite(root, o)};
      i := i + 1;
    }
    assert os[..|os|] == os;
  }

  lemma PackageWritesStep(root: Path, os: seq<OutOfDatePackageProjectReferences>, i: nat)
    requires i < |os|
    ensures PackageWrites(root, Elems(os[..i + 1])) ==
            PackageWrites(root, Elems(os[..i])) + (if NeedsUpdate(os[i]) then {PackageWrite(root, os[i])} else {})
  {
    ElemsPrefixStep(os, i);
  }

  /** One turn of the write loop extends the batch by the report's write, if any. */
  lemma PackageWriteStep(before: map<Path, Json>, root: Path, os: seq<OutOfDatePackageProjectReferences>, i: nat,
                         prev: map<Path, Json>, after: map<Path, Json>)
    requires i < |os| && WrittenBy(before, PackageWrites(root, Elems(os[..i])), prev)
    requires after == if NeedsUpdate(os[i]) then prev[PackageWrite(root, os[i]).0 := PackageWrite(root, os[i]).1] else prev
    ensures WrittenBy(before, PackageWrites(root, Elems(os[..i + 1])), after)
  {
    PackageWritesStep(root, os, i);
    if NeedsUpdate(os[i]) {
      WrittenByStep(before, PackageWrites(root, Elems(os[..i])), prev, PackageWrite(root, os[i]));
    } else {
      assert PackageWrites(root, Elems(os[..i])) + {} == PackageWrites(root, Elems(os[..i]));
    }
  }

  /** The write half of `link_package_dependencies`: a report whose tsconfig still
      differs is written with the desired references, in list order. */
  method WritePackageConfigs(fs: FileSystem, root: Path, os: seq<OutOfDatePackageProjectReferences>)
    requires forall k :: 0 <= k < |os| ==> ReferencesReadable(os[k].tsconfig)
    modifies fs
    ensures WrittenBy(old(fs.files), PackageWrites(root, Elems(os)), fs.files)
  {
    ghost var before := fs.files;
    WrittenByNothing(before);
    var i := 0;
    while i < |os|
      invariant 0 <= i <= |os|
      invariant WrittenBy(before, PackageWrites(root, Elems(os[..i])), fs.files)
    {
      var o := os[i];
      ghost var prev := fs.files;
      if CurrentReferences(o.tsconfig) != o.desiredReferences {
        WriteTypescriptConfig(fs, root, WithReferences(o.tsconfig, o.desiredReferences));
      }
      PackageWriteStep(before, root, os, i, prev, fs.files);
      i := i + 1;
    }
    assert os[..|os|] == os;
  }

  /** The fold over the manifests succeeded and every parent tsconfig could be read. */
  predicate ParentsReadableFor(files: map<Path, Json>, root: Path, ms: seq<Manifest>) {
    ChildrenByParent(ms).Ok? && ParentsReadable(files, root, ChildrenByParent(ms).value)
  }

  /** `after` is `before` with every out-of-date parent tsconfig rewritten. */
  ghost predicate ParentsLinked(before: map<Path, Json>, root: Path, ms: seq<Manifest>, after: map<Path, Json>) {
    ParentsReadableFor(before, root, ms)
    && WrittenBy(before, ParentWrites(root, StaleParents(before, root, ChildrenByParent(ms).value)), after)
  }

  /** `after` is `before` with every out-of-date package tsconfig rewritten. */
  ghost predicate PackagesLinked(before: map<Path, Json>, root: Path, ms: seq<Manifest>, after: map<Path, Json>) {
    var byName := PackageManifestsByPackageName(ms);
    PackagesReadable(before, root, byName) && WrittenBy(before, PackageWrites(root, StalePackages(before, root, byName)), after)
  }

  /** `link_children_packages`: every parent tsconfig is read before the first write,
      so a failure changes nothing; otherwise exactly the out-of-date ones are
      rewritten. */
  method LinkChildrenPackages(fs: FileSystem, root: Path, monorepo: MonorepoManifest) returns (r: Result<(), LinkError>)
    modifies fs
    ensures r.Ok? <==> ParentsReadableFor(old(fs.files), root, monorepo.internalPackageManifests)
    ensures ChildrenByParent(monorepo.internalPackageManifests).Err? ==>
              r == Err(LinkInvalidUtf8(ChildrenByParent(monorepo.internalPackageManifests).error))
    ensures ChildrenByParent(monorepo.internalPackageManifests).Ok? && r.Err? ==>
              r.error.LinkFromFile? && exists d :: d in ChildrenByParent(monorepo.internalPackageManifests).value
                                                  && ReadParentConfig(old(fs.files), root, d) == Err(r.error.fileError)
    ensures r.Err? ==> fs.files == old(fs.files)
    ensures r.Ok? ==> ParentsLinked(old(fs.files), root, monorepo.internalPackageManifests, fs.files)
  {
    var stale := OutOfDateParentProjectReferences(fs.files, root, monorepo);
    if stale.Err? {
      return Err(LinkErrorOf(stale.error));
    }
    WriteParentConfigs(fs, root, stale.value);
    return Ok(());
  }

  /** `link_package_dependencies`: every package tsconfig is read before the first
      write; each out-of-date one is written with its references replaced. */
  method LinkPackageDependencies(fs: FileSystem, root: Path, monorepo: MonorepoManifest) returns (r: Result<(), LinkError>)
    requires AllDiffsUtf8(PackageManifestsByPackageName(monorepo.internalPackageManifests))
    requires AllReferencesReadable(fs.files, root, PackageManifestsByPackageName(monorepo.internalPackageManifests))
    modifies fs
    ensures r.Ok? <==> PackagesReadable(old(fs.files), root, PackageManifestsByPackageName(monorepo.internalPackageManifests))
    ensures r.Err? ==> r.error.LinkFromFile? && fs.files == old(fs.files)
                       && exists n :: n in PackageManifestsByPackageName(monorepo.internalPackageManifests)
                                      && ReadTypescriptConfig(old(fs.files), root, PackageManifestsByPackageName(monorepo.internalPackageManifests)[n].directory)
                                         == Err(r.error.fileError)
    ensures r.Ok? ==> PackagesLinked(old(fs.files), root, monorepo.internalPackageManifests, fs.files)
  {
    var byName := PackageManifestsByPackageName(monorepo.internalPackageManifests);
    var stale := OutOfDatePackageProjectReferences(fs.files, root, monorepo);
    if stale.Err? {
      return Err(LinkErrorOf(stale.error));
    }
    forall k | 0 <= k < |stale.value|
      ensures ReferencesReadable(stale.value[k].tsconfig)
    {
      assert stale.value[k] in Elems(stale.value);
      StalePackagesNeedUpdate(fs.files, root, byName, stale.value[k]);
    }
    WritePackageConfigs(fs, root, stale.value);
    return Ok(());
  }

  // ---------------------------------------------------------------------------
  // Up to date.

  /** Every parent tsconfig exists and lists its directory's children, sorted. */
  predicate ParentsUpToDate(files: map<Path, Json>, root: Path, children: ChildrenMap) {
    forall d :: d in children ==>
      ReadParentConfig(files, root, d).Ok? && ReadParentConfig(files, root, d).value.contents.references == CreateProjectReferences(children[d])
  }

  /** Every package tsconfig exists and references its direct internal dependencies by
      sorted relative path. */
  predicate PackagesUpToDate(files: map<Path, Json>, root: Path, byName: map<string, Manifest>)
    requires AllDiffsUtf8(byName)
  {
    forall n :: n in byName ==>
      && ReadTypescriptConfig(files, root, byName[n].directory).Ok?
      && ReferencesReadable(ReadTypescriptConfig(files, root, byName[n].directory).value)
      && CurrentReferences(ReadTypescriptConfig(files, root, byName[n].directory).value) == DesiredPackageReferences(byName[n], byName)
  }

  /** The monorepo's project references are as the synchroniser would write them. */
  ghost predicate LinkUpToDate(files: map<Path, Json>, root: Path, walk: GlobWalk)
    requires WalksBelowRoot(walk, root)
  {
    && FromDirectory(files, root, walk).Ok?
    && var ms := FromDirectory(files, root, walk).value.internalPackageManifests;
       && ChildrenByParent(ms).Ok?
       && ParentsUpToDate(files, root, ChildrenByParent(ms).value)
       && AllDiffsUtf8(PackageManifestsByPackageName(ms))
       && PackagesUpToDate(files, root, PackageManifestsByPackageName(ms))
  }

  /** No parent tsconfig is reported exactly when all of them are up to date. */
  lemma ParentsUpToDateIff(files: map<Path, Json>, root: Path, children: ChildrenMap)
    ensures ParentsUpToDate(files, root, children) <==> ParentsReadable(files, root, children) && StaleParents(files, root, children) == {}
  {
    if ParentsUpToDate(files, root, children) {
      ParentsUpToDateNoneStale(files, root, children);
    }
    if ParentsReadable(files, root, children) && StaleParents(files, root, children) == {} {
      forall d | d in children
        ensures ReadParentConfig(files, root, d).Ok?
        ensures ReadParentConfig(files, root, d).value.contents.references == CreateProjectReferences(children[d])
      {
        NotStaleParent(files, root, children, d);
      }
    }
  }

  lemma ParentsUpToDateNoneStale(files: map<Path, Json>, root: Path, children: ChildrenMap)
    requires ParentsUpToDate(files, root, children)
    ensures ParentsReadable(files, root, children) && StaleParents(files, root, children) == {}
  {
    forall o
      ensures o !in StaleParents(files, root, children)
    {
      StaleParentsExactly(files, root, children, o);
    }
  }

  /** The report of an out-of-date parent tsconfig is among the reports. */
  lemma StaleParentReported(files: map<Path, Json>, root: Path, children: ChildrenMap, d: Path)
    requires d in children
    ensures var status := ParentStatus(files, root, d, children[d]);
            status.Ok? && status.value.Some? ==> status.value.value in StaleParents(files, root, children)
  {
  }

  lemma NotStaleParent(files: map<Path, Json>, root: Path, children: ChildrenMap, d: Path)
    requires d in children && ParentsReadable(files, root, children) && StaleParents(files, root, children) == {}
    ensures ReadParentConfig(files, root, d).Ok?
    ensures ReadParentConfig(files, root, d).value.contents.references == CreateProjectReferences(children[d])
  {
    StaleParentReported(files, root, children, d);
  }

  /** No package tsconfig is reported exactly when all of them are up to date. */
  lemma PackagesUpToDateIff(files: map<Path, Json>, root: Path, byName: map<string, Manifest>)
    requires AllDiffsUtf8(byName) && AllReferencesReadable(files, root, byName)
    ensures PackagesUpToDate(files, root, byName) <==> PackagesReadable(files, root, byName) && StalePackages(files, root, byName) == {}
  {
    if PackagesUpToDate(files, root, byName) {
      PackagesUpToDateNoneStale(files, root, byName);
    }
    if PackagesReadable(files, root, byName) && StalePackages(files, root, byName) == {} {
      forall n | n in byName
        ensures ReadTypescriptConfig(files, root, byName[n].directory).Ok?
        ensures ReferencesReadable(ReadTypescriptConfig(files, root, byName[n].directory).value)
        ensures CurrentReferences(ReadTypescriptConfig(files, root, byName[n].directory).value) == DesiredPackageReferences(byName[n], byName)
      {
        NotStalePackage(files, root, byName, n);
      }
    }
  }

  lemma PackagesUpToDateNoneStale(files: map<Path, Json>, root: Path, byName: map<string, Manifest>)
    requires AllDiffsUtf8(byName) && AllReferencesReadable(files, root, byName)
    requires PackagesUpToDate(files, root, byName)
    ensures PackagesReadable(files, root, byName) && StalePackages(files, root, byName) == {}
  {
    forall o
      ensures o !in StalePackages(files, root, byName)
    {
      StalePackagesExactly(files, root, byName, o);
      forall n | n in byName
        ensures !ReportsPackage(files, root, byName, n, o)
      {
      }
    }
  }

  /** The report of an out-of-date package tsconfig is among the reports. */
  lemma StalePackageReported(files: map<Path, Json>, root: Path, byName: map<string, Manifest>, n: string)
    requires n in byName && DiffsUtf8(byName[n], byName) && ReferencesReadableAt(files, root, byName[n].directory)
    ensures var status := PackageStatus(files, root, byName[n], byName);
            status.Ok? && status.value.Some? ==> status.value.value in StalePackages(files, root, byName)
  {
  }

  lemma NotStalePackage(files: map<Path, Json>, root: Path, byName: map<string, Manifest>, n: string)
    requires AllDiffsUtf8(byName) && AllReferencesReadable(files, root, byName)
    requires n in byName && PackagesReadable(files, root, byName) && StalePackages(files, root, byName) == {}
    ensures ReadTypescriptConfig(files, root, byName[n].directory).Ok?
    ensures ReferencesReadable(ReadTypescriptConfig(files, root, byName[n].directory).value)
    ensures CurrentReferences(ReadTypescriptConfig(files, root, byName[n].directory).value) == DesiredPackageReferences(byName[n], byName)
  {
    assert DiffsUtf8(byName[n], byName) && ReferencesReadableAt(files, root, byName[n].directory);
    StalePackageReported(files, root, byName, n);
  }

  lemma ElemsEmpty<T>(s: seq<T>)
    ensures Elems(s) == {} <==> s == []
  {
    if s != [] {
      assert s[0] in Elems(s);
    }
  }

  /** `lint`: the monorepo manifest must be readable (the source `expect`s it). It
      fails on the first read that fails; otherwise it reports every out-of-date
      tsconfig, parents first, and succeeds exactly when there is none. */
  method Lint(files: map<Path, Json>, root: Path, walk: GlobWalk) returns (r: Result<(), LinkLintError>)
    requires WalksBelowRoot(walk, root) && FromDirectory(files, root, walk).Ok?
    requires var ms := FromDirectory(files, root, walk).value.internalPackageManifests;
             ParentsReadableFor(files, root, ms) ==> AllReferencesReadable(files, root, PackageManifestsByPackageName(ms))
    ensures r.Ok? <==> LinkUpToDate(files, root, walk)
    ensures var ms := FromDirectory(files, root, walk).value.internalPackageManifests;
            ChildrenByParent(ms).Err? ==> r == Err(LintInvalidUtf8(ChildrenByParent(ms).error))
    ensures var ms := FromDirectory(files, root, walk).value.internalPackageManifests;
            r.Err? && r.error.LintFromFile? ==>
              || (ChildrenByParent(ms).Ok? && exists d :: d in ChildrenByParent(ms).value && ReadParentConfig(files, root, d) == Err(r.error.fileError))
              || (exists n :: n in PackageManifestsByPackageName(ms)
                              && ReadTypescriptConfig(files, root, PackageManifestsByPackageName(ms)[n].directory) == Err(r.error.fileError))
    ensures var ms := FromDirectory(files, root, walk).value.internalPackageManifests;
            r.Err? && r.error.ProjectReferencesOutOfDate? ==>
              && ParentsReadableFor(files, root, ms)
              && PackagesReadable(files, root, PackageManifestsByPackageName(ms))
              && !IsEmpty(r.error.report)
              && (forall c :: c in r.error.report.configs ==>
                    || (AsParent(c).Some? && AsParent(c).value in StaleParents(files, root, ChildrenByParent(ms).value))
                    || (AsPackage(c).Some? && AsPackage(c).value in StalePackages(files, root, PackageManifestsByPackageName(ms))))
              && (forall o :: o in StaleParents(files, root, ChildrenByParent(ms).value) ==> FromParent(o) in r.error.report.configs)
              && (forall o :: o in StalePackages(files, root, PackageManifestsByPackageName(ms)) ==> FromPackage(o) in r.error.report.configs)
  {
    var monorepo := FromDirectory(files, root, walk).value;
    var ms := monorepo.internalPackageManifests;
    var parents := OutOfDateParentProjectReferences(files, root, monorepo);
    if parents.Err? {
      return Err(LintErrorOf(parents.error));
    }
    AllDiffsUtf8OfFold(ms);
    var byName := PackageManifestsByPackageName(ms);
    var packages := OutOfDatePackageProjectReferences(files, root, monorepo);
    if packages.Err? {
      return Err(LintErrorOf(packages.error));
    }
    var issues := FromIterator(ParentsInto(parents.value) + PackagesInto(packages.value));
    ChainedReport(parents.value, packages.value);
    ParentsUpToDateIff(files, root, ChildrenByParent(ms).value);
    PackagesUpToDateIff(files, root, byName);
    ElemsEmpty(parents.value);
    ElemsEmpty(packages.value);
    if IsEmpty(issues) {
      return Ok(());
    }
    ReportCovers(parents.value, packages.value);
    return Err(ProjectReferencesOutOfDate(issues));
  }

  /** The chained report holds exactly the converted records of both lists. */
  lemma ReportCovers(parents: seq<OutOfDateParentProjectReferences>, packages: seq<OutOfDatePackageProjectReferences>)
    ensures var configs := FromIterator(ParentsInto(parents) + PackagesInto(packages)).configs;
            && (forall c :: c in configs ==> || (AsParent(c).Some? && AsParent(c).value in Elems(parents))
                                             || (AsPackage(c).Some? && AsPackage(c).value in Elems(packages)))
            && (forall o :: o in Elems(parents) ==> FromParent(o) in configs)
            && (forall o :: o in Elems(packages) ==> FromPackage(o) in configs)
  {
    var configs := FromIterator(ParentsInto(parents) + PackagesInto(packages)).configs;
    ChainedReport(parents, packages);
    forall c | c in configs
      ensures || (AsParent(c).Some? && AsParent(c).value in Elems(parents))
              || (AsPackage(c).Some? && AsPackage(c).value in Elems(packages))
    {
      var i :| 0 <= i < |configs| && configs[i] == c;
      if i < |parents| {
        assert AsParent(c) == Some(parents[i]);
      } else {
        assert AsPackage(c) == Some(packages[i - |parents|]);
      }
    }
    forall o | o in Elems(parents)
      ensures FromParent(o) in configs
    {
      var i :| 0 <= i < |parents| && parents[i] == o;
      assert configs[i] == FromParent(o);
    }
    forall o | o in Elems(packages)
      ensures FromPackage(o) in configs
    {
      var i :| 0 <= i < |packages| && packages[i] == o;
      assert configs[|parents| + i] == FromPackage(o);
    }
  }

  // ---------------------------------------------------------------------------
  // Modify, then lint.

  /** No package directory lies inside another: with nested packages the parent tsconfig
      of the outer one and its package tsconfig are one file, and the two rewrites
      contend for it. */
  predicate NestedFree(ms: seq<Manifest>) {
    forall i, j :: 0 <= i < |ms| && 0 <= j < |ms| ==> !ProperPrefix(ms[i].directory, ms[j].directory)
  }

  /** The three states `modify` passes through when it succeeds: before, after the
      parent tsconfigs, after the package tsconfigs. */
  ghost predicate Linked(f0: map<Path, Json>, f1: map<Path, Json>, f2: map<Path, Json>, root: Path, ms: seq<Manifest>) {
    && ParentsLinked(f0, root, ms, f1)
    && AllReferencesReadable(f1, root, PackageManifestsByPackageName(ms))
    && PackagesLinked(f1, root, ms, f2)
  }

  /** Rewriting parent tsconfigs keeps every package tsconfig's references readable:
      a parent tsconfig read as a package's holds the references it was written with. */
  lemma ParentWritesKeepReadable(before: map<Path, Json>, after: map<Path, Json>, root: Path,
                                 os: set<OutOfDateParentProjectReferences>, byName: map<string, Manifest>)
    requires WrittenBy(before, ParentWrites(root, os), after) && AllReferencesReadable(before, root, byName)
    ensures AllReferencesReadable(after, root, byName)
  {
    forall n | n in byName
      ensures ReferencesReadableAt(after, root, byName[n].directory)
    {
      var d := byName[n].directory;
      var p := ConfigPath(root, d, TsconfigFilename);
      if p in WritePaths(ParentWrites(root, os)) {
        var w :| w in ParentWrites(root, os) && w.0 == p && after[p] == w.1;
        var o :| o in os && w == ParentWrite(root, o);
        var c := o.tsconfig.contents.(references := o.desiredReferences);
        ParentAsPackageConfig(c, d);
        assert ReadTypescriptConfig(after, root, d) == Ok(TypescriptConfig(d, EncodeParent(c).fields));
      } else {
        WrittenByUntouched(before, ParentWrites(root, os), after, p);
        assert ReadTypescriptConfig(after, root, d) == ReadTypescriptConfig(before, root, d);
        assert ReferencesReadableAt(before, root, byName[n].directory);
      }
    }
  }

  /** A directory above a package is not itself a package directory. */
  lemma PackageNotParent(ms: seq<Manifest>, n: string, d: Path)
    requires ChildrenByParent(ms).Ok? && d in ChildrenByParent(ms).value && NestedFree(ms)
    requires n in PackageManifestsByPackageName(ms)
    ensures PackageManifestsByPackageName(ms)[n].directory != d
  {
    var byName := PackageManifestsByPackageName(ms);
    assert IsParent(ms, d);
    var i :| 0 <= i < |ms| && ProperPrefix(d, ms[i].directory);
    var j :| 0 <= j < |ms| && LastWithName(ms, n, j) && byName[n] == ms[j];
    assert !ProperPrefix(ms[j].directory, ms[i].directory);
  }

  /** Two packages of the index in one directory are one manifest: both were read from
      that directory's package.json. */
  lemma SameDirectorySameManifest(files: map<Path, Json>, root: Path, walk: GlobWalk, n1: string, n2: string)
    requires WalksBelowRoot(walk, root) && FromDirectory(files, root, walk).Ok?
    requires var byName := PackageManifestsByPackageName(FromDirectory(files, root, walk).value.internalPackageManifests);
             n1 in byName && n2 in byName && byName[n1].directory == byName[n2].directory
    ensures var byName := PackageManifestsByPackageName(FromDirectory(files, root, walk).value.internalPackageManifests);
            byName[n1] == byName[n2]
  {
    var ms := FromDirectory(files, root, walk).value.internalPackageManifests;
    var byName := PackageManifestsByPackageName(ms);
    var i1 :| 0 <= i1 < |ms| && LastWithName(ms, n1, i1) && byName[n1] == ms[i1];
    var i2 :| 0 <= i2 < |ms| && LastWithName(ms, n2, i2) && byName[n2] == ms[i2];
    ManifestsReadBack(files, root, walk, i1);
    ManifestsReadBack(files, root, walk, i2);
  }

  /** An out-of-date parent tsconfig is among the files the parent batch writes. */
  lemma StaleParentWritten(files: map<Path, Json>, root: Path, children: ChildrenMap, d: Path)
    requires d in children
    ensures var status := ParentStatus(files, root, d, children[d]);
            status.Ok? && status.value.Some? ==>
              ConfigPath(root, d, TsconfigFilename) in WritePaths(ParentWrites(root, StaleParents(files, root, children)))
  {
    var status := ParentStatus(files, root, d, children[d]);
    if status.Ok? && status.value.Some? {
      var o := status.value.value;
      StaleParentReported(files, root, children, d);
      assert ParentWrite(root, o) in ParentWrites(root, StaleParents(files, root, children));
    }
  }

  /** An out-of-date package tsconfig is among the files the package batch writes. */
  lemma StalePackageWritten(files: map<Path, Json>, root: Path, byName: map<string, Manifest>, n: string)
    requires n in byName && DiffsUtf8(byName[n], byName) && ReferencesReadableAt(files, root, byName[n].directory)
    ensures var status := PackageStatus(files, root, byName[n], byName);
            status.Ok? && status.value.Some? ==>
              ConfigPath(root, byName[n].directory, TsconfigFilename) in WritePaths(PackageWrites(root, StalePackages(files, root, byName)))
  {
    var status := PackageStatus(files, root, byName[n], byName);
    if status.Ok? && status.value.Some? {
      var o := status.value.value;
      StalePackageReported(files, root, byName, n);
      assert NeedsUpdate(o);
      assert PackageWrite(root, o) in PackageWrites(root, StalePackages(files, root, byName));
    }
  }

  /** After both batches every parent tsconfig lists its children: the package batch
      does not touch it, and the parent batch either rewrote it with that list or
      found it already holding it. */
  lemma ParentUpToDateAfterLink(f0: map<Path, Json>, f1: map<Path, Json>, f2: map<Path, Json>, root: Path, ms: seq<Manifest>, d: Path)
    requires Linked(f0, f1, f2, root, ms) && NestedFree(ms)
    requires d in ChildrenByParent(ms).value
    ensures ReadParentConfig(f2, root, d).Ok?
    ensures ReadParentConfig(f2, root, d).value.contents.references == CreateProjectReferences(ChildrenByParent(ms).value[d])
  {
    var children := ChildrenByParent(ms).value;
    var byName := PackageManifestsByPackageName(ms);
    AllDiffsUtf8OfFold(ms);
    var p := ConfigPath(root, d, TsconfigFilename);
    var parentWrites := ParentWrites(root, StaleParents(f0, root, children));
    var stalePackages := StalePackages(f1, root, byName);
    var packageWrites := PackageWrites(root, stalePackages);
    forall w | w in packageWrites
      ensures w.0 != p
    {
      var o :| o in stalePackages && NeedsUpdate(o) && w == PackageWrite(root, o);
      StalePackagesExactly(f1, root, byName, o);
      var n :| ReportsPackage(f1, root, byName, n, o);
      PackageNotParent(ms, n, d);
      ConfigPathsDiffer(root, o.tsconfig.directory, d, TsconfigFilename);
    }
    assert p !in WritePaths(packageWrites);
    WrittenByUntouched(f1, packageWrites, f2, p);
    assert ReadParentConfig(f2, root, d) == ReadParentConfig(f1, root, d);
    if p in WritePaths(parentWrites) {
      var w :| w in parentWrites && w.0 == p && f1[p] == w.1;
      var o :| o in StaleParents(f0, root, children) && w == ParentWrite(root, o);
      ConfigPathInjective(root, o.tsconfig.directory, d, TsconfigFilename);
      StaleParentsExactly(f0, root, children, o);
      var c := o.tsconfig.contents.(references := o.desiredReferences);
      ParentRoundTrip(c);
      assert ReadParentConfig(f1, root, d) == Ok(ParentConfig(d, c));
    } else {
      WrittenByUntouched(f0, parentWrites, f1, p);
      StaleParentWritten(f0, root, children, d);
      assert ReadParentConfig(f1, root, d) == ReadParentConfig(f0, root, d);
    }
  }

  /** After both batches every package tsconfig references its dependencies: the
      package batch either rewrote it with that list or found it already holding it. */
  lemma PackageUpToDateAfterLink(f0: map<Path, Json>, f1: map<Path, Json>, f2: map<Path, Json>, root: Path, walk: GlobWalk, n: string)
    requires WalksBelowRoot(walk, root) && FromDirectory(f0, root, walk).Ok?
    requires Linked(f0, f1, f2, root, FromDirectory(f0, root, walk).value.internalPackageManifests)
    requires n in PackageManifestsByPackageName(FromDirectory(f0, root, walk).value.internalPackageManifests)
    ensures var byName := PackageManifestsByPackageName(FromDirectory(f0, root, walk).value.internalPackageManifests);
            && AllDiffsUtf8(byName)
            && ReadTypescriptConfig(f2, root, byName[n].directory).Ok?
            && ReferencesReadable(ReadTypescriptConfig(f2, root, byName[n].directory).value)
            && CurrentReferences(ReadTypescriptConfig(f2, root, byName[n].directory).value) == DesiredPackageReferences(byName[n], byName)
  {
    var ms := FromDirectory(f0, root, walk).value.internalPackageManifests;
    var byName := PackageManifestsByPackageName(ms);
    var q := ConfigPath(root, byName[n].directory, TsconfigFilename);
    if q in WritePaths(PackageWrites(root, StalePackages(f1, root, byName))) {
      RewrittenPackageUpToDate(f0, f1, f2, root, walk, n);
    } else {
      UntouchedPackageUpToDate(f0, f1, f2, root, walk, n);
    }
  }

  /** `PackageUpToDateAfterLink` for a package whose tsconfig the second batch rewrote. */
  lemma RewrittenPackageUpToDate(f0: map<Path, Json>, f1: map<Path, Json>, f2: map<Path, Json>, root: Path, walk: GlobWalk, n: string)
    requires WalksBelowRoot(walk, root) && FromDirectory(f0, root, walk).Ok?
    requires Linked(f0, f1, f2, root, FromDirectory(f0, root, walk).value.internalPackageManifests)
    requires var byName := PackageManifestsByPackageName(FromDirectory(f0, root, walk).value.internalPackageManifests);
             && n in byName
             && ConfigPath(root, byName[n].directory, TsconfigFilename) in WritePaths(PackageWrites(root, StalePackages(f1, root, byName)))
    ensures var byName := PackageManifestsByPackageName(FromDirectory(f0, root, walk).value.internalPackageManifests);
            && AllDiffsUtf8(byName)
            && ReadTypescriptConfig(f2, root, byName[n].directory).Ok?
            && ReferencesReadable(ReadTypescriptConfig(f2, root, byName[n].directory).value)
            && CurrentReferences(ReadTypescriptConfig(f2, root, byName[n].directory).value) == DesiredPackageReferences(byName[n], byName)
  {
    var ms := FromDirectory(f0, root, walk).value.internalPackageManifests;
    var byName := PackageManifestsByPackageName(ms);
    AllDiffsUtf8OfFold(ms);
    var n' := RewrittenConfigReads(f1, f2, root, byName, byName[n].directory);
    SameDirectorySameManifest(f0, root, walk, n', n);
  }

  /** A tsconfig the second batch rewrote reads back as the desired references of the
      package in its directory. */
  lemma RewrittenConfigReads(f1: map<Path, Json>, f2: map<Path, Json>, root: Path, byName: map<string, Manifest>, directory: Path)
    returns (n: string)
    requires AllDiffsUtf8(byName) && AllReferencesReadable(f1, root, byName)
    requires WrittenBy(f1, PackageWrites(root, StalePackages(f1, root, byName)), f2)
    requires ConfigPath(root, directory, TsconfigFilename) in WritePaths(PackageWrites(root, StalePackages(f1, root, byName)))
    ensures n in byName && byName[n].directory == directory
    ensures ReadTypescriptConfig(f2, root, directory).Ok?
            && ReferencesReadable(ReadTypescriptConfig(f2, root, directory).value)
            && CurrentReferences(ReadTypescriptConfig(f2, root, directory).value) == DesiredPackageReferences(byName[n], byName)
  {
    var q := ConfigPath(root, directory, TsconfigFilename);
    var stalePackages := StalePackages(f1, root, byName);
    var packageWrites := PackageWrites(root, stalePackages);
    var w :| w in packageWrites && w.0 == q && f2[q] == w.1;
    var o :| o in stalePackages && NeedsUpdate(o) && w == PackageWrite(root, o);
    StalePackagesExactly(f1, root, byName, o);
    n :| ReportsPackage(f1, root, byName, n, o);
    ConfigPathInjective(root, o.tsconfig.directory, directory, TsconfigFilename);
    var t := WithReferences(o.tsconfig, o.desiredReferences);
    WithReferencesCurrent(o.tsconfig, o.desiredReferences);
    assert ReadTypescriptConfig(f2, root, directory) == Ok(t);
  }

  /** `PackageUpToDateAfterLink` for a package whose tsconfig the second batch left alone. */
  lemma UntouchedPackageUpToDate(f0: map<Path, Json>, f1: map<Path, Json>, f2: map<Path, Json>, root: Path, walk: GlobWalk, n: string)
    requires WalksBelowRoot(walk, root) && FromDirectory(f0, root, walk).Ok?
    requires Linked(f0, f1, f2, root, FromDirectory(f0, root, walk).value.internalPackageManifests)
    requires var byName := PackageManifestsByPackageName(FromDirectory(f0, root, walk).value.internalPackageManifests);
             && n in byName
             && ConfigPath(root, byName[n].directory, TsconfigFilename) !in WritePaths(PackageWrites(root, StalePackages(f1, root, byName)))
    ensures var byName := PackageManifestsByPackageName(FromDirectory(f0, root, walk).value.internalPackageManifests);
            && AllDiffsUtf8(byName)
            && ReadTypescriptConfig(f2, root, byName[n].directory).Ok?
            && ReferencesReadable(ReadTypescriptConfig(f2, root, byName[n].directory).value)
            && CurrentReferences(ReadTypescriptConfig(f2, root, byName[n].directory).value) == DesiredPackageReferences(byName[n], byName)
  {
    var ms := FromDirectory(f0, root, walk).value.internalPackageManifests;
    var byName := PackageManifestsByPackageName(ms);
    AllDiffsUtf8OfFold(ms);
    var m := byName[n];
    var q := ConfigPath(root, m.directory, TsconfigFilename);
    var packageWrites := PackageWrites(root, StalePackages(f1, root, byName));
    WrittenByUntouched(f1, packageWrites, f2, q);
    StalePackageWritten(f1, root, byName, n);
    assert ReadTypescriptConfig(f2, root, m.directory) == ReadTypescriptConfig(f1, root, m.directory);
  }

  /** Both batches write only tsconfig.json files, so the monorepo index reads as before. */
  lemma IndexAfterLink(f0: map<Path, Json>, f1: map<Path, Json>, f2: map<Path, Json>, root: Path, walk: GlobWalk)
    requires WalksBelowRoot(walk, root) && FromDirectory(f0, root, walk).Ok?
    requires Linked(f0, f1, f2, root, FromDirectory(f0, root, walk).value.internalPackageManifests)
    ensures FromDirectory(f2, root, walk) == FromDirectory(f0, root, walk)
  {
    var ms := FromDirectory(f0, root, walk).value.internalPackageManifests;
    var children := ChildrenByParent(ms).value;
    var byName := PackageManifestsByPackageName(ms);
    var parentWrites := ParentWrites(root, StaleParents(f0, root, children));
    var packageWrites := PackageWrites(root, StalePackages(f1, root, byName));
    ParentWritesTsconfigs(root, StaleParents(f0, root, children));
    PackageWritesTsconfigs(root, StalePackages(f1, root, byName));
    WrittenBySameOutside(f0, parentWrites, f1, TsconfigFilename);
    WrittenBySameOutside(f1, packageWrites, f2, TsconfigFilename);
    SameOutsideTrans(f0, f1, f2, TsconfigFilename);
    FromDirectoryOutside(f0, f2, TsconfigFilename, root, walk);
  }

  lemma ParentsAfterLink(f0: map<Path, Json>, f1: map<Path, Json>, f2: map<Path, Json>, root: Path, ms: seq<Manifest>)
    requires Linked(f0, f1, f2, root, ms) && NestedFree(ms)
    ensures ParentsUpToDate(f2, root, ChildrenByParent(ms).value)
  {
    forall d | d in ChildrenByParent(ms).value
      ensures ReadParentConfig(f2, root, d).Ok?
      ensures ReadParentConfig(f2, root, d).value.contents.references == CreateProjectReferences(ChildrenByParent(ms).value[d])
    {
      ParentUpToDateAfterLink(f0, f1, f2, root, ms, d);
    }
  }

  lemma PackagesAfterLink(f0: map<Path, Json>, f1: map<Path, Json>, f2: map<Path, Json>, root: Path, walk: GlobWalk)
    requires WalksBelowRoot(walk, root) && FromDirectory(f0, root, walk).Ok?
    requires Linked(f0, f1, f2, root, FromDirectory(f0, root, walk).value.internalPackageManifests)
    ensures var byName := PackageManifestsByPackageName(FromDirectory(f0, root, walk).value.internalPackageManifests);
            AllDiffsUtf8(byName) && PackagesUpToDate(f2, root, byName)
  {
    var ms := FromDirectory(f0, root, walk).value.internalPackageManifests;
    var byName := PackageManifestsByPackageName(ms);
    AllDiffsUtf8OfFold(ms);
    forall n | n in byName
      ensures ReadTypescriptConfig(f2, root, byName[n].directory).Ok?
      ensures ReferencesReadable(ReadTypescriptConfig(f2, root, byName[n].directory).value)
      ensures CurrentReferences(ReadTypescriptConfig(f2, root, byName[n].directory).value) == DesiredPackageReferences(byName[n], byName)
    {
      PackageUpToDateAfterLink(f0, f1, f2, root, walk, n);
    }
  }

  /** `modify` followed by `lint` succeeds: once both batches are written, the index
      reads as before and every tsconfig holds its desired references. */
  lemma LintAfterModify(f0: map<Path, Json>, f1: map<Path, Json>, f2: map<Path, Json>, root: Path, walk: GlobWalk)
    requires WalksBelowRoot(walk, root) && FromDirectory(f0, root, walk).Ok?
    requires Linked(f0, f1, f2, root, FromDirectory(f0, root, walk).value.internalPackageManifests)
    requires NestedFree(FromDirectory(f0, root, walk).value.internalPackageManifests)
    ensures LinkUpToDate(f2, root, walk)
  {
    IndexAfterLink(f0, f1, f2, root, walk);
    ParentsAfterLink(f0, f1, f2, root, FromDirectory(f0, root, walk).value.internalPackageManifests);
    PackagesAfterLink(f0, f1, f2, root, walk);
  }

  /** What `modify` leaves behind, given the index `ms` it read from `before`, the state
      `linked` after the parent batch and the final state `after`. */
  ghost predicate ModifyOutcome(before: map<Path, Json>, root: Path, ms: seq<Manifest>, linked: map<Path, Json>,
                                after: map<Path, Json>, r: Result<(), LinkError>)
  {
    var byName := PackageManifestsByPackageName(ms);
    && (r.Ok? <==> ParentsReadableFor(before, root, ms) && PackagesReadable(linked, root, byName))
    && (ChildrenByParent(ms).Err? ==> r == Err(LinkInvalidUtf8(ChildrenByParent(ms).error)))
    && (!ParentsReadableFor(before, root, ms) ==> after == before)
    && (ParentsReadableFor(before, root, ms) ==>
          && ParentsLinked(before, root, ms, linked)
          && AllReferencesReadable(linked, root, byName)
          && (r.Ok? ==> PackagesLinked(linked, root, ms, after))
          && (r.Err? ==> r.error.LinkFromFile? && after == linked))
  }

  /** `modify`: read the index, rewrite the out-of-date parent tsconfigs, then the
      out-of-date package tsconfigs; the first failure ends the run. When no package
      directory lies inside another, a successful run leaves the monorepo up to date. */
  method Modify(fs: FileSystem, root: Path, walk: GlobWalk) returns (r: Result<(), LinkError>, ghost linked: map<Path, Json>)
    requires WalksBelowRoot(walk, root)
    requires FromDirectory(fs.files, root, walk).Ok? ==>
               AllReferencesReadable(fs.files, root, PackageManifestsByPackageName(FromDirectory(fs.files, root, walk).value.internalPackageManifests))
    modifies fs
    ensures FromDirectory(old(fs.files), root, walk).Err? ==>
              r == Err(LinkFromFile(FromDirectory(old(fs.files), root, walk).error)) && fs.files == old(fs.files)
    ensures FromDirectory(old(fs.files), root, walk).Ok? ==>
              ModifyOutcome(old(fs.files), root, FromDirectory(old(fs.files), root, walk).value.internalPackageManifests, linked, fs.files, r)
    ensures r.Ok? && NestedFree(FromDirectory(old(fs.files), root, walk).value.internalPackageManifests) ==>
              LinkUpToDate(fs.files, root, walk)
  {
    linked := fs.files;
    var manifest := FromDirectory(fs.files, root, walk);
    if manifest.Err? {
      return Err(LinkFromFile(manifest.error)), linked;
    }
    var monorepo := manifest.value;
    ghost var before := fs.files;
    r := LinkChildrenPackages(fs, root, monorepo);
    if r.Err? {
      return r, linked;
    }
    linked := fs.files;
    var byName := PackageManifestsByPackageName(monorepo.internalPackageManifests);
    AllDiffsUtf8OfFold(monorepo.internalPackageManifests);
    ParentWritesKeepReadable(before, linked, root, StaleParents(before, root, ChildrenByParent(monorepo.internalPackageManifests).value), byName);
    r := LinkPackageDependencies(fs, root, monorepo);
    if r.Ok? && NestedFree(monorepo.internalPackageManifests) {
      LintAfterModify(before, linked, fs.files, root, walk);
    }
  }
}
