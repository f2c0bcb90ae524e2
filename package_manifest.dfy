// A package's package.json and the dependency-graph operations defined on it: the
// four dependency groups, the direct internal dependencies, the transitive closure,
// and the names `npm pack` gives a package.
module PackageManifests {
  import opened Wrappers
  import opened Json
  import opened Paths
  import opened Collections
  import opened Graphs
  import opened FileSystems

  const ManifestFilename: string := "package.json"

  /** A package manifest: where it lives (relative to the monorepo root), its
      `name` and `version`, and every other top-level key in document order. */
  datatype Manifest = Manifest(directory: Path, name: string, version: string, extraFields: seq<Field>)

  datatype DependencyGroup = Dependencies | DevDependencies | OptionalDependencies | PeerDependencies

  /** `DependencyGroup::VALUES`, the order every group walk follows. */
  const GroupValues: seq<DependencyGroup> := [Dependencies, DevDependencies, OptionalDependencies, PeerDependencies]

  /** The camelCase key a group is stored under. */
  function GroupKey(group: DependencyGroup): string {
    match group
    case Dependencies => "dependencies"
    case DevDependencies => "devDependencies"
    case OptionalDependencies => "optionalDependencies"
    case PeerDependencies => "peerDependencies"
  }

  lemma GroupValuesComplete(group: DependencyGroup)
    ensures group in GroupValues && Distinct(GroupValues)
  {
    DistinctMeaning(GroupValues);
  }

  lemma GroupKeyInjective(g: DependencyGroup, h: DependencyGroup)
    requires GroupKey(g) == GroupKey(h)
    ensures g == h
  {
  }

  /** `get_dependency_group_mut`: the group's object, or None when the key is absent or
      its value is not an object. */
  function GetDependencyGroup(m: Manifest, group: DependencyGroup): (r: Option<seq<Field>>)
    ensures r.Some? <==> Get(m.extraFields, GroupKey(group)).Some? && Get(m.extraFields, GroupKey(group)).value.JObject?
    ensures r.Some? ==> Get(m.extraFields, GroupKey(group)) == Some(JObject(r.value))
  {
    match Get(m.extraFields, GroupKey(group))
    case Some(JObject(fields)) => Some(fields)
    case _ => None
  }

  /** Writing through the handle `get_dependency_group_mut` returns. */
  function SetDependencyGroup(m: Manifest, group: DependencyGroup, fields: seq<Field>): (r: Manifest)
    requires GetDependencyGroup(m, group).Some?
    ensures GetDependencyGroup(r, group) == Some(fields)
    ensures forall h :: h != group ==> GetDependencyGroup(r, h) == GetDependencyGroup(m, h)
    ensures r.directory == m.directory && r.name == m.name && r.version == m.version
    ensures Keys(r.extraFields) == Keys(m.extraFields)
    ensures forall k :: k != GroupKey(group) ==> Get(r.extraFields, k) == Get(m.extraFields, k)
  {
    InsertKeys(m.extraFields, GroupKey(group), JObject(fields));
    var r := m.(extraFields := Insert(m.extraFields, GroupKey(group), JObject(fields)));
    forall h | h != group
      ensures GetDependencyGroup(r, h) == GetDependencyGroup(m, h)
    {
      if GroupKey(h) == GroupKey(group) {
        GroupKeyInjective(h, group);
      }
    }
    r
  }

  /** Writing back what the handle showed leaves the manifest as it was. */
  lemma SetGetDependencyGroup(m: Manifest, group: DependencyGroup)
    requires GetDependencyGroup(m, group).Some?
    ensures SetDependencyGroup(m, group, GetDependencyGroup(m, group).value) == m
  {
    InsertExisting(m.extraFields, GroupKey(group), JObject(GetDependencyGroup(m, group).value));
  }

  /** The dependency names one group of a key list lists; an absent or non-object
      group lists none. */
  function GroupNamesIn(fields: seq<Field>, group: DependencyGroup): (r: seq<string>)
    ensures Get(fields, GroupKey(group)).Some? && Get(fields, GroupKey(group)).value.JObject?
            ==> r == Keys(Get(fields, GroupKey(group)).value.fields)
    ensures Get(fields, GroupKey(group)).None? || !Get(fields, GroupKey(group)).value.JObject? ==> r == []
  {
    match Get(fields, GroupKey(group))
    case Some(JObject(obj)) => Keys(obj)
    case _ => []
  }

  /** All four groups of a key list chained in `DependencyGroup::VALUES` order. */
  function DependencyNamesIn(fields: seq<Field>): seq<string> {
    GroupNamesIn(fields, Dependencies) + GroupNamesIn(fields, DevDependencies)
      + GroupNamesIn(fields, OptionalDependencies) + GroupNamesIn(fields, PeerDependencies)
  }

  /** The dependency names one group of a manifest lists. */
  function GroupNames(m: Manifest, group: DependencyGroup): (r: seq<string>)
    ensures GetDependencyGroup(m, group).None? ==> r == []
    ensures GetDependencyGroup(m, group).Some? ==> r == Keys(GetDependencyGroup(m, group).value)
  {
    GroupNamesIn(m.extraFields, group)
  }

  function DependencyNames(m: Manifest): seq<string> {
    DependencyNamesIn(m.extraFields)
  }

  /** The names in `names` that are internal packages, in order and without de-duplication. */
  function FilterInternal(names: seq<string>, internal: set<string>): (r: seq<string>)
    ensures |r| <= |names|
    ensures forall k :: multiset(r)[k] == if k in internal then multiset(names)[k] else 0
  {
    if names == [] then []
    else
      var rest := FilterInternal(names[1..], internal);
      assert names == [names[0]] + names[1..];
      if names[0] in internal then [names[0]] + rest else rest
  }

  /** Filtering a chain is chaining the filtered parts: group order survives. */
  lemma {:induction false} FilterAppend(a: seq<string>, b: seq<string>, internal: set<string>)
    ensures FilterInternal(a + b, internal) == FilterInternal(a, internal) + FilterInternal(b, internal)
  {
    if a == [] {
      assert a + b == b;
    } else {
      assert (a + b)[0] == a[0];
      assert (a + b)[1..] == a[1..] + b;
      FilterAppend(a[1..], b, internal);
    }
  }

  function InternalDependencyNames(m: Manifest, internal: set<string>): (r: seq<string>)
    ensures forall i :: 0 <= i < |r| ==> r[i] in internal
  {
    var r := FilterInternal(DependencyNames(m), internal);
    assert forall i :: 0 <= i < |r| ==> r[i] in internal by {
      forall i | 0 <= i < |r|
        ensures r[i] in internal
      {
        assert multiset(r)[r[i]] > 0;
      }
    }
    r
  }

  /** The groups' internal names, group by group. */
  lemma InternalNamesByGroup(m: Manifest, internal: set<string>)
    ensures InternalDependencyNames(m, internal) ==
            FilterInternal(GroupNames(m, Dependencies), internal) + FilterInternal(GroupNames(m, DevDependencies), internal)
            + FilterInternal(GroupNames(m, OptionalDependencies), internal) + FilterInternal(GroupNames(m, PeerDependencies), internal)
  {
    var a, b, c, d := GroupNames(m, Dependencies), GroupNames(m, DevDependencies),
                      GroupNames(m, OptionalDependencies), GroupNames(m, PeerDependencies);
    FilterAppend(a + b + c, d, internal);
    FilterAppend(a + b, c, internal);
    FilterAppend(a, b, internal);
  }

  /** `get_internal_dependencies`: the manifest of every internal name the groups list,
      in group order, once per listing. */
  function GetInternalDependencies(m: Manifest, byName: map<string, Manifest>): (r: seq<Manifest>)
    ensures |r| <= |DependencyNames(m)|
    ensures |r| == |InternalDependencyNames(m, byName.Keys)|
    ensures forall i :: 0 <= i < |r| ==>
              InternalDependencyNames(m, byName.Keys)[i] in byName && r[i] == byName[InternalDependencyNames(m, byName.Keys)[i]]
    ensures forall k :: multiset(InternalDependencyNames(m, byName.Keys))[k]
                        == if k in byName then multiset(DependencyNames(m))[k] else 0
  {
    var names := InternalDependencyNames(m, byName.Keys);
    seq(|names|, i requires 0 <= i < |names| => byName[names[i]])
  }

  // ---------------------------------------------------------------------------
  // The transitive closure.

  /** Every key names the manifest stored under it, as `package_manifests_by_package_name`
      builds the map. */
  predicate Consistent(byName: map<string, Manifest>) {
    forall k :: k in byName ==> byName[k].name == k
  }

  /** The graph the traversal from `self` walks: every package's internal names, except
      that the start's own name leads to the start's own dependencies. */
  function ManifestGraph(byName: map<string, Manifest>, self: Manifest): (g: Graph)
    ensures Targets(g) <= byName.Keys
  {
    var g := (map k | k in byName :: Elems(InternalDependencyNames(byName[k], byName.Keys)))
             [self.name := Elems(InternalDependencyNames(self, byName.Keys))];
    assert Targets(g) <= byName.Keys by {
      forall m | m in Targets(g)
        ensures m in byName
      {
        var n :| n in g && m in g[n];
      }
    }
    g
  }

  function NamesOf(q: seq<Manifest>): (r: seq<string>)
    ensures |r| == |q| && forall i :: 0 <= i < |q| ==> r[i] == q[i].name
  {
    seq(|q|, i requires 0 <= i < |q| => q[i].name)
  }

  /** A queue entry is the start itself or the stored manifest of a name other than
      the start's. */
  predicate QueueEntry(byName: map<string, Manifest>, self: Manifest, m: Manifest) {
    m == self || (m.name in byName && byName[m.name] == m && m.name != self.name)
  }

  /** What the walk takes as the successors of a queue entry are exactly the names its
      groups list. */
  lemma ManifestSucc(byName: map<string, Manifest>, self: Manifest, m: Manifest)
    requires QueueEntry(byName, self, m)
    ensures Succ(ManifestGraph(byName, self), m.name) == Elems(InternalDependencyNames(m, byName.Keys))
  {
  }

  /** The `for` loop over the current manifest's internal dependencies: every name is
      recorded as found, and the manifests not yet seen are queued, in order. */
  method EnqueueDependencies(ghost self: Manifest, byName: map<string, Manifest>, deps: seq<Manifest>,
                             ghost depNames: seq<string>, queue: seq<Manifest>, seen: set<string>, found: set<string>)
    returns (queue': seq<Manifest>, found': set<string>)
    requires |deps| == |depNames|
    requires forall i :: 0 <= i < |deps| ==> depNames[i] in byName && deps[i] == byName[depNames[i]]
    requires Consistent(byName) && self.name in seen
    requires forall i :: 0 <= i < |queue| ==> QueueEntry(byName, self, queue[i])
    ensures found' == found + Elems(depNames)
    ensures Elems(NamesOf(queue')) == Elems(NamesOf(queue)) + (Elems(depNames) - seen)
    ensures CountSeen(NamesOf(queue'), seen) == CountSeen(NamesOf(queue), seen)
    ensures forall i :: 0 <= i < |queue'| ==> QueueEntry(byName, self, queue'[i])
  {
    queue', found' := queue, found;
    var j := 0;
    while j < |deps|
      invariant 0 <= j <= |deps|
      invariant EnqueuedUpTo(byName, self, depNames, queue, seen, found, j, queue', found')
    {
      var dependency := deps[j];
      EnqueueDependencyStep(byName, self, deps, depNames, queue, seen, found, j, queue', found');
      found' := found' + {dependency.name};
      if dependency.name !in seen {
        queue' := queue' + [dependency];
      }
      j := j + 1;
    }
    assert depNames[..|deps|] == depNames;
  }

  /** The loop of `EnqueueDependencies` after the first `j` dependencies: `q` and `f`
      are the queue and the found set it has built from `queue` and `found`. */
  predicate EnqueuedUpTo(byName: map<string, Manifest>, self: Manifest, depNames: seq<string>,
                         queue: seq<Manifest>, seen: set<string>, found: set<string>, j: nat,
                         q: seq<Manifest>, f: set<string>) {
    && j <= |depNames|
    && f == found + Elems(depNames[..j])
    && Elems(NamesOf(q)) == Elems(NamesOf(queue)) + (Elems(depNames[..j]) - seen)
    && CountSeen(NamesOf(q), seen) == CountSeen(NamesOf(queue), seen)
    && forall i :: 0 <= i < |q| ==> QueueEntry(byName, self, q[i])
  }

  /** One turn of the loop of `EnqueueDependencies` keeps `EnqueuedUpTo`. */
  lemma EnqueueDependencyStep(byName: map<string, Manifest>, self: Manifest, deps: seq<Manifest>, depNames: seq<string>,
                              queue: seq<Manifest>, seen: set<string>, found: set<string>, j: nat,
                              q: seq<Manifest>, f: set<string>)
    requires |deps| == |depNames| && j < |deps|
    requires depNames[j] in byName && deps[j] == byName[depNames[j]]
    requires Consistent(byName) && self.name in seen
    requires EnqueuedUpTo(byName, self, depNames, queue, seen, found, j, q, f)
    ensures EnqueuedUpTo(byName, self, depNames, queue, seen, found, j + 1,
                         if deps[j].name !in seen then q + [deps[j]] else q, f + {deps[j].name})
  {
    var d := deps[j];
    assert d.name == depNames[j];
    ElemsPrefixStep(depNames, j);
    if d.name !in seen {
      EnqueueOne(byName, self, q, d, seen);
    }
  }

  /** Appending a stored manifest whose name is not yet seen adds its name to the
      queue, adds nothing to the count of seen entries and keeps every entry valid. */
  lemma EnqueueOne(byName: map<string, Manifest>, self: Manifest, q: seq<Manifest>, d: Manifest, seen: set<string>)
    requires d.name !in seen && self.name in seen && d.name in byName && byName[d.name] == d
    requires forall i :: 0 <= i < |q| ==> QueueEntry(byName, self, q[i])
    ensures Elems(NamesOf(q + [d])) == Elems(NamesOf(q)) + {d.name}
    ensures CountSeen(NamesOf(q + [d]), seen) == CountSeen(NamesOf(q), seen)
    ensures forall i :: 0 <= i < |q + [d]| ==> QueueEntry(byName, self, (q + [d])[i])
  {
    assert NamesOf(q + [d]) == NamesOf(q) + [d.name];
    ElemsAppend(NamesOf(q), [d.name]);
    CountSeenAppend(NamesOf(q), d.name, seen);
  }

  /** One turn of the queue walk: pop the front manifest, mark it seen and enqueue
      its internal dependencies. The walk's invariant is kept and its measure drops. */
  method VisitNext(ghost g: Graph, self: Manifest, byName: map<string, Manifest>,
                   queue: seq<Manifest>, seen: set<string>, found: set<string>)
    returns (queue': seq<Manifest>, seen': set<string>, found': set<string>)
    requires Consistent(byName) && g == ManifestGraph(byName, self) && queue != []
    requires TraversalInv(g, self.name, NamesOf(queue), seen, found)
    requires forall i :: 0 <= i < |queue| ==> QueueEntry(byName, self, queue[i])
    ensures seen' == seen + {queue[0].name}
    ensures TraversalInv(g, self.name, NamesOf(queue'), seen', found')
    ensures forall i :: 0 <= i < |queue'| ==> QueueEntry(byName, self, queue'[i])
    ensures |Universe(g, self.name) - seen'| < |Universe(g, self.name) - seen|
         || (|Universe(g, self.name) - seen'| == |Universe(g, self.name) - seen|
             && CountSeen(NamesOf(queue'), seen') < CountSeen(NamesOf(queue), seen))
  {
    var current := queue[0];
    ghost var names0 := NamesOf(queue);
    var rest := queue[1..];
    assert NamesOf(rest) == names0[1..];
    seen' := seen + {current.name};
    var deps := GetInternalDependencies(current, byName);
    ghost var depNames := InternalDependencyNames(current, byName.Keys);
    ManifestSucc(byName, self, current);
    assert self.name in seen';
    queue', found' := EnqueueDependencies(self, byName, deps, depNames, rest, seen', found);
    TraversalStep(g, self.name, names0, seen, found, Elems(depNames), NamesOf(queue'), found');
  }

  /** `transitive_internal_dependency_package_names`: the queue walk from `self`. It
      reports the manifest of every package reachable by one or more edges, each once;
      `self` only when a cycle leads back to it. */
  method TransitiveInternalDependencyPackageNames(self: Manifest, byName: map<string, Manifest>)
    returns (r: seq<Manifest>)
    requires Consistent(byName)
    ensures Distinct(r)
    ensures Elems(NamesOf(r)) == Reachable(ManifestGraph(byName, self), self.name)
    ensures forall i :: 0 <= i < |r| ==> r[i].name in byName && r[i] == byName[r[i].name]
  {
    ghost var g := ManifestGraph(byName, self);
    var seen: set<string> := {};
    var found: set<string> := {};
    var queue: seq<Manifest> := [self];
    TraversalInit(g, self.name);
    while queue != []
      invariant TraversalInv(g, self.name, NamesOf(queue), seen, found)
      invariant forall i :: 0 <= i < |queue| ==> QueueEntry(byName, self, queue[i])
      decreases |Universe(g, self.name) - seen|, CountSeen(NamesOf(queue), seen)
    {
      queue, seen, found := VisitNext(g, self, byName, queue, seen, found);
    }
    TraversalDone(g, self.name, seen, found);
    r := ManifestsNamed(byName, found);
  }

  /** The closing `map(... get(name).unwrap())`: the stored manifest of every found name,
      each once, in the set's iteration order. */
  method ManifestsNamed(byName: map<string, Manifest>, found: set<string>) returns (r: seq<Manifest>)
    requires found <= byName.Keys && Consistent(byName)
    ensures Distinct(r) && Elems(NamesOf(r)) == found
    ensures forall i :: 0 <= i < |r| ==> r[i].name in byName && r[i] == byName[r[i].name]
  {
    var names := SetToSeq(found);
    r := seq(|names|, i requires 0 <= i < |names| => byName[names[i]]);
    assert NamesOf(r) == names;
    DistinctMeaning(names);
    DistinctMeaning(r);
  }

  // ---------------------------------------------------------------------------
  // Names.

  /** `trim_start_matches('@')`. */
  function TrimLeadingAt(s: string): (r: string)
    ensures |r| <= |s|
    ensures r == [] || r[0] != '@'
  {
    if s != [] && s[0] == '@' then TrimLeadingAt(s[1..]) else s
  }

  /** What is trimmed is a run of '@'s: the result is what follows it. */
  lemma {:induction false} TrimLeadingAtSuffix(s: string)
    ensures var r := TrimLeadingAt(s);
            r == s[|s| - |r|..] && forall i :: 0 <= i < |s| - |r| ==> s[i] == '@'
  {
    if s != [] && s[0] == '@' {
      TrimLeadingAtSuffix(s[1..]);
      var r := TrimLeadingAt(s);
      forall i | 0 <= i < |s| - |r|
        ensures s[i] == '@'
      {
        if i > 0 {
          assert s[i] == s[1..][i - 1];
        }
      }
    }
  }

  /** `replace("/", "-")`. */
  function ReplaceSlash(s: string): (r: string)
    ensures |r| == |s|
    ensures forall i :: 0 <= i < |s| ==> r[i] == (if s[i] == '/' then '-' else s[i])
  {
    seq(|s|, i requires 0 <= i < |s| => if s[i] == '/' then '-' else s[i])
  }

  lemma NoSlashAfterReplace(s: string)
    ensures '/' !in ReplaceSlash(s)
  {
    var r := ReplaceSlash(s);
    forall i | 0 <= i < |r|
      ensures r[i] != '/'
    {
    }
  }

  /** A name without '/' is left as it is. */
  lemma ReplaceSlashIdentity(s: string)
    requires '/' !in s
    ensures ReplaceSlash(s) == s
  {
  }

  /** Replacing in `a/b` with no '/' in `a` turns that one '/' into '-'. */
  lemma ReplaceSlashScoped(a: string, b: string)
    requires '/' !in a && '/' !in b
    ensures ReplaceSlash(a + "/" + b) == a + "-" + b
  {
    var s := a + "/" + b;
    var r := ReplaceSlash(s);
    forall i | 0 <= i < |s|
      ensures r[i] == (a + "-" + b)[i]
    {
      if i < |a| {
        assert s[i] == a[i];
      } else if i > |a| {
        assert s[i] == b[i - |a| - 1];
      }
    }
  }

  lemma ArchiveSuffix(stem: string, version: string)
    ensures var r := stem + ("-" + version + ".tgz");
            |r| >= 5 && r[|r| - 4..] == ".tgz" && ('/' !in stem && '/' !in version ==> '/' !in r)
  {
    var tail := "-" + version + ".tgz";
    assert (stem + tail)[|stem + tail| - 4..] == tail[|tail| - 4..];
  }

  /** `npm_pack_file_basename`: the archive `npm pack` writes for this package. */
  function NpmPackFileBasename(m: Manifest): (r: string)
    ensures '/' !in m.version ==> '/' !in r
    ensures |r| >= 5 && r[|r| - 4..] == ".tgz"
  {
    var stem := ReplaceSlash(TrimLeadingAt(m.name));
    NoSlashAfterReplace(TrimLeadingAt(m.name));
    ArchiveSuffix(stem, m.version);
    stem + ("-" + m.version + ".tgz")
  }

  /** The archive name is the name without its leading '@'s and with '/' turned
      into '-', then "-", the version and ".tgz". */
  lemma NpmPackFileBasenameShape(m: Manifest)
    ensures var stem := TrimLeadingAt(m.name);
            NpmPackFileBasename(m)[..|stem|] == ReplaceSlash(stem)
            && NpmPackFileBasename(m)[|stem|..] == "-" + m.version + ".tgz"
  {
  }

  /** The doc comment's example name, its leading '@' trimmed. */
  lemma TrimExample()
    ensures TrimLeadingAt("@myscope/a-cool-package") == "myscope" + "/" + "a-cool-package"
  {
    assert "@myscope/a-cool-package"[1..] == "myscope" + "/" + "a-cool-package";
  }

  /** A scoped name `@a/b` gives the archive `a-b-<version>.tgz`. */
  lemma ScopedBasename(m: Manifest, a: string, b: string)
    requires TrimLeadingAt(m.name) == a + "/" + b && '/' !in a && '/' !in b
    ensures NpmPackFileBasename(m) == a + "-" + b + ("-" + m.version + ".tgz")
  {
    ReplaceSlashScoped(a, b);
  }

  /** The doc comment's example archive, spelled out. */
  lemma JoinExample()
    ensures "myscope" + "-" + "a-cool-package" + ("-" + "1.0.0" + ".tgz") == "myscope-a-cool-package-1.0.0.tgz"
  {
  }

  lemma NpmPackFileBasenameExample(directory: Path, extraFields: seq<Field>)
    ensures NpmPackFileBasename(Manifest(directory, "@myscope/a-cool-package", "1.0.0", extraFields))
            == "myscope-a-cool-package-1.0.0.tgz"
  {
    var m := Manifest(directory, "@myscope/a-cool-package", "1.0.0", extraFields);
    assert TrimLeadingAt(m.name) == "myscope" + "/" + "a-cool-package" by {
      TrimExample();
    }
    ScopedBasename(m, "myscope", "a-cool-package");
    JoinExample();
  }

  /** `npm_pack_filename`: the archive inside the package's directory. */
  function NpmPackFilename(m: Manifest): (r: Path)
    ensures |r| == |m.directory| + 1 && r[..|m.directory|] == m.directory
    ensures r[|m.directory|] == Utf8(NpmPackFileBasename(m))
  {
    m.directory + [Utf8(NpmPackFileBasename(m))]
  }

  /** `rsplit_once("/")`'s right part when there is a '/'; the whole name otherwise. */
  function UnscopedPackageName(name: string): (r: string)
    ensures '/' !in r
    ensures |r| <= |name| && r == name[|name| - |r|..]
    ensures '/' !in name ==> r == name
    ensures '/' in name ==> name[|name| - |r| - 1] == '/'
  {
    if name == [] then []
    else if name[|name| - 1] == '/' then []
    else
      var init := name[..|name| - 1];
      var r := UnscopedPackageName(init) + [name[|name| - 1]];
      assert name == init + [name[|name| - 1]];
      assert '/' in name ==> '/' in init;
      r
  }

  /** A scoped name `scope/rest`, where `rest` has no '/', is unscoped to `rest`. */
  lemma {:induction false} UnscopedPackageNameOfScoped(scope: string, rest: string)
    requires '/' !in rest
    ensures UnscopedPackageName(scope + "/" + rest) == rest
    decreases |rest|
  {
    var name := scope + "/" + rest;
    if rest == [] {
      assert name[|name| - 1] == '/';
    } else {
      var init := rest[..|rest| - 1];
      assert name[|name| - 1] == rest[|rest| - 1];
      assert name[..|name| - 1] == scope + "/" + init;
      assert '/' !in init by {
        assert forall c :: c in init ==> c in rest;
      }
      UnscopedPackageNameOfScoped(scope, init);
      assert rest == init + [rest[|rest| - 1]];
    }
  }

  lemma UnscopedPackageNameExample()
    ensures UnscopedPackageName("@myscope/a-cool-package") == "a-cool-package"
    ensures UnscopedPackageName("plain") == "plain"
  {
    assert "@myscope/a-cool-package" == "@myscope" + "/" + "a-cool-package";
    UnscopedPackageNameOfScoped("@myscope", "a-cool-package");
  }

  // ---------------------------------------------------------------------------
  // Reading and writing package.json.

  /** `path()`: the manifest's file, relative to the monorepo root. */
  function ManifestPath(m: Manifest): Path {
    m.directory + [Utf8(ManifestFilename)]
  }

  /** Serialising `PackageManifestFile`: `name`, `version`, then the flattened rest. */
  function ManifestToJson(m: Manifest): Json {
    JObject([("name", JString(m.name)), ("version", JString(m.version))] + m.extraFields)
  }

  /** Deserialising `PackageManifestFile`: both `name` and `version` must be strings;
      every other key is kept, in order, as an extra field. */
  function ParseManifest(directory: Path, doc: Json): (r: Option<Manifest>)
    ensures r.Some? <==> doc.JObject? && Get(doc.fields, "name").Some? && Get(doc.fields, "name").value.JString?
                         && Get(doc.fields, "version").Some? && Get(doc.fields, "version").value.JString?
    ensures r.Some? ==> r.value.directory == directory
    ensures r.Some? ==> Get(doc.fields, "name") == Some(JString(r.value.name))
    ensures r.Some? ==> Get(doc.fields, "version") == Some(JString(r.value.version))
    ensures r.Some? ==> "name" !in Keys(r.value.extraFields) && "version" !in Keys(r.value.extraFields)
    ensures r.Some? ==> forall k :: k != "name" && k != "version" ==> Get(r.value.extraFields, k) == Get(doc.fields, k)
  {
    if !doc.JObject? then None
    else match (Get(doc.fields, "name"), Get(doc.fields, "version"))
      case (Some(JString(name)), Some(JString(version))) =>
        Some(Manifest(directory, name, version, Without(doc.fields, {"name", "version"})))
      case _ => None
  }

  /** A manifest whose extra fields do not repeat `name` or `version` is read back as written. */
  lemma ManifestRoundTrip(m: Manifest)
    requires "name" !in Keys(m.extraFields) && "version" !in Keys(m.extraFields)
    ensures ParseManifest(m.directory, ManifestToJson(m)) == Some(m)
  {
    var fields := ManifestToJson(m).fields;
    assert fields[2..] == m.extraFields;
    WithoutAbsent(m.extraFields, {"name", "version"});
    assert Without(fields, {"name", "version"}) == Without(fields[1..], {"name", "version"});
    assert fields[1..][1..] == m.extraFields;
  }

  /** `PackageManifest::from_directory`. */
  function ReadManifest(files: map<Path, Json>, root: Path, directory: Path): (r: Result<Manifest, FromFileError>)
    ensures r.Ok? <==> ConfigPath(root, directory, ManifestFilename) in files
                       && ParseManifest(directory, files[ConfigPath(root, directory, ManifestFilename)]).Some?
    ensures r.Ok? ==> Some(r.value) == ParseManifest(directory, files[ConfigPath(root, directory, ManifestFilename)])
    ensures r.Err? && ConfigPath(root, directory, ManifestFilename) !in files
            ==> r.error == FileNotFound(ConfigPath(root, directory, ManifestFilename))
  {
    var path := ConfigPath(root, directory, ManifestFilename);
    match ReadDocument(files, path)
    case Err(e) => Err(e)
    case Ok(doc) =>
      match ParseManifest(directory, doc)
      case Some(m) => Ok(m)
      case None => Err(InvalidContents(path))
  }

  /** `PackageManifest::write`. */
  method WriteManifest(fs: FileSystem, root: Path, m: Manifest)
    modifies fs
    ensures fs.files == old(fs.files)[ConfigPath(root, m.directory, ManifestFilename) := ManifestToJson(m)]
  {
    fs.Write(ConfigPath(root, m.directory, ManifestFilename), ManifestToJson(m));
  }

  /** What is written is what a later read finds. */
  lemma WriteThenRead(files: map<Path, Json>, root: Path, m: Manifest)
    requires "name" !in Keys(m.extraFields) && "version" !in Keys(m.extraFields)
    ensures ReadManifest(files[ConfigPath(root, m.directory, ManifestFilename) := ManifestToJson(m)], root, m.directory) == Ok(m)
  {
    ManifestRoundTrip(m);
  }
}
