// `pin`: every dependency on an internal package is rewritten to the version that
// package declares; in check-only mode the differing versions are reported instead.
module Pin {
  import opened Wrappers
  import opened Json
  import opened Paths
  import opened Collections
  import opened FileSystems
  import opened PackageManifests
  import opened MonorepoManifests
  import opened UnpinnedDependencies

  /** Why `pin_version_numbers_in_internal_packages` fails. */
  datatype PinError =
    | PinFromFile(error: FromFileError)
      // check-only mode found at least one unpinned version
    | UnexpectedVersions

  /** `package_version_by_package_name`: the version each internal package declares,
      collected from the values of the name-keyed table. */
  function VersionsByName(byName: map<string, Manifest>): (r: map<string, string>)
    requires Consistent(byName)
    ensures r.Keys == byName.Keys
    ensures forall n :: n in r ==> r[n] == byName[n].version
  {
    assert forall m :: m in byName.Values ==> byName[m.name] == m;
    map m | m in byName.Values :: m.name := m.version
  }

  // ---------------------------------------------------------------------------
  // One dependency group.

  /** An entry names an internal package but not at the version that package declares. */
  predicate Unpinned(f: Field, versions: map<string, string>) {
    f.0 in versions && f.1 != JString(versions[f.0])
  }

  /** The `expect` in the rewrite: an entry naming an internal package carries a string
      version; any other value makes the command panic. */
  predicate VersionStrings(fields: seq<Field>, versions: map<string, string>) {
    forall i :: 0 <= i < |fields| && fields[i].0 in versions ==> fields[i].1.JString?
  }

  /** Every internal entry of the group is at its declared version. */
  predicate GroupPinned(fields: seq<Field>, versions: map<string, string>) {
    forall i :: 0 <= i < |fields| ==> !Unpinned(fields[i], versions)
  }

  /** The entry after the rewrite: an unpinned version is replaced by the declared one. */
  function PinnedField(f: Field, versions: map<string, string>): Field {
    if Unpinned(f, versions) then (f.0, JString(versions[f.0])) else f
  }

  /** The group after the rewrite, entry by entry. */
  function PinnedFields(fields: seq<Field>, versions: map<string, string>): (r: seq<Field>)
    ensures |r| == |fields|
  {
    seq(|fields|, i requires 0 <= i < |fields| => PinnedField(fields[i], versions))
  }

  /** The report for one entry: empty unless it is unpinned. */
  function UnpinnedAt(f: Field, versions: map<string, string>): seq<UnpinnedDependency>
    requires f.0 in versions ==> f.1.JString?
  {
    if Unpinned(f, versions) then [UnpinnedDependency(f.0, f.1.str, versions[f.0])] else []
  }

  /** The report for a group: the unpinned entries in the group's order. */
  function UnpinnedIn(fields: seq<Field>, versions: map<string, string>): seq<UnpinnedDependency>
    requires VersionStrings(fields, versions)
  {
    if fields == [] then []
    else UnpinnedIn(fields[..|fields| - 1], versions) + UnpinnedAt(fields[|fields| - 1], versions)
  }

  /** `u` is the report of the `i`-th entry of the group. */
  predicate ReportedAt(fields: seq<Field>, versions: map<string, string>, i: int, u: UnpinnedDependency) {
    0 <= i < |fields| && Unpinned(fields[i], versions) && fields[i].1.JString?
    && u == UnpinnedDependency(fields[i].0, fields[i].1.str, versions[fields[i].0])
  }

  /** The rewrite keeps every key in place, leaves external entries alone, puts every
      internal entry at its declared version, and leaves nothing unpinned. */
  lemma PinnedFieldsMeaning(fields: seq<Field>, versions: map<string, string>)
    ensures Keys(PinnedFields(fields, versions)) == Keys(fields)
    ensures forall i :: 0 <= i < |fields| && fields[i].0 !in versions ==> PinnedFields(fields, versions)[i] == fields[i]
    ensures forall i :: 0 <= i < |fields| && fields[i].0 in versions ==>
              PinnedFields(fields, versions)[i] == (fields[i].0, JString(versions[fields[i].0]))
    ensures GroupPinned(PinnedFields(fields, versions), versions)
    ensures VersionStrings(PinnedFields(fields, versions), versions)
  {
    var r := PinnedFields(fields, versions);
    assert forall i :: 0 <= i < |fields| ==> r[i] == PinnedField(fields[i], versions);
    assert forall i :: 0 <= i < |fields| ==> r[i].0 == fields[i].0;
    assert Keys(r) == Keys(fields);
  }

  /** A group with nothing unpinned is left exactly as it was. */
  lemma PinnedFieldsUnchanged(fields: seq<Field>, versions: map<string, string>)
    requires GroupPinned(fields, versions)
    ensures PinnedFields(fields, versions) == fields
  {
  }

  /** A group's report is empty exactly when the group is pinned. */
  lemma {:induction false} UnpinnedInEmpty(fields: seq<Field>, versions: map<string, string>)
    requires VersionStrings(fields, versions)
    ensures UnpinnedIn(fields, versions) == [] <==> GroupPinned(fields, versions)
    decreases |fields|
  {
    if fields != [] {
      var init := fields[..|fields| - 1];
      UnpinnedInEmpty(init, versions);
      GroupPinnedSnoc(fields, versions);
    }
  }

  /** A group is pinned when all but its last entry are and the last entry is too. */
  lemma GroupPinnedSnoc(fields: seq<Field>, versions: map<string, string>)
    requires fields != []
    ensures GroupPinned(fields, versions) <==>
            GroupPinned(fields[..|fields| - 1], versions) && !Unpinned(fields[|fields| - 1], versions)
  {
    var init := fields[..|fields| - 1];
    assert forall i :: 0 <= i < |init| ==> init[i] == fields[i];
  }

  /** A group's report lists exactly the unpinned entries, each with the version it had
      and the version it should have. */
  lemma {:induction false} UnpinnedInMembers(fields: seq<Field>, versions: map<string, string>, u: UnpinnedDependency)
    requires VersionStrings(fields, versions)
    ensures u in UnpinnedIn(fields, versions) <==> exists i :: ReportedAt(fields, versions, i, u)
    decreases |fields|
  {
    if fields != [] {
      var init := fields[..|fields| - 1];
      var last := |fields| - 1;
      UnpinnedInMembers(init, versions, u);
      assert forall i :: 0 <= i < |init| ==> init[i] == fields[i];
      if u in UnpinnedIn(fields, versions) {
        if u in UnpinnedIn(init, versions) {
          var i :| ReportedAt(init, versions, i, u);
          assert ReportedAt(fields, versions, i, u);
        } else {
          assert ReportedAt(fields, versions, last, u);
        }
      }
      if exists i :: ReportedAt(fields, versions, i, u) {
        var i :| ReportedAt(fields, versions, i, u);
        if i < last {
          assert ReportedAt(init, versions, i, u);
        }
      }
    }
  }

  /** The closure over one group: every entry is visited once, unpinned versions are
      overwritten in place and reported in the group's order. */
  method PinGroup(fields: seq<Field>, versions: map<string, string>) returns (pinned: seq<Field>, unpinned: seq<UnpinnedDependency>)
    requires VersionStrings(fields, versions)
    ensures pinned == PinnedFields(fields, versions)
    ensures unpinned == UnpinnedIn(fields, versions)
  {
    pinned := [];
    unpinned := [];
    for i := 0 to |fields|
      invariant pinned == PinnedFields(fields[..i], versions)
      invariant unpinned == UnpinnedIn(fields[..i], versions)
    {
      var (name, version) := fields[i];
      assert fields[..i + 1][..i] == fields[..i];
      if name in versions && version.str != versions[name] {
        unpinned := unpinned + [UnpinnedDependency(name, version.str, versions[name])];
        pinned := pinned + [(name, JString(versions[name]))];
      } else {
        pinned := pinned + [(name, version)];
      }
    }
    assert fields[..|fields|] == fields;
  }

  // ---------------------------------------------------------------------------
  // One package manifest.

  /** The position of a group in `DependencyGroup::VALUES`. */
  function GroupIndex(g: DependencyGroup): (i: nat)
    ensures i < |GroupValues| && GroupValues[i] == g
    ensures forall k :: 0 <= k < |GroupValues| && GroupValues[k] == g ==> k == i
  {
    match g
    case Dependencies => 0
    case DevDependencies => 1
    case OptionalDependencies => 2
    case PeerDependencies => 3
  }

  /** The key of one of the four dependency groups. */
  predicate IsGroupKey(k: string) {
    k == "dependencies" || k == "devDependencies" || k == "optionalDependencies" || k == "peerDependencies"
  }

  lemma GroupKeyIsGroupKey(g: DependencyGroup)
    ensures IsGroupKey(GroupKey(g))
  {
  }

  /** No group of the manifest makes the rewrite panic. */
  predicate ManifestVersionStrings(m: Manifest, versions: map<string, string>) {
    forall g :: GetDependencyGroup(m, g).Some? ==> VersionStrings(GetDependencyGroup(m, g).value, versions)
  }

  /** Every group of the manifest is pinned. */
  predicate ManifestPinned(m: Manifest, versions: map<string, string>) {
    forall g :: GetDependencyGroup(m, g).Some? ==> GroupPinned(GetDependencyGroup(m, g).value, versions)
  }

  function PinnedGroup(o: Option<seq<Field>>, versions: map<string, string>): Option<seq<Field>> {
    match o
    case None => None
    case Some(fields) => Some(PinnedFields(fields, versions))
  }

  /** One turn of the group loop: an absent or non-object group is skipped. */
  function PinOneGroup(m: Manifest, versions: map<string, string>, group: DependencyGroup): (Manifest, seq<UnpinnedDependency>)
    requires ManifestVersionStrings(m, versions)
  {
    match GetDependencyGroup(m, group)
    case None => (m, [])
    case Some(fields) => (SetDependencyGroup(m, group, PinnedFields(fields, versions)), UnpinnedIn(fields, versions))
  }

  /** The first `k` groups of `DependencyGroup::VALUES` rewritten, and their reports
      appended in group order. */
  function PinGroups(m: Manifest, versions: map<string, string>, k: nat): (r: (Manifest, seq<UnpinnedDependency>))
    requires k <= |GroupValues| && ManifestVersionStrings(m, versions)
    ensures r.0.directory == m.directory && r.0.name == m.name && r.0.version == m.version
    ensures Keys(r.0.extraFields) == Keys(m.extraFields)
    ensures forall key :: !IsGroupKey(key) ==> Get(r.0.extraFields, key) == Get(m.extraFields, key)
    ensures forall g :: GetDependencyGroup(r.0, g) ==
              if GroupIndex(g) < k then PinnedGroup(GetDependencyGroup(m, g), versions) else GetDependencyGroup(m, g)
    ensures ManifestVersionStrings(r.0, versions)
  {
    if k == 0 then (m, [])
    else
      var prev := PinGroups(m, versions, k - 1);
      var group := GroupValues[k - 1];
      PinOneGroupMeaning(prev.0, versions, group);
      assert GroupIndex(group) == k - 1;
      var step := PinOneGroup(prev.0, versions, group);
      (step.0, prev.1 + step.1)
  }

  /** One turn of the group loop changes that group only, and only its values. */
  lemma PinOneGroupMeaning(m: Manifest, versions: map<string, string>, group: DependencyGroup)
    requires ManifestVersionStrings(m, versions)
    ensures var r := PinOneGroup(m, versions, group).0;
            && r.directory == m.directory && r.name == m.name && r.version == m.version
            && Keys(r.extraFields) == Keys(m.extraFields)
            && (forall key :: !IsGroupKey(key) ==> Get(r.extraFields, key) == Get(m.extraFields, key))
            && GetDependencyGroup(r, group) == PinnedGroup(GetDependencyGroup(m, group), versions)
            && (forall h :: h != group ==> GetDependencyGroup(r, h) == GetDependencyGroup(m, h))
            && ManifestVersionStrings(r, versions)
  {
    GroupKeyIsGroupKey(group);
    match GetDependencyGroup(m, group)
    case None =>
    case Some(fields) =>
      PinnedFieldsMeaning(fields, versions);
  }

  /** The rewrite of one package: all four groups, in `DependencyGroup::VALUES` order. */
  function PinManifest(m: Manifest, versions: map<string, string>): (Manifest, seq<UnpinnedDependency>)
    requires ManifestVersionStrings(m, versions)
  {
    PinGroups(m, versions, |GroupValues|)
  }

  /** `u` is reported for the group `g`, one of the first `k`. */
  predicate ReportedInGroup(m: Manifest, versions: map<string, string>, k: nat, g: DependencyGroup, u: UnpinnedDependency)
    requires ManifestVersionStrings(m, versions)
  {
    GroupIndex(g) < k && GetDependencyGroup(m, g).Some? && u in UnpinnedIn(GetDependencyGroup(m, g).value, versions)
  }

  /** The present groups among the first `k` are all pinned. */
  predicate FirstGroupsPinned(m: Manifest, versions: map<string, string>, k: nat) {
    forall g :: GroupIndex(g) < k && GetDependencyGroup(m, g).Some? ==> GroupPinned(GetDependencyGroup(m, g).value, versions)
  }

  /** The report of the first `k` groups is empty exactly when those groups are pinned. */
  lemma PinGroupsReports(m: Manifest, versions: map<string, string>, k: nat)
    requires k <= |GroupValues| && ManifestVersionStrings(m, versions)
    ensures PinGroups(m, versions, k).1 == [] <==> FirstGroupsPinned(m, versions, k)
  {
    PinGroupsReportsAgree(m, versions, k);
    GroupReportsEmpty(m, versions, k);
  }

  /** The reports read off the first `k` groups are empty exactly when those groups
      are pinned. */
  lemma {:induction false} GroupReportsEmpty(m: Manifest, versions: map<string, string>, k: nat)
    requires k <= |GroupValues| && ManifestVersionStrings(m, versions)
    ensures GroupReports(m, versions, k) == [] <==> FirstGroupsPinned(m, versions, k)
    decreases k
  {
    if k > 0 {
      GroupReportsEmpty(m, versions, k - 1);
      var group := GroupValues[k - 1];
      assert GroupIndex(group) == k - 1;
      var before, last := GroupReports(m, versions, k - 1), GroupReport(m, versions, group);
      assert GroupReports(m, versions, k) == before + last;
      var lastPinned := GetDependencyGroup(m, group).Some? ==> GroupPinned(GetDependencyGroup(m, group).value, versions);
      match GetDependencyGroup(m, group) {
        case None =>
        case Some(fields) => UnpinnedInEmpty(fields, versions);
      }
      assert last == [] <==> lastPinned;
      if FirstGroupsPinned(m, versions, k - 1) && lastPinned {
        forall g | GroupIndex(g) < k && GetDependencyGroup(m, g).Some?
          ensures GroupPinned(GetDependencyGroup(m, g).value, versions)
        {
          if GroupIndex(g) == k - 1 {
            assert g == group;
          }
        }
      }
    }
  }

  /** What the group loop reports for one group of the manifest as it was before the
      loop: the group's unpinned dependencies, or nothing when the group is absent. */
  function GroupReport(m: Manifest, versions: map<string, string>, group: DependencyGroup): seq<UnpinnedDependency>
    requires ManifestVersionStrings(m, versions)
  {
    match GetDependencyGroup(m, group)
    case None => []
    case Some(fields) => UnpinnedIn(fields, versions)
  }

  /** The reports of the first `k` groups of the manifest, in group order. */
  function GroupReports(m: Manifest, versions: map<string, string>, k: nat): seq<UnpinnedDependency>
    requires k <= |GroupValues| && ManifestVersionStrings(m, versions)
  {
    if k == 0 then [] else GroupReports(m, versions, k - 1) + GroupReport(m, versions, GroupValues[k - 1])
  }

  /** The report the group loop builds while it rewrites the manifest is the one read
      off the manifest as it was before the loop. */
  lemma {:induction false} PinGroupsReportsAgree(m: Manifest, versions: map<string, string>, k: nat)
    requires k <= |GroupValues| && ManifestVersionStrings(m, versions)
    ensures PinGroups(m, versions, k).1 == GroupReports(m, versions, k)
    decreases k
  {
    if k > 0 {
      PinGroupsReportsAgree(m, versions, k - 1);
      var prev := PinGroups(m, versions, k - 1);
      PinGroupsStep(m, versions, k - 1);
      assert GroupIndex(GroupValues[k - 1]) == k - 1;
      assert GetDependencyGroup(prev.0, GroupValues[k - 1]) == GetDependencyGroup(m, GroupValues[k - 1]);
    }
  }

  /** The report of the first `k` groups is the union of those groups' reports. */
  lemma PinGroupsMembers(m: Manifest, versions: map<string, string>, k: nat, u: UnpinnedDependency)
    requires k <= |GroupValues| && ManifestVersionStrings(m, versions)
    ensures u in PinGroups(m, versions, k).1 <==> exists g :: ReportedInGroup(m, versions, k, g, u)
  {
    PinGroupsReportsAgree(m, versions, k);
    if u in GroupReports(m, versions, k) {
      var g := GroupReportsFrom(m, versions, k, u);
    }
    forall g | ReportedInGroup(m, versions, k, g, u)
      ensures u in GroupReports(m, versions, k)
    {
      GroupReportsComplete(m, versions, k, g, u);
    }
  }

  /** Every dependency the first `k` groups report comes from one of those groups. */
  lemma {:induction false} GroupReportsFrom(m: Manifest, versions: map<string, string>, k: nat, u: UnpinnedDependency)
    returns (g: DependencyGroup)
    requires k <= |GroupValues| && ManifestVersionStrings(m, versions)
    requires u in GroupReports(m, versions, k)
    ensures ReportedInGroup(m, versions, k, g, u)
    decreases k
  {
    if u in GroupReports(m, versions, k - 1) {
      g := GroupReportsFrom(m, versions, k - 1, u);
    } else {
      g := GroupValues[k - 1];
    }
  }

  /** Every dependency left unpinned in one of the first `k` groups is reported. */
  lemma {:induction false} GroupReportsComplete(m: Manifest, versions: map<string, string>, k: nat, g: DependencyGroup,
                                                u: UnpinnedDependency)
    requires k <= |GroupValues| && ManifestVersionStrings(m, versions)
    requires ReportedInGroup(m, versions, k, g, u)
    ensures u in GroupReports(m, versions, k)
    decreases k
  {
    var before, last := GroupReports(m, versions, k - 1), GroupReport(m, versions, GroupValues[k - 1]);
    assert GroupReports(m, versions, k) == before + last;
    if GroupIndex(g) < k - 1 {
      GroupReportsComplete(m, versions, k - 1, g, u);
      assert u in before;
    } else {
      assert GroupValues[k - 1] == g;
      assert u in last by {
        assert last == UnpinnedIn(GetDependencyGroup(m, g).value, versions);
      }
    }
  }

  /** A pinned manifest goes through the first `k` groups unchanged. */
  lemma {:induction false} PinGroupsUnchanged(m: Manifest, versions: map<string, string>, k: nat)
    requires k <= |GroupValues| && ManifestVersionStrings(m, versions) && ManifestPinned(m, versions)
    ensures PinGroups(m, versions, k).0 == m
    decreases k
  {
    if k > 0 {
      PinGroupsUnchanged(m, versions, k - 1);
      PinGroupsStep(m, versions, k - 1);
      PinOneGroupUnchanged(m, versions, GroupValues[k - 1]);
      assert PinGroups(m, versions, k - 1).0 == m;
    }
  }

  /** One turn of the group loop leaves a pinned manifest as it is. */
  lemma PinOneGroupUnchanged(m: Manifest, versions: map<string, string>, group: DependencyGroup)
    requires ManifestVersionStrings(m, versions) && ManifestPinned(m, versions)
    ensures PinOneGroup(m, versions, group).0 == m
  {
    match GetDependencyGroup(m, group)
    case None =>
    case Some(fields) =>
      PinnedFieldsUnchanged(fields, versions);
      SetGetDependencyGroup(m, group);
  }

  /** After the rewrite every group of the package is pinned, and none makes a later
      rewrite panic. */
  lemma PinManifestPinned(m: Manifest, versions: map<string, string>)
    requires ManifestVersionStrings(m, versions)
    ensures ManifestPinned(PinManifest(m, versions).0, versions)
    ensures ManifestVersionStrings(PinManifest(m, versions).0, versions)
  {
    var r := PinManifest(m, versions).0;
    forall g | GetDependencyGroup(r, g).Some?
      ensures GroupPinned(GetDependencyGroup(r, g).value, versions)
    {
      PinnedFieldsMeaning(GetDependencyGroup(m, g).value, versions);
    }
  }

  /** `dependencies_to_update` is empty exactly when the package is already pinned. */
  lemma PinManifestReports(m: Manifest, versions: map<string, string>)
    requires ManifestVersionStrings(m, versions)
    ensures PinManifest(m, versions).1 == [] <==> ManifestPinned(m, versions)
  {
    PinGroupsReports(m, versions, |GroupValues|);
  }

  /** `dependencies_to_update` lists exactly the unpinned entries of the four groups. */
  lemma PinManifestMembers(m: Manifest, versions: map<string, string>, u: UnpinnedDependency)
    requires ManifestVersionStrings(m, versions)
    ensures u in PinManifest(m, versions).1 <==>
            exists g, i :: GetDependencyGroup(m, g).Some? && ReportedAt(GetDependencyGroup(m, g).value, versions, i, u)
  {
    PinGroupsMembers(m, versions, |GroupValues|, u);
    if u in PinManifest(m, versions).1 {
      var g :| ReportedInGroup(m, versions, |GroupValues|, g, u);
      UnpinnedInMembers(GetDependencyGroup(m, g).value, versions, u);
    }
    if exists g, i :: GetDependencyGroup(m, g).Some? && ReportedAt(GetDependencyGroup(m, g).value, versions, i, u) {
      var g, i :| GetDependencyGroup(m, g).Some? && ReportedAt(GetDependencyGroup(m, g).value, versions, i, u);
      UnpinnedInMembers(GetDependencyGroup(m, g).value, versions, u);
      assert ReportedInGroup(m, versions, |GroupValues|, g, u);
    }
  }

  /** A pinned package is neither changed nor reported. */
  lemma PinManifestUnchanged(m: Manifest, versions: map<string, string>)
    requires ManifestVersionStrings(m, versions) && ManifestPinned(m, versions)
    ensures PinManifest(m, versions) == (m, [])
  {
    PinGroupsUnchanged(m, versions, |GroupValues|);
    PinManifestReports(m, versions);
  }

  /** Pinning twice is pinning once: the second rewrite changes and reports nothing. */
  lemma PinManifestIdempotent(m: Manifest, versions: map<string, string>)
    requires ManifestVersionStrings(m, versions)
    ensures ManifestVersionStrings(PinManifest(m, versions).0, versions)
    ensures PinManifest(PinManifest(m, versions).0, versions) == (PinManifest(m, versions).0, [])
  {
    PinManifestPinned(m, versions);
    PinManifestUnchanged(PinManifest(m, versions).0, versions);
  }

  /** The group loop's recursion, one turn at a time. */
  lemma PinGroupsStep(m: Manifest, versions: map<string, string>, k: nat)
    requires k < |GroupValues| && ManifestVersionStrings(m, versions)
    ensures var prev := PinGroups(m, versions, k);
            var step := PinOneGroup(prev.0, versions, GroupValues[k]);
            PinGroups(m, versions, k + 1) == (step.0, prev.1 + step.1)
  {
  }

  /** The loop body for one package: the four groups in `DependencyGroup::VALUES` order,
      each found group rewritten in place and its report appended. */
  method PinPackage(m: Manifest, versions: map<string, string>) returns (pinned: Manifest, unpinned: seq<UnpinnedDependency>)
    requires ManifestVersionStrings(m, versions)
    ensures (pinned, unpinned) == PinManifest(m, versions)
  {
    pinned := m;
    unpinned := [];
    for k := 0 to |GroupValues|
      invariant pinned == PinGroups(m, versions, k).0
      invariant unpinned == PinGroups(m, versions, k).1
    {
      PinGroupsStep(m, versions, k);
      var found;
      pinned, found := PinGroupOf(pinned, versions, GroupValues[k]);
      unpinned := unpinned + found;
    }
  }

  /** One turn of the group loop: the group, when present, rewritten by `PinGroup`. */
  method PinGroupOf(m: Manifest, versions: map<string, string>, group: DependencyGroup)
    returns (pinned: Manifest, unpinned: seq<UnpinnedDependency>)
    requires ManifestVersionStrings(m, versions)
    ensures (pinned, unpinned) == PinOneGroup(m, versions, group)
  {
    match GetDependencyGroup(m, group)
    case None =>
      pinned, unpinned := m, [];
    case Some(fields) =>
      var newFields;
      newFields, unpinned := PinGroup(fields, versions);
      pinned := SetDependencyGroup(m, group, newFields);
  }

  // ---------------------------------------------------------------------------
  // The whole monorepo.

  /** The name-keyed table the command works on. */
  function TableOf(files: map<Path, Json>, root: Path, walk: GlobWalk): (r: map<string, Manifest>)
    requires WalksBelowRoot(walk, root) && FromDirectory(files, root, walk).Ok?
    ensures r == PackageManifestsByPackageName(FromDirectory(files, root, walk).value.internalPackageManifests)
  {
    PackageManifestsByPackageName(FromDirectory(files, root, walk).value.internalPackageManifests)
  }

  /** No package of the table makes the rewrite against `versions` panic. */
  predicate VersionStringsIn(byName: map<string, Manifest>, versions: map<string, string>) {
    forall n :: n in byName ==> ManifestVersionStrings(byName[n], versions)
  }

  /** No package of the table makes the rewrite against its own versions panic. */
  predicate Pinnable(byName: map<string, Manifest>) {
    Consistent(byName) && VersionStringsIn(byName, VersionsByName(byName))
  }

  /** Every package of the table is pinned against `versions`. */
  predicate AllPinned(byName: map<string, Manifest>, versions: map<string, string>) {
    forall n :: n in byName ==> ManifestPinned(byName[n], versions)
  }

  /** `PackageManifest::write` of a rewritten package. */
  function PinWrite(root: Path, m: Manifest, versions: map<string, string>): (Path, Json)
    requires ManifestVersionStrings(m, versions)
  {
    (ConfigPath(root, m.directory, ManifestFilename), ManifestToJson(PinManifest(m, versions).0))
  }

  /** The writes for the packages named in `names` that have something to update. */
  function PinWrites(root: Path, byName: map<string, Manifest>, versions: map<string, string>, names: set<string>): set<(Path, Json)>
    requires VersionStringsIn(byName, versions)
  {
    set n | n in names && n in byName && PinManifest(byName[n], versions).1 != [] :: PinWrite(root, byName[n], versions)
  }

  /** What check-only mode prints for the packages named in `names`: each package with
      something to update, by its manifest's path, with its `dependencies_to_update`. */
  function PinReport(byName: map<string, Manifest>, versions: map<string, string>, names: set<string>): set<UnpinnedPackageDependencies>
    requires VersionStringsIn(byName, versions)
  {
    set n | n in names && n in byName && PinManifest(byName[n], versions).1 != [] ::
      UnpinnedPackage(ManifestPath(byName[n]), PinManifest(byName[n], versions).1)
  }

  /** Every internal package of the monorepo is pinned. */
  ghost predicate PinUpToDate(files: map<Path, Json>, root: Path, walk: GlobWalk)
    requires WalksBelowRoot(walk, root)
  {
    FromDirectory(files, root, walk).Ok?
    && AllPinned(TableOf(files, root, walk), VersionsByName(TableOf(files, root, walk)))
  }

  /** One more name of the iteration adds its package's write, if any. */
  lemma PinWritesStep(root: Path, byName: map<string, Manifest>, versions: map<string, string>, names: seq<string>, j: nat)
    requires VersionStringsIn(byName, versions) && j < |names| && names[j] in byName
    ensures var m := byName[names[j]];
            PinWrites(root, byName, versions, Elems(names[..j + 1])) ==
            PinWrites(root, byName, versions, Elems(names[..j])) + (if PinManifest(m, versions).1 != [] then {PinWrite(root, m, versions)} else {})
  {
    ElemsPrefixStep(names, j);
  }

  /** One more name of the iteration adds its package's report, if any. */
  lemma PinReportStep(byName: map<string, Manifest>, versions: map<string, string>, names: seq<string>, j: nat)
    requires VersionStringsIn(byName, versions) && j < |names| && names[j] in byName
    ensures var m := byName[names[j]];
            PinReport(byName, versions, Elems(names[..j + 1])) ==
            PinReport(byName, versions, Elems(names[..j]))
              + (if PinManifest(m, versions).1 != [] then {UnpinnedPackage(ManifestPath(m), PinManifest(m, versions).1)} else {})
  {
    ElemsPrefixStep(names, j);
  }

  /** The check-only report is empty exactly when every package is pinned. */
  lemma PinReportEmpty(byName: map<string, Manifest>, versions: map<string, string>)
    requires VersionStringsIn(byName, versions)
    ensures PinReport(byName, versions, byName.Keys) == {} <==> AllPinned(byName, versions)
  {
    forall n | n in byName
      ensures PinManifest(byName[n], versions).1 == [] <==> ManifestPinned(byName[n], versions)
    {
      PinManifestReports(byName[n], versions);
    }
    if !AllPinned(byName, versions) {
      var n :| n in byName && !ManifestPinned(byName[n], versions);
      assert UnpinnedPackage(ManifestPath(byName[n]), PinManifest(byName[n], versions).1) in PinReport(byName, versions, byName.Keys);
    }
  }

  /** What a run leaves behind, given the table it read and the versions it collected. */
  ghost predicate PinOutcome(before: map<Path, Json>, root: Path, byName: map<string, Manifest>, versions: map<string, string>,
                             checkOnly: bool, after: map<Path, Json>, r: Result<(), PinError>, report: seq<UnpinnedPackageDependencies>)
    requires VersionStringsIn(byName, versions)
  {
    if checkOnly then
      && after == before
      && (r.Ok? <==> AllPinned(byName, versions))
      && (r.Err? ==> r.error == UnexpectedVersions)
      && Elems(report) == PinReport(byName, versions, byName.Keys)
    else
      r == Ok(()) && report == [] && WrittenBy(before, PinWrites(root, byName, versions, byName.Keys), after)
  }

  /** The loop over the table in check-only mode: each package rewritten in memory and
      reported when something would change; nothing is written. */
  method CheckPackages(byName: map<string, Manifest>, versions: map<string, string>)
    returns (exitCode: int, report: seq<UnpinnedPackageDependencies>)
    requires VersionStringsIn(byName, versions)
    ensures Elems(report) == PinReport(byName, versions, byName.Keys)
    ensures exitCode != 0 <==> report != []
  {
    var names := SetToSeq(byName.Keys);
    exitCode := 0;
    report := [];
    for j := 0 to |names|
      invariant Elems(report) == PinReport(byName, versions, Elems(names[..j]))
      invariant exitCode != 0 <==> report != []
    {
      var manifest := byName[names[j]];
      var pinned, unpinned := PinPackage(manifest, versions);
      assert pinned.directory == manifest.directory;
      CheckReportStep(byName, versions, names, j, report, unpinned);
      if unpinned != [] {
        exitCode := 1;
        report := report + [UnpinnedPackage(ManifestPath(pinned), unpinned)];
      }
    }
    assert names[..|names|] == names;
  }

  /** One turn of the check-only loop extends the report by the `j`-th package's entry,
      when it has one. */
  lemma CheckReportStep(byName: map<string, Manifest>, versions: map<string, string>, names: seq<string>, j: nat,
                        report: seq<UnpinnedPackageDependencies>, unpinned: seq<UnpinnedDependency>)
    requires VersionStringsIn(byName, versions) && j < |names| && names[j] in byName
    requires Elems(report) == PinReport(byName, versions, Elems(names[..j]))
    requires unpinned == PinManifest(byName[names[j]], versions).1
    ensures unpinned == [] ==> Elems(report) == PinReport(byName, versions, Elems(names[..j + 1]))
    ensures unpinned != [] ==>
              Elems(report + [UnpinnedPackage(ManifestPath(byName[names[j]]), unpinned)])
              == PinReport(byName, versions, Elems(names[..j + 1]))
  {
    PinReportStep(byName, versions, names, j);
    var entry := UnpinnedPackage(ManifestPath(byName[names[j]]), unpinned);
    ElemsAppend(report, [entry]);
    assert Elems([entry]) == {entry};
  }

  /** The loop over the table in write mode: each package rewritten and written back
      when something changed. */
  method WritePackages(fs: FileSystem, root: Path, byName: map<string, Manifest>, versions: map<string, string>)
    requires VersionStringsIn(byName, versions)
    modifies fs
    ensures WrittenBy(old(fs.files), PinWrites(root, byName, versions, byName.Keys), fs.files)
  {
    var names := SetToSeq(byName.Keys);
    ghost var before := fs.files;
    ghost var written: set<(Path, Json)> := {};
    WrittenByNothing(before);
    for j := 0 to |names|
      invariant written == PinWrites(root, byName, versions, Elems(names[..j]))
      invariant WrittenBy(before, written, fs.files)
    {
      WritePackage(fs, root, byName, versions, names, j, before, written);
      written := PinWrites(root, byName, versions, Elems(names[..j + 1]));
    }
    assert names[..|names|] == names;
    assert written == PinWrites(root, byName, versions, byName.Keys);
  }

  /** One iteration of the write loop: the `j`-th package is pinned and written back
      when something changed, extending the batch of writes by its own. */
  method WritePackage(fs: FileSystem, root: Path, byName: map<string, Manifest>, versions: map<string, string>,
                      names: seq<string>, j: nat, ghost before: map<Path, Json>, ghost written: set<(Path, Json)>)
    requires VersionStringsIn(byName, versions) && j < |names| && names[j] in byName
    requires written == PinWrites(root, byName, versions, Elems(names[..j])) && WrittenBy(before, written, fs.files)
    modifies fs
    ensures WrittenBy(before, PinWrites(root, byName, versions, Elems(names[..j + 1])), fs.files)
  {
    var manifest := byName[names[j]];
    var pinned, unpinned := PinPackage(manifest, versions);
    ghost var previous := fs.files;
    if unpinned != [] {
      WriteManifest(fs, root, pinned);
      WriteStep(root, byName, versions, names, j, before, written, previous, pinned);
    } else {
      SkipStep(root, byName, versions, names, j, before, written, previous);
    }
  }

  /** An iteration of the write loop that writes keeps the batch of writes so far. */
  lemma WriteStep(root: Path, byName: map<string, Manifest>, versions: map<string, string>, names: seq<string>, j: nat,
                  before: map<Path, Json>, written: set<(Path, Json)>, previous: map<Path, Json>, pinned: Manifest)
    requires VersionStringsIn(byName, versions) && j < |names| && names[j] in byName
    requires written == PinWrites(root, byName, versions, Elems(names[..j])) && WrittenBy(before, written, previous)
    requires pinned == PinManifest(byName[names[j]], versions).0 && PinManifest(byName[names[j]], versions).1 != []
    ensures WrittenBy(before, PinWrites(root, byName, versions, Elems(names[..j + 1])),
                      previous[ConfigPath(root, pinned.directory, ManifestFilename) := ManifestToJson(pinned)])
  {
    PinWritesStep(root, byName, versions, names, j);
    var w := PinWrite(root, byName[names[j]], versions);
    assert w == (ConfigPath(root, pinned.directory, ManifestFilename), ManifestToJson(pinned));
    WrittenByStep(before, written, previous, w);
  }

  /** An iteration of the write loop that writes nothing keeps the batch too. */
  lemma SkipStep(root: Path, byName: map<string, Manifest>, versions: map<string, string>, names: seq<string>, j: nat,
                 before: map<Path, Json>, written: set<(Path, Json)>, previous: map<Path, Json>)
    requires VersionStringsIn(byName, versions) && j < |names| && names[j] in byName
    requires written == PinWrites(root, byName, versions, Elems(names[..j])) && WrittenBy(before, written, previous)
    requires PinManifest(byName[names[j]], versions).1 == []
    ensures WrittenBy(before, PinWrites(root, byName, versions, Elems(names[..j + 1])), previous)
  {
    PinWritesStep(root, byName, versions, names, j);
    assert written + {} == written;
    assert PinWrites(root, byName, versions, Elems(names[..j + 1])) == written;
  }

  /** The loop over the table: check-only mode reports, write mode writes. */
  method PinPackages(fs: FileSystem, root: Path, byName: map<string, Manifest>, versions: map<string, string>, checkOnly: bool)
    returns (exitCode: int, report: seq<UnpinnedPackageDependencies>)
    requires VersionStringsIn(byName, versions)
    modifies fs
    ensures checkOnly ==> fs.files == old(fs.files)
    ensures checkOnly ==> Elems(report) == PinReport(byName, versions, byName.Keys) && (exitCode != 0 <==> report != [])
    ensures !checkOnly ==> report == [] && exitCode == 0
    ensures !checkOnly ==> WrittenBy(old(fs.files), PinWrites(root, byName, versions, byName.Keys), fs.files)
  {
    if checkOnly {
      exitCode, report := CheckPackages(byName, versions);
    } else {
      WritePackages(fs, root, byName, versions);
      exitCode, report := 0, [];
    }
  }

  /** `pin_version_numbers_in_internal_packages`: read the monorepo, collect the declared
      versions, run the loop, and in check-only mode fail once anything was reported. */
  method PinVersionNumbers(fs: FileSystem, root: Path, walk: GlobWalk, checkOnly: bool)
    returns (r: Result<(), PinError>, report: seq<UnpinnedPackageDependencies>)
    requires WalksBelowRoot(walk, root)
    requires FromDirectory(fs.files, root, walk).Ok? ==> Pinnable(TableOf(fs.files, root, walk))
    modifies fs
    ensures FromDirectory(old(fs.files), root, walk).Err? ==>
            r == Err(PinFromFile(FromDirectory(old(fs.files), root, walk).error)) && report == [] && fs.files == old(fs.files)
    ensures FromDirectory(old(fs.files), root, walk).Ok? ==>
            var byName := TableOf(old(fs.files), root, walk);
            PinOutcome(old(fs.files), root, byName, VersionsByName(byName), checkOnly, fs.files, r, report)
    ensures checkOnly ==> (r.Ok? <==> PinUpToDate(old(fs.files), root, walk))
    ensures !checkOnly && r.Ok? ==> PinUpToDate(fs.files, root, walk)
  {
    var monorepo := FromDirectory(fs.files, root, walk);
    if monorepo.Err? {
      return Err(PinFromFile(monorepo.error)), [];
    }
    var byName := PackageManifestsByPackageName(monorepo.value.internalPackageManifests);
    var versions := VersionsByName(byName);
    ghost var before := fs.files;
    var exitCode;
    exitCode, report := PinPackages(fs, root, byName, versions, checkOnly);
    PinReportEmpty(byName, versions);
    if !checkOnly {
      PinThenCheck(before, fs.files, root, walk);
    }
    if checkOnly && exitCode != 0 {
      assert report[0] in Elems(report);
      return Err(UnexpectedVersions), report;
    }
    r := Ok(());
  }

  // ---------------------------------------------------------------------------
  // Pinning, then checking.

  /** `after` is what a write-mode run leaves when it starts from `files`. */
  ghost predicate PinnedBy(files: map<Path, Json>, root: Path, walk: GlobWalk, after: map<Path, Json>) {
    && WalksBelowRoot(walk, root)
    && FromDirectory(files, root, walk).Ok?
    && Pinnable(TableOf(files, root, walk))
    && WrittenBy(files, PinWrites(root, TableOf(files, root, walk), VersionsByName(TableOf(files, root, walk)),
                                  TableOf(files, root, walk).Keys), after)
  }

  /** The writes of a write-mode run that started from `files`. */
  function RunWrites(files: map<Path, Json>, root: Path, walk: GlobWalk): set<(Path, Json)>
    requires WalksBelowRoot(walk, root) && FromDirectory(files, root, walk).Ok? && Pinnable(TableOf(files, root, walk))
  {
    var byName := TableOf(files, root, walk);
    PinWrites(root, byName, VersionsByName(byName), byName.Keys)
  }

  /** Every manifest of the table is what reading its own directory gives. */
  lemma TableReadBack(files: map<Path, Json>, root: Path, walk: GlobWalk, n: string)
    requires WalksBelowRoot(walk, root) && FromDirectory(files, root, walk).Ok? && n in TableOf(files, root, walk)
    ensures ReadManifest(files, root, TableOf(files, root, walk)[n].directory) == Ok(TableOf(files, root, walk)[n])
  {
    var ms := FromDirectory(files, root, walk).value.internalPackageManifests;
    var i :| 0 <= i < |ms| && LastWithName(ms, n, i) && TableOf(files, root, walk)[n] == ms[i];
    ManifestsReadBack(files, root, walk, i);
  }

  /** Every write of the run is the write of one package of the table. */
  lemma PinWriteOwner(root: Path, byName: map<string, Manifest>, versions: map<string, string>, w: (Path, Json))
    requires VersionStringsIn(byName, versions) && w in PinWrites(root, byName, versions, byName.Keys)
    ensures exists n :: n in byName && w == PinWrite(root, byName[n], versions)
  {
  }

  /** A package.json the run wrote belongs to a package of the table, which reading it
      before the run gives, and holds that package rewritten. */
  lemma WrittenPackage(files: map<Path, Json>, root: Path, walk: GlobWalk, after: map<Path, Json>, d: Path)
    requires PinnedBy(files, root, walk, after)
    requires ConfigPath(root, d, ManifestFilename) in WritePaths(RunWrites(files, root, walk))
    ensures var byName := TableOf(files, root, walk);
            exists n :: n in byName && byName[n].directory == d && ReadManifest(files, root, d) == Ok(byName[n])
                        && ConfigPath(root, d, ManifestFilename) in after
                        && after[ConfigPath(root, d, ManifestFilename)] == ManifestToJson(PinManifest(byName[n], VersionsByName(byName)).0)
  {
    var byName := TableOf(files, root, walk);
    var writes := RunWrites(files, root, walk);
    var p := ConfigPath(root, d, ManifestFilename);
    var w :| w in writes && w.0 == p && after[p] == w.1;
    PinWriteOwner(root, byName, VersionsByName(byName), w);
    var n :| n in byName && w == PinWrite(root, byName[n], VersionsByName(byName));
    ConfigPathInjective(root, byName[n].directory, d, ManifestFilename);
    TableReadBack(files, root, walk, n);
  }

  /** A package of the table with something to update had its package.json written. */
  lemma UnpinnedWritten(root: Path, byName: map<string, Manifest>, versions: map<string, string>, m: Manifest)
    requires VersionStringsIn(byName, versions)
    requires m.name in byName && byName[m.name] == m
    ensures !ManifestPinned(m, versions) ==>
            ConfigPath(root, m.directory, ManifestFilename) in WritePaths(PinWrites(root, byName, versions, byName.Keys))
  {
    PinManifestReports(m, versions);
    if PinManifest(m, versions).1 != [] {
      assert PinWrite(root, m, versions) in PinWrites(root, byName, versions, byName.Keys);
    }
  }

  /** Reading a package directory after the run: it succeeds exactly when it did before,
      finds the same name and version, and finds a pinned manifest wherever the table's
      own manifest for that name lives. */
  lemma ReadAfterPin(files: map<Path, Json>, root: Path, walk: GlobWalk, after: map<Path, Json>, d: Path)
    requires PinnedBy(files, root, walk, after)
    ensures ReadManifest(after, root, d).Ok? <==> ReadManifest(files, root, d).Ok?
    ensures ReadManifest(files, root, d).Ok? ==>
            var m := ReadManifest(files, root, d).value;
            var m' := ReadManifest(after, root, d).value;
            var byName := TableOf(files, root, walk);
            && m'.name == m.name && m'.version == m.version
            && (m.name in byName && byName[m.name] == m ==> ManifestPinned(m', VersionsByName(byName)))
  {
    var byName := TableOf(files, root, walk);
    var v := VersionsByName(byName);
    var writes := RunWrites(files, root, walk);
    var p := ConfigPath(root, d, ManifestFilename);
    if p in WritePaths(writes) {
      WrittenPackage(files, root, walk, after, d);
      var n :| n in byName && byName[n].directory == d && ReadManifest(files, root, d) == Ok(byName[n])
               && p in after && after[p] == ManifestToJson(PinManifest(byName[n], v).0);
      var pinned := PinManifest(byName[n], v).0;
      ManifestRoundTrip(pinned);
      assert ReadManifest(after, root, d) == Ok(pinned);
      PinManifestPinned(byName[n], v);
    } else {
      WrittenByUntouched(files, writes, after, p);
      assert ReadManifest(after, root, d) == ReadManifest(files, root, d);
      if ReadManifest(files, root, d).Ok? {
        var m := ReadManifest(files, root, d).value;
        if m.name in byName && byName[m.name] == m {
          UnpinnedWritten(root, byName, v, m);
        }
      }
    }
  }

  /** The run writes package.json files only. */
  lemma PinWritesPackageFiles(root: Path, byName: map<string, Manifest>, versions: map<string, string>, names: set<string>)
    requires VersionStringsIn(byName, versions)
    ensures forall w :: w in PinWrites(root, byName, versions, names) ==> |w.0| > 0 && w.0[|w.0| - 1] == Utf8(ManifestFilename)
  {
  }

  /** lerna.json's `packages` does not change: the run writes package.json files only. */
  lemma LernaGlobsAfterPin(files: map<Path, Json>, root: Path, walk: GlobWalk, after: map<Path, Json>)
    requires PinnedBy(files, root, walk, after)
    ensures ReadGlobs(after, root, LernaManifestFilename, "packages") == ReadGlobs(files, root, LernaManifestFilename, "packages")
  {
    var writes := RunWrites(files, root, walk);
    var byName := TableOf(files, root, walk);
    PinWritesPackageFiles(root, byName, VersionsByName(byName), byName.Keys);
    WrittenBySameOutside(files, writes, after, ManifestFilename);
    ReadDocumentOutside(files, after, ManifestFilename, root, [], LernaManifestFilename);
  }

  /** The rewrite touches the dependency groups only: every other key of the document
      reads as before. */
  lemma MemberAfterRewrite(doc: Json, d: Path, m: Manifest, versions: map<string, string>, key: string)
    requires ParseManifest(d, doc) == Some(m) && ManifestVersionStrings(m, versions)
    requires !IsGroupKey(key) && key != "name" && key != "version"
    ensures Member(ManifestToJson(PinManifest(m, versions).0), key) == Member(doc, key)
  {
    var pinned := PinManifest(m, versions).0;
    var fields := ManifestToJson(pinned).fields;
    assert fields[0].0 != key && fields[1..][0].0 != key;
    assert fields[1..][1..] == pinned.extraFields;
    assert Get(fields, key) == Get(fields[1..], key) == Get(pinned.extraFields, key);
    assert Get(pinned.extraFields, key) == Get(m.extraFields, key);
    assert Get(m.extraFields, key) == Get(doc.fields, key);
  }

  /** Rewriting the root package.json keeps its `workspaces`. */
  lemma WorkspacesOfRewritten(files: map<Path, Json>, after: map<Path, Json>, root: Path, m: Manifest, versions: map<string, string>)
    requires ManifestVersionStrings(m, versions)
    requires ReadManifest(files, root, []) == Ok(m)
    requires ConfigPath(root, [], ManifestFilename) in after
    requires after[ConfigPath(root, [], ManifestFilename)] == ManifestToJson(PinManifest(m, versions).0)
    ensures ReadGlobs(after, root, ManifestFilename, "workspaces") == ReadGlobs(files, root, ManifestFilename, "workspaces")
  {
    var p := ConfigPath(root, [], ManifestFilename);
    MemberAfterRewrite(files[p], [], m, versions, "workspaces");
  }

  /** The root package.json's `workspaces` does not change: the run rewrites dependency
      groups only. */
  lemma WorkspacesAfterPin(files: map<Path, Json>, root: Path, walk: GlobWalk, after: map<Path, Json>)
    requires PinnedBy(files, root, walk, after)
    ensures ReadGlobs(after, root, ManifestFilename, "workspaces") == ReadGlobs(files, root, ManifestFilename, "workspaces")
  {
    var byName := TableOf(files, root, walk);
    var v := VersionsByName(byName);
    var writes := RunWrites(files, root, walk);
    var p := ConfigPath(root, [], ManifestFilename);
    if p in WritePaths(writes) {
      WrittenPackage(files, root, walk, after, []);
      var n :| n in byName && byName[n].directory == [] && ReadManifest(files, root, []) == Ok(byName[n])
               && p in after && after[p] == ManifestToJson(PinManifest(byName[n], v).0);
      WorkspacesOfRewritten(files, after, root, byName[n], v);
    } else {
      WrittenByUntouched(files, writes, after, p);
    }
  }

  /** The reads of a list of found files, before and after the run, pair up. */
  ghost predicate RereadPinned(byName: map<string, Manifest>, versions: map<string, string>, ms: seq<Manifest>, ms': seq<Manifest>) {
    |ms'| == |ms|
    && forall i :: 0 <= i < |ms| ==>
         && ms'[i].name == ms[i].name && ms'[i].version == ms[i].version
         && (ms[i].name in byName && byName[ms[i].name] == ms[i] ==> ManifestPinned(ms'[i], versions))
  }

  lemma LoadAfterPin(files: map<Path, Json>, root: Path, walk: GlobWalk, after: map<Path, Json>, paths: seq<Path>)
    requires PinnedBy(files, root, walk, after) && BelowRoot(root, paths)
    ensures LoadManifests(after, root, paths).Ok? <==> LoadManifests(files, root, paths).Ok?
    ensures LoadManifests(files, root, paths).Ok? ==>
            var byName := TableOf(files, root, walk);
            RereadPinned(byName, VersionsByName(byName), LoadManifests(files, root, paths).value, LoadManifests(after, root, paths).value)
  {
    forall i | 0 <= i < |paths|
      ensures ReadEntry(after, root, paths[i]).Ok? <==> ReadEntry(files, root, paths[i]).Ok?
      ensures ReadEntry(files, root, paths[i]).Ok? ==>
              var m := ReadEntry(files, root, paths[i]).value;
              var m' := ReadEntry(after, root, paths[i]).value;
              var byName := TableOf(files, root, walk);
              && m'.name == m.name && m'.version == m.version
              && (m.name in byName && byName[m.name] == m ==> ManifestPinned(m', VersionsByName(byName)))
    {
      ReadAfterPin(files, root, walk, after, EntryDirectory(root, paths[i]));
    }
  }

  /** The monorepo still reads after the run, finding the same packages, each pinned
      where the table takes it from. */
  lemma FromDirectoryAfterPin(files: map<Path, Json>, root: Path, walk: GlobWalk, after: map<Path, Json>)
    requires PinnedBy(files, root, walk, after)
    ensures FromDirectory(after, root, walk).Ok?
    ensures var byName := TableOf(files, root, walk);
            RereadPinned(byName, VersionsByName(byName), FromDirectory(files, root, walk).value.internalPackageManifests,
                         FromDirectory(after, root, walk).value.internalPackageManifests)
  {
    LernaGlobsAfterPin(files, root, walk, after);
    WorkspacesAfterPin(files, root, walk, after);
    var lerna := ReadGlobs(files, root, LernaManifestFilename, "packages");
    if lerna.Ok? {
      LoadAfterPin(files, root, walk, after, FoundPaths(walk(root, ManifestPatterns(lerna.value))));
    }
    var workspaces := ReadGlobs(files, root, ManifestFilename, "workspaces");
    if workspaces.Ok? {
      LoadAfterPin(files, root, walk, after, FoundPaths(walk(root, ManifestPatterns(workspaces.value))));
    }
  }

  /** Two lists with the same names position by position key their tables on the same
      names, each name taken from the same position in both. */
  lemma SameNamesTable(ms: seq<Manifest>, ms': seq<Manifest>, n: string)
    requires |ms'| == |ms| && forall i :: 0 <= i < |ms| ==> ms'[i].name == ms[i].name
    ensures n in PackageManifestsByPackageName(ms') <==> n in PackageManifestsByPackageName(ms)
    ensures n in PackageManifestsByPackageName(ms) ==>
            exists i :: 0 <= i < |ms| && PackageManifestsByPackageName(ms)[n] == ms[i]
                        && PackageManifestsByPackageName(ms')[n] == ms'[i]
  {
    var byName := PackageManifestsByPackageName(ms);
    var byName' := PackageManifestsByPackageName(ms');
    if n in byName' {
      var i :| 0 <= i < |ms'| && LastWithName(ms', n, i) && byName'[n] == ms'[i];
      assert LastWithName(ms, n, i);
      var j :| 0 <= j < |ms| && LastWithName(ms, n, j) && byName[n] == ms[j];
      assert i == j;
    }
    if n in byName {
      var j :| 0 <= j < |ms| && LastWithName(ms, n, j) && byName[n] == ms[j];
      assert ms'[j].name == n;
    }
  }

  /** One name of the re-keyed table: present exactly when it was, with the same
      version, and pinned. */
  lemma TableEntryAfterPin(byName: map<string, Manifest>, versions: map<string, string>, ms: seq<Manifest>, ms': seq<Manifest>, n: string)
    requires byName == PackageManifestsByPackageName(ms) && RereadPinned(byName, versions, ms, ms')
    ensures n in PackageManifestsByPackageName(ms') <==> n in byName
    ensures n in byName ==> PackageManifestsByPackageName(ms')[n].version == byName[n].version
                            && ManifestPinned(PackageManifestsByPackageName(ms')[n], versions)
  {
    SameNamesTable(ms, ms', n);
    if n in byName {
      var i :| 0 <= i < |ms| && byName[n] == ms[i] && PackageManifestsByPackageName(ms')[n] == ms'[i];
    }
  }

  /** Tables on the same names with the same versions give the same version map. */
  lemma VersionsAgree(byName: map<string, Manifest>, byName': map<string, Manifest>)
    requires Consistent(byName) && Consistent(byName') && forall n :: n in byName' <==> n in byName
    requires forall n :: n in byName ==> byName'[n].version == byName[n].version
    ensures VersionsByName(byName') == VersionsByName(byName)
  {
    assert byName'.Keys == byName.Keys;
  }

  /** Re-keying the reread packages by name gives the same versions and only pinned
      manifests. */
  lemma TableAfterPin(byName: map<string, Manifest>, versions: map<string, string>, ms: seq<Manifest>, ms': seq<Manifest>)
    requires byName == PackageManifestsByPackageName(ms) && versions == VersionsByName(byName)
    requires RereadPinned(byName, versions, ms, ms')
    ensures VersionsByName(PackageManifestsByPackageName(ms')) == versions
    ensures AllPinned(PackageManifestsByPackageName(ms'), versions)
  {
    var byName' := PackageManifestsByPackageName(ms');
    TableEntriesAfterPin(byName, versions, ms, ms');
    VersionsAgree(byName, byName');
  }

  lemma TableEntriesAfterPin(byName: map<string, Manifest>, versions: map<string, string>, ms: seq<Manifest>, ms': seq<Manifest>)
    requires byName == PackageManifestsByPackageName(ms) && RereadPinned(byName, versions, ms, ms')
    ensures var byName' := PackageManifestsByPackageName(ms');
            && (forall n :: n in byName' <==> n in byName)
            && (forall n :: n in byName ==> byName'[n].version == byName[n].version)
            && AllPinned(byName', versions)
  {
    forall n
      ensures n in PackageManifestsByPackageName(ms') <==> n in byName
      ensures n in byName ==> PackageManifestsByPackageName(ms')[n].version == byName[n].version
                              && ManifestPinned(PackageManifestsByPackageName(ms')[n], versions)
    {
      TableEntryAfterPin(byName, versions, ms, ms', n);
    }
  }

  /** Running `pin` and then `pin --check-only` on the result succeeds: after the run
      every internal package is pinned. */
  lemma PinThenCheck(files: map<Path, Json>, after: map<Path, Json>, root: Path, walk: GlobWalk)
    requires PinnedBy(files, root, walk, after)
    ensures PinUpToDate(after, root, walk)
  {
    FromDirectoryAfterPin(files, root, walk, after);
    var byName := TableOf(files, root, walk);
    var v := VersionsByName(byName);
    var ms := FromDirectory(files, root, walk).value.internalPackageManifests;
    var ms' := FromDirectory(after, root, walk).value.internalPackageManifests;
    assert RereadPinned(byName, v, ms, ms');
    assert byName == PackageManifestsByPackageName(ms);
    TableAfterPin(byName, v, ms, ms');
  }
}
