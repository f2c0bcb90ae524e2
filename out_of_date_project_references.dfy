// The drift report of the project-reference synchroniser: one record per tsconfig.json
// whose `references` differ from the desired list, and the collection of all of them.
module OutOfDateProjectReferences {
  import opened Wrappers
  import opened TypescriptConfigs

  /** `OutOfDateParentProjectReferences`: a parent tsconfig and the list it should hold. */
  datatype OutOfDateParentProjectReferences =
    OutOfDateParent(tsconfig: ParentConfig, desiredReferences: seq<Reference>)

  /** `OutOfDatePackageProjectReferences`: a package tsconfig and the list it should hold. */
  datatype OutOfDatePackageProjectReferences =
    OutOfDatePackage(tsconfig: TypescriptConfig, desiredReferences: seq<Reference>)

  /** `MonorepoTypescriptConfig`: which of the two kinds of tsconfig is out of date. */
  datatype MonorepoTypescriptConfig =
    | Parent(parent: ParentConfig)
    | Package(package: TypescriptConfig)

  /** `OutOfDateTypescriptConfig`. */
  datatype OutOfDateTypescriptConfig =
    OutOfDateTypescriptConfig(configFile: MonorepoTypescriptConfig, desiredReferences: seq<Reference>)

  /** `AllOutOfDateTypescriptConfig`. */
  datatype AllOutOfDateTypescriptConfig = AllOutOfDate(configs: seq<OutOfDateTypescriptConfig>)

  /** `From<OutOfDateParentProjectReferences>`: the `Parent` variant, nothing lost. */
  function FromParent(o: OutOfDateParentProjectReferences): (r: OutOfDateTypescriptConfig)
    ensures r.configFile.Parent? && AsParent(r) == Some(o)
  {
    OutOfDateTypescriptConfig(Parent(o.tsconfig), o.desiredReferences)
  }

  /** `From<OutOfDatePackageProjectReferences>`: the `Package` variant, nothing lost. */
  function FromPackage(o: OutOfDatePackageProjectReferences): (r: OutOfDateTypescriptConfig)
    ensures r.configFile.Package? && AsPackage(r) == Some(o)
  {
    OutOfDateTypescriptConfig(Package(o.tsconfig), o.desiredReferences)
  }

  /** The inverse of `FromParent`, defined on the `Parent` variant only. */
  function AsParent(c: OutOfDateTypescriptConfig): Option<OutOfDateParentProjectReferences> {
    match c.configFile
    case Parent(p) => Some(OutOfDateParent(p, c.desiredReferences))
    case Package(_) => None
  }

  /** The inverse of `FromPackage`, defined on the `Package` variant only. */
  function AsPackage(c: OutOfDateTypescriptConfig): Option<OutOfDatePackageProjectReferences> {
    match c.configFile
    case Package(p) => Some(OutOfDatePackage(p, c.desiredReferences))
    case Parent(_) => None
  }

  /** Every converted record can be taken apart again into what it came from. */
  lemma ConversionsInvert(c: OutOfDateTypescriptConfig)
    ensures c.configFile.Parent? ==> AsParent(c).Some? && FromParent(AsParent(c).value) == c
    ensures c.configFile.Package? ==> AsPackage(c).Some? && FromPackage(AsPackage(c).value) == c
  {
  }

  function ParentsInto(os: seq<OutOfDateParentProjectReferences>): (r: seq<OutOfDateTypescriptConfig>)
    ensures |r| == |os| && forall i :: 0 <= i < |os| ==> r[i] == FromParent(os[i])
  {
    seq(|os|, i requires 0 <= i < |os| => FromParent(os[i]))
  }

  function PackagesInto(os: seq<OutOfDatePackageProjectReferences>): (r: seq<OutOfDateTypescriptConfig>)
    ensures |r| == |os| && forall i :: 0 <= i < |os| ==> r[i] == FromPackage(os[i])
  {
    seq(|os|, i requires 0 <= i < |os| => FromPackage(os[i]))
  }

  /** `FromIterator`: every item is kept, in the order the iterator yields it. */
  function FromIterator(items: seq<OutOfDateTypescriptConfig>): (r: AllOutOfDateTypescriptConfig)
    ensures |r.configs| == |items| && forall i :: 0 <= i < |items| ==> r.configs[i] == items[i]
  {
    AllOutOfDate(items)
  }

  /** `is_empty`: no out-of-date config was collected. */
  function IsEmpty(all: AllOutOfDateTypescriptConfig): (r: bool)
    ensures r <==> |all.configs| == 0
  {
    all.configs == []
  }

  /** The lint's report: parents first, then packages, each list in its own order; it
      is empty exactly when both lists are. */
  lemma ChainedReport(parents: seq<OutOfDateParentProjectReferences>, packages: seq<OutOfDatePackageProjectReferences>)
    ensures IsEmpty(FromIterator(ParentsInto(parents) + PackagesInto(packages))) <==> parents == [] && packages == []
    ensures forall i :: 0 <= i < |parents| ==>
              AsParent(FromIterator(ParentsInto(parents) + PackagesInto(packages)).configs[i]) == Some(parents[i])
    ensures forall i :: 0 <= i < |packages| ==>
              AsPackage(FromIterator(ParentsInto(parents) + PackagesInto(packages)).configs[|parents| + i]) == Some(packages[i])
  {
  }
}
