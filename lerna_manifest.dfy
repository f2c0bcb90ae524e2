// lerna.json as the lint of the lerna manifest reads it: the package globs it
// declares, the manifests they find, and the drain that hands those manifests over
// keyed by name.
module LernaManifests {
  import opened Wrappers
  import opened Json
  import opened Paths
  import opened FileSystems
  import opened PackageManifests
  import opened MonorepoManifests

  /** Deserialising `LernaManifestFile { version, packages }`: a string `version` and a
      string list `packages` are both required; other keys are ignored. */
  function DecodeLernaFile(doc: Json): (r: Option<seq<string>>)
    ensures r.Some? <==> Member(doc, "version").Some? && Member(doc, "version").value.JString?
                         && StringListMember(doc, "packages").Some?
    ensures r.Some? ==> r == StringListMember(doc, "packages")
  {
    match Member(doc, "version")
    case Some(JString(_)) => StringListMember(doc, "packages")
    case _ => None
  }

  /** The manifests `LernaManifest::from_directory` collects. */
  function ReadLernaManifest(files: map<Path, Json>, root: Path, walk: GlobWalk): (r: Result<seq<Manifest>, FromFileError>)
    requires WalksBelowRoot(walk, root)
    ensures ConfigPath(root, [], LernaManifestFilename) !in files ==> r == Err(FileNotFound(ConfigPath(root, [], LernaManifestFilename)))
    ensures r.Ok? ==> ConfigPath(root, [], LernaManifestFilename) in files
                      && DecodeLernaFile(files[ConfigPath(root, [], LernaManifestFilename)]).Some?
    ensures ConfigPath(root, [], LernaManifestFilename) in files ==>
              var decoded := DecodeLernaFile(files[ConfigPath(root, [], LernaManifestFilename)]);
              (decoded.None? ==> r == Err(InvalidContents(ConfigPath(root, [], LernaManifestFilename))))
              && (decoded.Some? ==> r == GetInternalPackageManifests(files, root, decoded.value, walk))
  {
    var path := ConfigPath(root, [], LernaManifestFilename);
    var doc :- ReadDocument(files, path);
    match DecodeLernaFile(doc)
    case None => Err(InvalidContents(path))
    case Some(globs) => GetInternalPackageManifests(files, root, globs, walk)
  }

  /** `LernaManifest`: the package manifests lerna.json's globs find. */
  class LernaManifest {
    var internalPackageManifests: seq<Manifest>

    constructor(manifests: seq<Manifest>)
      ensures internalPackageManifests == manifests
    {
      internalPackageManifests := manifests;
    }

    /** `LernaManifest::from_directory`. */
    static method FromDirectory(files: map<Path, Json>, root: Path, walk: GlobWalk) returns (r: Result<LernaManifest, FromFileError>)
      requires WalksBelowRoot(walk, root)
      ensures r.Ok? <==> ReadLernaManifest(files, root, walk).Ok?
      ensures r.Ok? ==> fresh(r.value) && r.value.internalPackageManifests == ReadLernaManifest(files, root, walk).value
      ensures r.Err? ==> r.error == ReadLernaManifest(files, root, walk).error
    {
      match ReadLernaManifest(files, root, walk)
      case Err(e) =>
        r := Err(e);
      case Ok(manifests) =>
        var lerna := new LernaManifest(manifests);
        r := Ok(lerna);
    }

    /** `package_manifests_by_package_name`: every key names the manifest stored under it. */
    function PackageManifestsByName(): (r: map<string, Manifest>)
      reads this
      ensures r.Keys == set i | 0 <= i < |internalPackageManifests| :: internalPackageManifests[i].name
      ensures Consistent(r)
      ensures forall n :: n in r ==> r[n] in internalPackageManifests
    {
      var r := PackageManifestsByPackageName(internalPackageManifests);
      assert forall n :: n in r ==> r[n] in internalPackageManifests by {
        forall n | n in r
          ensures r[n] in internalPackageManifests
        {
          var i :| 0 <= i < |internalPackageManifests| && LastWithName(internalPackageManifests, n, i)
                   && r[n] == internalPackageManifests[i];
        }
      }
      r
    }

    /** `into_package_manifests_by_package_name`: `drain(0..)` empties the list in place,
        and every manifest it yields goes into the table, later ones winning. */
    method IntoPackageManifestsByPackageName() returns (r: map<string, Manifest>)
      modifies this
      ensures internalPackageManifests == []
      ensures r == PackageManifestsByPackageName(old(internalPackageManifests))
    {
      ghost var drained: seq<Manifest> := [];
      r := map[];
      while internalPackageManifests != []
        invariant drained + internalPackageManifests == old(internalPackageManifests)
        invariant r == PackageManifestsByPackageName(drained)
        decreases |internalPackageManifests|
      {
        var manifest := internalPackageManifests[0];
        internalPackageManifests := internalPackageManifests[1..];
        assert (drained + [manifest])[..|drained|] == drained;
        drained := drained + [manifest];
        r := r[manifest.name := manifest];
      }
      assert drained == old(internalPackageManifests);
    }
  }
}
