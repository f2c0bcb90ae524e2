// The two kinds of tsconfig.json the project references live in: a package's own
// tsconfig (kept as an arbitrary JSON object) and the parent tsconfig written in a
// directory that contains packages (a `files` list and a `references` list).
module TypescriptConfigs {
  import opened Wrappers
  import opened Json
  import opened Paths
  import opened FileSystems

  const TsconfigFilename: string := "tsconfig.json"

  /** `TypescriptProjectReference { path }`. */
  datatype Reference = Reference(path: string)

  function EncodeReference(r: Reference): Json {
    JObject([("path", JString(r.path))])
  }

  /** Deserialising a reference needs a string `path`; other keys are ignored. */
  function DecodeReference(doc: Json): (r: Option<Reference>)
    ensures r.Some? <==> (exists p :: Member(doc, "path") == Some(JString(p)))
    ensures r.Some? ==> Member(doc, "path") == Some(JString(r.value.path))
  {
    match Member(doc, "path")
    case Some(JString(p)) => Some(Reference(p))
    case _ => None
  }

  function EncodeReferences(refs: seq<Reference>): (r: Json)
    ensures r.JArray? && |r.items| == |refs|
  {
    JArray(seq(|refs|, i requires 0 <= i < |refs| => EncodeReference(refs[i])))
  }

  /** `serde_json::from_value::<Vec<TypescriptProjectReference>>`. */
  function DecodeReferences(doc: Json): (r: Option<seq<Reference>>)
    ensures r.Some? ==> doc.JArray? && |r.value| == |doc.items|
    ensures r.Some? ==> forall i :: 0 <= i < |doc.items| ==> DecodeReference(doc.items[i]) == Some(r.value[i])
  {
    if doc.JArray? then DecodeItems(doc.items) else None
  }

  function DecodeItems(items: seq<Json>): (r: Option<seq<Reference>>)
    ensures r.Some? ==> |r.value| == |items|
    ensures r.Some? ==> forall i :: 0 <= i < |items| ==> DecodeReference(items[i]) == Some(r.value[i])
    ensures r.None? ==> exists i :: 0 <= i < |items| && DecodeReference(items[i]).None?
  {
    if items == [] then Some([])
    else match (DecodeReference(items[0]), DecodeItems(items[1..]))
      case (Some(x), Some(rest)) => Some([x] + rest)
      case (None, _) => None
      case (_, None) =>
        var i :| 0 <= i < |items[1..]| && DecodeReference(items[1..][i]).None?;
        assert DecodeReference(items[i + 1]).None?;
        None
  }

  /** What is written can be read back. */
  lemma {:induction false} ReferencesRoundTrip(refs: seq<Reference>)
    ensures DecodeReferences(EncodeReferences(refs)) == Some(refs)
  {
    var items := EncodeReferences(refs).items;
    ItemsRoundTrip(refs, items);
  }

  lemma {:induction false} ItemsRoundTrip(refs: seq<Reference>, items: seq<Json>)
    requires |items| == |refs| && forall i :: 0 <= i < |refs| ==> items[i] == EncodeReference(refs[i])
    ensures DecodeItems(items) == Some(refs)
  {
    if refs != [] {
      ItemsRoundTrip(refs[1..], items[1..]);
      assert [refs[0]] + refs[1..] == refs;
    }
  }

  /** A package's tsconfig.json; its contents must be a JSON object. */
  datatype TypescriptConfig = TypescriptConfig(directory: Path, contents: seq<Field>)

  /** `TypescriptConfig::from_directory`. */
  function ReadTypescriptConfig(files: map<Path, Json>, root: Path, directory: Path): (r: Result<TypescriptConfig, FromFileError>)
    ensures r.Ok? <==> ConfigPath(root, directory, TsconfigFilename) in files
                       && files[ConfigPath(root, directory, TsconfigFilename)].JObject?
    ensures r.Ok? ==> r.value.directory == directory
    ensures r.Ok? ==> JObject(r.value.contents) == files[ConfigPath(root, directory, TsconfigFilename)]
  {
    var path := ConfigPath(root, directory, TsconfigFilename);
    match ReadDocument(files, path)
    case Err(e) => Err(e)
    case Ok(doc) =>
      if doc.JObject? then Ok(TypescriptConfig(directory, doc.fields)) else Err(InvalidContents(path))
  }

  /** The `references` a package tsconfig currently holds: an absent key means none.
      The source panics on a value that does not deserialise; callers rule that out
      with `ReferencesReadable`. */
  predicate ReferencesReadable(config: TypescriptConfig) {
    Get(config.contents, "references").Some? ==> DecodeReferences(Get(config.contents, "references").value).Some?
  }

  function CurrentReferences(config: TypescriptConfig): (r: seq<Reference>)
    requires ReferencesReadable(config)
    ensures Get(config.contents, "references").None? ==> r == []
    ensures Get(config.contents, "references").Some? ==> DecodeReferences(Get(config.contents, "references").value) == Some(r)
  {
    match Get(config.contents, "references")
    case None => []
    case Some(v) => DecodeReferences(v).value
  }

  /** `tsconfig.contents.insert("references", …)`. */
  function WithReferences(config: TypescriptConfig, refs: seq<Reference>): (r: TypescriptConfig)
    ensures r.directory == config.directory
    ensures Get(r.contents, "references") == Some(EncodeReferences(refs))
    ensures forall k :: k != "references" ==> Get(r.contents, k) == Get(config.contents, k)
  {
    TypescriptConfig(config.directory, Insert(config.contents, "references", EncodeReferences(refs)))
  }

  /** Replacing the references and reading them back yields the new list. */
  lemma WithReferencesCurrent(config: TypescriptConfig, refs: seq<Reference>)
    ensures ReferencesReadable(WithReferences(config, refs))
    ensures CurrentReferences(WithReferences(config, refs)) == refs
  {
    ReferencesRoundTrip(refs);
  }

  /** The contents of a parent tsconfig: `{ files, references }`. */
  datatype ParentContents = ParentContents(files: seq<string>, references: seq<Reference>)

  /** `TypescriptParentProjectReference`: a parent tsconfig and where it lives. */
  datatype ParentConfig = ParentConfig(directory: Path, contents: ParentContents)

  function EncodeParent(c: ParentContents): Json {
    JObject([("files", FromStrings(c.files)), ("references", EncodeReferences(c.references))])
  }

  /** Both keys are required; other keys are ignored. */
  function DecodeParent(doc: Json): (r: Option<ParentContents>)
    ensures r.Some? <==> Member(doc, "files").Some? && AsStrings(Member(doc, "files").value).Some?
                         && Member(doc, "references").Some? && DecodeReferences(Member(doc, "references").value).Some?
    ensures r.Some? ==> AsStrings(Member(doc, "files").value) == Some(r.value.files)
    ensures r.Some? ==> DecodeReferences(Member(doc, "references").value) == Some(r.value.references)
  {
    match (Member(doc, "files"), Member(doc, "references"))
    case (Some(f), Some(refs)) =>
      (match (AsStrings(f), DecodeReferences(refs))
       case (Some(fs), Some(rs)) => Some(ParentContents(fs, rs))
       case _ => None)
    case _ => None
  }

  lemma ParentRoundTrip(c: ParentContents)
    ensures DecodeParent(EncodeParent(c)) == Some(c)
  {
    ReferencesRoundTrip(c.references);
  }

  /** `TypescriptParentProjectReference::from_directory`. */
  function ReadParentConfig(files: map<Path, Json>, root: Path, directory: Path): (r: Result<ParentConfig, FromFileError>)
    ensures r.Ok? <==> ConfigPath(root, directory, TsconfigFilename) in files
                       && DecodeParent(files[ConfigPath(root, directory, TsconfigFilename)]).Some?
    ensures r.Ok? ==> r.value.directory == directory
    ensures r.Ok? ==> DecodeParent(files[ConfigPath(root, directory, TsconfigFilename)]) == Some(r.value.contents)
  {
    var path := ConfigPath(root, directory, TsconfigFilename);
    match ReadDocument(files, path)
    case Err(e) => Err(e)
    case Ok(doc) =>
      match DecodeParent(doc)
      case Some(c) => Ok(ParentConfig(directory, c))
      case None => Err(InvalidContents(path))
  }

  /** `TypescriptConfig::write`: the contents replace the package's tsconfig.json. */
  method WriteTypescriptConfig(fs: FileSystem, root: Path, config: TypescriptConfig)
    modifies fs
    ensures fs.files == old(fs.files)[ConfigPath(root, config.directory, TsconfigFilename) := JObject(config.contents)]
  {
    fs.Write(ConfigPath(root, config.directory, TsconfigFilename), JObject(config.contents));
  }

  /** A package tsconfig that was written is read back as written. */
  lemma TypescriptConfigWriteThenRead(files: map<Path, Json>, root: Path, config: TypescriptConfig)
    ensures ReadTypescriptConfig(files[ConfigPath(root, config.directory, TsconfigFilename) := JObject(config.contents)],
                                 root, config.directory) == Ok(config)
  {
  }

  /** `TypescriptParentProjectReference::write`: `{ files, references }` replaces the
      parent tsconfig.json. */
  method WriteParentConfig(fs: FileSystem, root: Path, config: ParentConfig)
    modifies fs
    ensures fs.files == old(fs.files)[ConfigPath(root, config.directory, TsconfigFilename) := EncodeParent(config.contents)]
  {
    fs.Write(ConfigPath(root, config.directory, TsconfigFilename), EncodeParent(config.contents));
  }

  /** A parent tsconfig that was written is read back as written. */
  lemma ParentWriteThenRead(files: map<Path, Json>, root: Path, config: ParentConfig)
    ensures ReadParentConfig(files[ConfigPath(root, config.directory, TsconfigFilename) := EncodeParent(config.contents)],
                             root, config.directory) == Ok(config)
  {
    ParentRoundTrip(config.contents);
  }

  /** A parent tsconfig read as a package tsconfig has a readable `references` list,
      the one it was written with. */
  lemma ParentAsPackageConfig(c: ParentContents, directory: Path)
    ensures EncodeParent(c).JObject?
    ensures ReferencesReadable(TypescriptConfig(directory, EncodeParent(c).fields))
    ensures CurrentReferences(TypescriptConfig(directory, EncodeParent(c).fields)) == c.references
  {
    ReferencesRoundTrip(c.references);
  }
}
