# typescript-tools, modelled in Dafny

typescript-tools keeps a TypeScript monorepo consistent. It reads the monorepo's
index, which is lerna.json's `packages` globs or, failing that, the root
package.json's `workspaces`. It loads every package manifest those globs find.
From the manifests it derives the internal dependency graph, and on that graph
it builds its subcommands:

- `link` keeps the `references` of every parent and package tsconfig.json in
  step with the directory tree and with each package's direct internal
  dependencies. In check mode it reports the out-of-date files; in modify mode
  it rewrites them.
- `pin` sets every internal dependency to the version that package declares.
  In check mode it reports the mismatches; in write mode it rewrites the
  manifests that have any.
- `lint dependency-version` reports the packages that declare an external
  dependency at other than its most common version.
- `lint lerna-manifest` compares the packages lerna.json lists with the scoped
  packages found on disk.
- `query internal-dependencies` maps each package to its transitive internal
  dependencies.
- `make-depend` computes the values of a package's makefile template.

The model has one module per source file. Files are a store from paths to JSON
documents, held by the `FileSystems.FileSystem` class. A path is a sequence of
components, and a component can be non-UTF-8. The glob walk, the dependency
version reader and other foreign calls are parameters. The queue-based
traversals, the pin loops, the lint folds and the display loops are methods
with loop invariants. Each is proved against a specification function: for the
traversals, `Graphs.Reachable`, the least set closed under the dependency
edges. The end-to-end properties are lemmas over the file store: in a monorepo without
nested packages, after `link` modify, `link` lint passes, and after `pin`, `pin` check-only passes.

Where the code and its description differ, the model follows the code:

- The transitive traversals mark a package as seen when it is dequeued, not
  when it is queued, so a package can sit in the queue twice.
- A package is reported among its own dependencies exactly when a cycle leads
  back to it.
- `lint dependency-version` returns success at the first dependency with at
  most one version (see "## Findings").
- `make-depend` fills the template's package.json filenames by joining
  "package.json" onto paths that already end in it, as the code does (see
  "## Findings").

## Model

| member | source | states |
|---|---|---|
| Paths.ToStr | src/make_depend.rs:68-71 | `to_str` succeeds exactly when every component is UTF-8, and gives the components joined by '/' |
| Paths.StripPrefix | src/dependencies.rs:17-18 | `strip_prefix` succeeds exactly when the base is a component prefix, and gives the rest |
| Paths.Parent | src/dependencies.rs:19-22 | `parent` is defined exactly for a non-empty path and drops its last component |
| Paths.DiffPathsResolves | src/link.rs:380 | the relative path from a base leads, resolved against that base, back to the path |
| Paths.DiffPathsUtf8 | src/link.rs:380 | the relative path of a UTF-8 path is UTF-8 |
| Paths.RenderSnoc | src/make_depend.rs:86-96 | joining one more UTF-8 component adds "/" and its text (or is the text alone for the empty path) |
| Paths.DebugOfUtf8 | src/unpinned_dependencies.rs:24-36 | a UTF-8 path prints in `{:?}` form as its quoted text with every character passed through `escape_debug` |
| Paths.EscapeCharItself | src/unpinned_dependencies.rs:28-29 | `escape_debug` leaves a character as it is exactly when it is not NUL, tab, return, newline, backslash or a quote and not a Latin-1 non-printable; any other character becomes an escape of at least two characters |
| Paths.DebugBytesOfEncoded | src/unpinned_dependencies.rs:28-29 | a path component whose bytes are the UTF-8 encoding of a text prints under `{:?}` exactly as that text does, so only bytes outside well-formed sequences are shown as upper-case `\xNN` |
| Json.Get | src/package_manifest.rs:99-102 | a lookup finds a value exactly when the key is present |
| Json.Insert | src/link.rs:214-233 | inserting sets the key to the value and leaves every other key as it was |
| Json.InsertKeys | src/link.rs:214-233 | inserting keeps the key order and appends a new key last |
| Json.InsertExisting | src/link.rs:214-233 | inserting an equal value changes nothing |
| Json.StringsRoundTrip | src/link.rs:373-415 | a list of strings encoded as a JSON array is read back as the same list |
| FileSystems.ConfigPath | src/configuration_file.rs:9-13 | `<root>/<directory>/<filename>`: the root, the directory, then the file name |
| FileSystems.ConfigPathInjective | src/typescript_config.rs:23-24 | two directories with the same configuration file path are the same directory |
| FileSystems.ReadDocument | src/typescript_config.rs:19-32 | reading succeeds exactly when the file exists and gives its document; a missing file is reported with its path |
| FileSystems.WrittenByStep | src/typescript_config.rs:42-53 | applying one more write extends a batch of writes |
| FileSystems.WrittenByUnique | src/typescript_config.rs:42-53 | a path written once in a batch holds that write's document afterwards |
| FileSystems.WrittenBySameOutside | src/typescript_config.rs:42-53 | a batch that writes only files of one name leaves every other file as it was |
| FileSystems.FileSystem.Write | src/typescript_config.rs:42-53 | the store afterwards maps the path to the document, and nothing else changed |
| Graphs.Reachable | src/package_manifest.rs:131-146 | what a walk from `start` reports: a set closed under successors that holds every successor of `start`, and only names that are some edge's target |
| Graphs.ReachableLeast | src/package_manifest.rs:131-146 | it is the least such set, so nothing unreachable is reported |
| Graphs.WalkReachable | src/package_manifest.rs:131-146 | the end of every walk of one or more edges from `start` is reachable |
| Graphs.ReachableWalk | src/package_manifest.rs:131-146 | every reachable name ends such a walk |
| Graphs.StartReachableIffCycle | src/package_manifest.rs:131-146 | the start is reported exactly when a cycle leads back to it |
| Graphs.TwoCycleExample | src/package_manifest.rs:131-146 | A→B→A reaches {A, B} from A |
| Graphs.ChainExample | src/package_manifest.rs:131-146 | A→B reaches only {B} from A |
| Graphs.TraversalStep | src/package_manifest.rs:133-145 | one pop-and-enqueue turn keeps the walk's invariant, and the measure (unseen names, then queued already-seen names) drops although a name can be queued twice |
| Graphs.TraversalDone | src/package_manifest.rs:146-148 | when the queue is empty, the names found are exactly the reachable set |
| TypescriptConfigs.DecodeReference | src/io.rs:11-14 | a project reference is an object whose `path` is a string |
| TypescriptConfigs.DecodeReferences | src/link.rs:397-407 | a `references` array is read item by item, and fails when an item is not a reference |
| TypescriptConfigs.ReferencesRoundTrip | src/io.rs:11-14 | references encoded and decoded again are the same list |
| TypescriptConfigs.ReadTypescriptConfig | src/typescript_config.rs:19-32 | reading a tsconfig.json succeeds exactly when the file exists and holds an object, which becomes the contents; the object requirement is that of the `Map` the contents are used as in src/link.rs:220 |
| TypescriptConfigs.CurrentReferences | src/link.rs:397-407 | the current references are the decoded `references` field, or none when the key is absent |
| TypescriptConfigs.WithReferences | src/link.rs:219-225 | setting `references` replaces that key only; every other key is kept |
| TypescriptConfigs.WithReferencesCurrent | src/link.rs:219-225 | a config whose references were set reads back those references |
| TypescriptConfigs.DecodeParent | src/io.rs:17-21 | a parent tsconfig is read only when it has a string list `files` and a reference list `references` |
| TypescriptConfigs.ParentRoundTrip | src/io.rs:17-21 | a parent tsconfig written and read again is the same |
| TypescriptConfigs.ReadParentConfig | src/link.rs:189 | reading a parent tsconfig succeeds exactly when the file exists and decodes |
| TypescriptConfigs.WriteTypescriptConfig | src/typescript_config.rs:42-53 | the store afterwards holds the contents at the tsconfig.json, and nothing else changed |
| TypescriptConfigs.TypescriptConfigWriteThenRead | src/typescript_config.rs:19-53 | a tsconfig written and read back is the one written |
| TypescriptConfigs.WriteParentConfig | src/io.rs:23-33 | the store afterwards holds the encoded parent config, and nothing else changed |
| TypescriptConfigs.ParentWriteThenRead | src/io.rs:23-33 | a parent config written and read back is the one written |
| TypescriptConfigs.ParentAsPackageConfig | src/link.rs:397-407 | a written parent config, read as a package tsconfig, shows the parent's references |
| PackageManifests.GroupValuesComplete | src/package_manifest.rs:35-42 | `DependencyGroup::VALUES` lists every group, each once |
| PackageManifests.GroupKeyInjective | src/package_manifest.rs:163-168 | no two groups share a camelCase key |
| PackageManifests.GetDependencyGroup | src/package_manifest.rs:159-173 | the group's object is returned exactly when its key is present and holds an object, and it is the object stored there |
| PackageManifests.SetDependencyGroup | src/package_manifest.rs:159-173 | writing through the handle replaces that group only: other groups, name, version, directory, key order and every other key are unchanged |
| PackageManifests.SetGetDependencyGroup | src/package_manifest.rs:159-173 | writing back what the handle showed leaves the manifest as it was |
| PackageManifests.GroupNamesIn | src/package_manifest.rs:98-105 | a group's names are its object's keys in order; an absent or non-object group gives none |
| PackageManifests.GroupNames | src/package_manifest.rs:98-105 | the same reading of one manifest's group, in terms of the group handle |
| PackageManifests.FilterInternal | src/package_manifest.rs:112-118 | the filter keeps exactly the internal names, each as often as it occurs, and never lengthens the list |
| PackageManifests.FilterAppend | src/package_manifest.rs:107-118 | filtering a chain of groups is chaining the filtered groups, so group order survives |
| PackageManifests.InternalDependencyNames | src/package_manifest.rs:107-118 | every name kept is an internal package |
| PackageManifests.InternalNamesByGroup | src/package_manifest.rs:107-111 | the internal names are those of dependencies, devDependencies, optionalDependencies and peerDependencies, in that order |
| PackageManifests.GetInternalDependencies | src/package_manifest.rs:91-120 | one stored manifest per internal name listed, in order, with no de-duplication; each name counts as often as the groups list it, external names not at all; never longer than the groups' entries |
| PackageManifests.ManifestGraph | src/package_manifest.rs:133-145 | the graph the walk follows only has internal packages as targets |
| PackageManifests.ManifestSucc | src/package_manifest.rs:137-140 | the successors of a queue entry are exactly the internal names its groups list |
| PackageManifests.EnqueueDependencies | src/package_manifest.rs:137-145 | every dependency's name is recorded as found, and exactly the not-yet-seen ones are queued |
| PackageManifests.VisitNext | src/package_manifest.rs:133-146 | one turn of the walk (pop, mark seen, enqueue) keeps the traversal invariant and strictly lowers the termination measure, although a package may be queued twice |
| PackageManifests.TransitiveInternalDependencyPackageNames | src/package_manifest.rs:122-157 | the walk terminates on any graph, cycles included, and returns the stored manifest of exactly the packages reachable by one or more edges, each once; the start only when a cycle leads back to it |
| PackageManifests.ManifestsNamed | src/package_manifest.rs:148-156 | the found names mapped to their stored manifests, each once |
| PackageManifests.TrimLeadingAt | src/package_manifest.rs:179 | the result does not start with '@' and is no longer than the name |
| PackageManifests.TrimLeadingAtSuffix | src/package_manifest.rs:179 | what `trim_start_matches('@')` removes is a run of '@'s, and the rest of the name is kept |
| PackageManifests.ReplaceSlash | src/package_manifest.rs:179 | every '/' becomes '-' and every other character is kept |
| PackageManifests.NoSlashAfterReplace | src/package_manifest.rs:179 | no '/' is left after the replacement |
| PackageManifests.ReplaceSlashIdentity | src/package_manifest.rs:179 | a name without '/' is left as it is |
| PackageManifests.ReplaceSlashScoped | src/package_manifest.rs:179 | in `a/b`, the one '/' becomes '-' |
| PackageManifests.ArchiveSuffix | src/package_manifest.rs:177-181 | `<stem>-<version>.tgz` ends in ".tgz", and has no '/' when its parts have none |
| PackageManifests.NpmPackFileBasename | src/package_manifest.rs:175-182 | the archive name ends in ".tgz", and has no '/' when the version has none |
| PackageManifests.NpmPackFileBasenameShape | src/package_manifest.rs:175-182 | the archive name is the trimmed name with '/' replaced, then "-", the version and ".tgz" |
| PackageManifests.ScopedBasename | src/package_manifest.rs:175-182 | a name trimming to `a/b` gives the archive `a-b-<version>.tgz` |
| PackageManifests.NpmPackFileBasenameExample | src/package_manifest.rs:175 | `@myscope/a-cool-package` at 1.0.0 gives `myscope-a-cool-package-1.0.0.tgz` |
| PackageManifests.NpmPackFilename | src/package_manifest.rs:184-186 | the package directory with the archive name appended as one more component |
| PackageManifests.UnscopedPackageName | src/package_manifest.rs:188-193 | the text after the last '/', or the whole name when it has no '/' |
| PackageManifests.UnscopedPackageNameOfScoped | src/package_manifest.rs:188-193 | a name `scope/rest` whose `rest` has no '/' is unscoped to exactly `rest` |
| PackageManifests.UnscopedPackageNameExample | src/package_manifest.rs:188-193 | `@myscope/a-cool-package` gives `a-cool-package`; `plain` gives itself |
| PackageManifests.ParseManifest | src/package_manifest.rs:11-19 | a document is a manifest exactly when it is an object whose `name` and `version` are strings; every other key is kept, in order |
| PackageManifests.ManifestRoundTrip | src/package_manifest.rs:11-19 | a manifest serialised and parsed again is the same manifest |
| PackageManifests.ReadManifest | src/package_manifest.rs:47-60 | reading `<root>/<directory>/package.json` succeeds exactly when the file exists and parses; a missing file is reported with its path |
| PackageManifests.WriteManifest | src/package_manifest.rs:70-81 | the store afterwards holds the serialised manifest at its package.json and nothing else changed |
| PackageManifests.WriteThenRead | src/package_manifest.rs:47-81 | a manifest written and read back is the manifest written |
| Dependencies.RelativePathFromMonorepoRoot | src/dependencies.rs:13-24 | succeeds exactly when the manifest path lies strictly under the root, and the result is the manifest's parent with the root removed; a path outside the root is `strip_prefix`'s error |
| Dependencies.RelativePathOfConfigFile | src/dependencies.rs:13-24 | the file `<root>/<dir>/<name>` gives back `dir` |
| Dependencies.KeyFold | src/dependencies.rs:35-45 | the fold has one key per manifest name and, on a repeated name, keeps the directory of the manifest folded last |
| Dependencies.KeyFoldKeys | src/dependencies.rs:37-43 | one more insert adds exactly its manifest's name to the keys |
| Dependencies.KeyFoldValues | src/dependencies.rs:37-43 | one more insert keeps "the last manifest of each name wins" |
| Dependencies.LastNamedExtend | src/dependencies.rs:37-43 | folding a manifest of another name leaves the last manifest of a name where it was |
| Dependencies.KeyInternalPackageManifestPathByPackageName | src/dependencies.rs:31-46 | the table's keys are exactly the manifests' names |
| Dependencies.KeyTableOfDistinctNames | src/dependencies.rs:31-46 | when names are distinct, each name maps to its own manifest's relative directory |
| Dependencies.InternalNames | src/dependencies.rs:70-85 | only names of internal packages are kept |
| Dependencies.DependencyGraph | src/dependencies.rs:70-85 | the graph the walk follows only leads to internal names |
| Dependencies.Rendered | src/dependencies.rs:102-119 | under the name format an entry is the stored manifest's name; under the path format it is the manifest's directory relative to the root as text; each defined exactly when its lookups succeed |
| Dependencies.ImageAdd | src/dependencies.rs:102-119 | reporting one more name adds its rendering to the set |
| Dependencies.NameImage | src/dependencies.rs:102-108 | under the name format the reported set is the set of names itself |
| Dependencies.VisitDependencies | src/dependencies.rs:101-123 | every dependency is reported in its rendering, and exactly the not-yet-seen ones are queued |
| Dependencies.DependencyGraphSucc | src/dependencies.rs:98-101 | the names visited next are exactly the internal names the current manifest's groups list |
| Dependencies.TransitiveInternalDependencies | src/dependencies.rs:49-127 | the walk terminates on any graph and returns, each once, the rendering of every internal package reachable by one or more edges; the lookups it would panic on are excluded by its preconditions |
| Link.WithChildMeaning | src/link.rs:134-137 | adding a child appends it only when it is missing: the list keeps its first-seen order, gains exactly that child and stays duplicate-free |
| Link.PrefixesAreProper | src/link.rs:126-140 | the prefixes visited are exactly the proper prefixes of the directory, from the empty path up |
| Link.ChildrenUpToKeys | src/link.rs:127-140 | after `n` components the keys are the old keys plus the first `n` prefixes |
| Link.ChildrenUpToAt | src/link.rs:127-140 | under the prefix of length `k` the fold records component `k` |
| Link.ChildrenUpToUntouched | src/link.rs:127-140 | every other key keeps its list |
| Link.ChildrenUpToDistinct | src/link.rs:128-137 | duplicate-free lists stay duplicate-free |
| Link.KeyChildren | src/link.rs:119-142 | the fold for one package fails exactly when its directory has a non-UTF-8 component, reporting the first such one, and otherwise records every component under its parent prefix |
| Link.KeyChildrenRecords | src/link.rs:126-140 | for c1/…/cn, ck is recorded under c1/…/c(k-1), the keys gained are exactly the proper prefixes, the directory itself gets none, and nothing else changes |
| Link.KeyChildrenDistinct | src/link.rs:134-137 | every child list stays duplicate-free |
| Link.KeyChildrenByParent | src/link.rs:119-142 | the loop over components computes exactly that fold, its error included |
| Link.KeyChildrenFailsAt | src/link.rs:130-133 | the first non-UTF-8 component aborts the whole fold with that component |
| Link.KeyChildrenSucceeds | src/link.rs:126-141 | an all-UTF-8 directory folds without error |
| Link.ChildrenByParent | src/link.rs:338-340 | the `try_fold` over all packages succeeds exactly when every directory is UTF-8, and then maps every proper prefix of a package directory to exactly the components that follow it |
| Link.ChildrenFoldStep | src/link.rs:340 | folding one more package keeps "keys are parents, lists are children" |
| Link.ChildrenByParentFailsAtFirst | src/link.rs:340 | the fold's error is the one of the first package with a non-UTF-8 directory |
| Link.ChildrenByParentErrExtends | src/link.rs:340 | once the fold has failed, later packages do not change the error |
| Link.CreateProjectReferences | src/link.rs:144-152 | the references' paths are the children sorted, a permutation of them |
| Link.CreateProjectReferencesOrderFree | src/link.rs:144-152 | the references depend only on which children there are, not on their order |
| Link.ParentStatus | src/link.rs:342-354 | one parent: a read failure is passed on; otherwise it is reported, with its config and the desired references, exactly when its current references differ from them |
| Link.StaleParentsExactly | src/link.rs:338-357 | a parent record is reported exactly when its directory is a key, its config is the one read there, its desired references are its children's sorted references, and its current references differ |
| Link.CollectStaleParents | src/link.rs:338-358 | every parent's config is read; the result is the first read error, or the reported parents, each once |
| Link.StaleParentsIn | src/link.rs:341-357 | the loop over the table's directories collects exactly the reported parents, or the read error |
| Link.FoldChildrenByParent | src/link.rs:337-340 | the loop folding `key_children_by_parent` over the manifests gives exactly what `ChildrenByParent` specifies: the children table, or the error of the first manifest whose directory is not UTF-8 |
| Link.OutOfDateParentProjectReferences | src/link.rs:334-359 | a non-UTF-8 directory gives `InvalidUtf8`; otherwise the result is a read error or exactly the out-of-date parents |
| Link.DependencyRelativePaths | src/link.rs:377-388 | one relative path from the package to each direct internal dependency, in group order |
| Link.DependencyPathResolves | src/link.rs:380 | each relative path, resolved against the package's directory, leads to the dependency's directory |
| Link.DesiredPackageReferences | src/link.rs:376-395 | the desired references are the relative paths, sorted, one per direct internal dependency |
| Link.PackageStatus | src/link.rs:370-416 | one package: a read failure is passed on; otherwise it is reported exactly when its current references (none when `references` is absent) differ from the desired ones |
| Link.StalePackagesNeedUpdate | src/link.rs:214-217 | every reported package does need its references rewritten |
| Link.CollectStalePackages | src/link.rs:366-421 | every package's tsconfig is read; the result is the first read error, or the out-of-date packages, each once |
| Link.StalePackagesIn | src/link.rs:368-419 | the loop over package names collects exactly those records, or the read error |
| Link.OutOfDatePackageProjectReferences | src/link.rs:361-422 | the same over the monorepo's name table |
| Link.ParentWritesTsconfigs | src/link.rs:181-192 | the parent batch writes only tsconfig.json files |
| Link.PackageWritesTsconfigs | src/link.rs:194-236 | the package batch writes only tsconfig.json files |
| Link.WriteParentConfigs | src/link.rs:182-191 | each out-of-date parent is written with its desired references |
| Link.WritePackageConfigs | src/link.rs:198-234 | exactly the configs whose references differ are written, each with only `references` replaced |
| Link.LinkChildrenPackages | src/link.rs:181-192 | succeeds exactly when every parent config can be read; on success the store is the old one with the parent batch applied, and on an error nothing is written |
| Link.LinkPackageDependencies | src/link.rs:194-236 | succeeds exactly when every package tsconfig can be read; on success the store is the old one with the package batch applied |
| Link.ParentsUpToDateIff | src/link.rs:342-357 | all parents are up to date exactly when every parent config reads and none is reported |
| Link.StaleParentReported | src/link.rs:347-353 | a parent that is out of date is in the report |
| Link.NotStaleParent | src/link.rs:345-346 | with nothing reported, every parent holds its desired references |
| Link.PackagesUpToDateIff | src/link.rs:397-415 | all packages are up to date exactly when every tsconfig reads and none is reported |
| Link.StalePackageReported | src/link.rs:408-415 | a package that is out of date is in the report |
| Link.NotStalePackage | src/link.rs:408 | with nothing reported, every package holds its desired references |
| Link.Lint | src/link.rs:424-448 | lint succeeds exactly when no parent and no package config is out of date; otherwise it reports the out-of-date configs, or the read or UTF-8 error |
| Link.ReportCovers | src/link.rs:432-440 | the lint report holds every out-of-date parent and package and nothing else |
| Link.ParentWritesKeepReadable | src/link.rs:244-245 | the parent batch leaves every package tsconfig readable |
| Link.PackageNotParent | src/link.rs:244-245 | without nested packages no package directory is a parent key, so the two batches never write the same file |
| Link.ParentUpToDateAfterLink | src/link.rs:238-250 | in a monorepo without nested packages (`Link.NestedFree`), after `modify` every parent tsconfig holds its desired references |
| Link.PackageUpToDateAfterLink | src/link.rs:238-250 | after `modify` every package tsconfig references exactly its desired dependencies |
| Link.IndexAfterLink | src/link.rs:238-250 | `modify` writes only tsconfig.json files, so the monorepo index reads as before |
| Link.ParentsAfterLink | src/link.rs:238-250 | in a monorepo without nested packages (`Link.NestedFree`), after `modify` every parent is up to date |
| Link.PackagesAfterLink | src/link.rs:238-250 | after `modify` every package is up to date |
| Link.LintAfterModify | src/link.rs:238-448 | in a monorepo without nested packages, `lint` succeeds after `modify` |
| Link.Modify | src/link.rs:238-250 | `modify` reads the index, then applies the parent batch and the package batch; errors are passed on and stop the writes; when it succeeds on a monorepo without nested packages, everything `lint` checks is up to date afterwards |
| Link.ParentsUpToDateNoneStale | src/link.rs:334-359 | when every parent tsconfig is up to date, all of them read and none is reported |
| Link.PackagesUpToDateNoneStale | src/link.rs:361-422 | when every package tsconfig is up to date, all of them read and none is reported |
| Link.StaleParentWritten | src/link.rs:181-192 | every out-of-date parent tsconfig is among the files modify mode writes |
| Link.StalePackageWritten | src/link.rs:194-236 | every out-of-date package tsconfig is among the files modify mode writes |
| Pin.VersionsByName | src/pin.rs:20-28 | the version table has one key per internal package, mapping it to the version that package declares |
| Pin.PinnedFieldsMeaning | src/pin.rs:40-66 | the rewrite of a group keeps its keys and order, leaves every non-internal entry alone, sets every internal entry to the declared version as a string, and leaves the group pinned |
| Pin.PinnedFieldsUnchanged | src/pin.rs:51-54 | a group that is already pinned is not changed |
| Pin.UnpinnedInEmpty | src/pin.rs:40-70 | a group reports nothing exactly when all its internal entries are at their declared versions |
| Pin.UnpinnedInMembers | src/pin.rs:55-65 | a dependency is reported exactly when it is some entry of the group naming an internal package at another version, with the version found and the version expected |
| Pin.PinGroup | src/pin.rs:35-71 | the loop over a group's entries computes exactly the rewritten group and the report, in the group's order |
| Pin.GroupIndex | src/package_manifest.rs:36-41 | each group has one position in `DependencyGroup::VALUES` |
| Pin.PinGroups | src/pin.rs:34-75 | after the first `k` groups, exactly those groups are rewritten; name, version, directory, key set and every key that is not a dependency group stay as they were |
| Pin.PinOneGroupMeaning | src/pin.rs:35-74 | handling one group rewrites that group only and keeps the rest of the manifest |
| Pin.PinGroupsReports | src/pin.rs:73-77 | the accumulated report is empty exactly when every present group among the first `k` is pinned |
| Pin.GroupReportsEmpty | src/pin.rs:73-77 | the reports read off the first `k` groups of the original manifest are empty exactly when every present group among them is pinned |
| Pin.PinGroupsReportsAgree | src/pin.rs:73 | the report is the concatenation of the groups' reports, in `VALUES` order |
| Pin.PinGroupsMembers | src/pin.rs:34-75 | a dependency is in the report exactly when some group among the first `k` reports it |
| Pin.PinManifestPinned | src/pin.rs:34-75 | after the rewrite every group of the manifest is pinned |
| Pin.PinManifestReports | src/pin.rs:77 | a package is flagged exactly when it is not pinned |
| Pin.PinManifestMembers | src/pin.rs:34-75 | the package's report holds exactly the unpinned entries of its groups |
| Pin.PinManifestUnchanged | src/pin.rs:51-77 | a pinned package is neither changed nor flagged |
| Pin.PinManifestIdempotent | src/pin.rs:34-75 | rewriting a rewritten package changes nothing and reports nothing |
| Pin.PinPackage | src/pin.rs:33-75 | the loop over the four groups computes exactly the rewritten manifest and its report |
| Pin.PinGroupOf | src/pin.rs:35-74 | handling one group through its handle computes exactly the one-group rewrite |
| Pin.PinReportEmpty | src/pin.rs:77-96 | check-only mode reports no package exactly when every package is pinned |
| Pin.CheckPackages | src/pin.rs:32-89 | check-only mode reports, by manifest path, exactly the packages with something to update, and sets the exit code exactly when it reports one |
| Pin.WritePackages | src/pin.rs:32-93 | write mode writes exactly the rewritten manifests of the packages with something to update and touches no other file |
| Pin.WritePackage | src/pin.rs:77-93 | one package more of the loop adds its write when it has something to update and nothing otherwise |
| Pin.PinPackages | src/pin.rs:30-94 | check-only mode writes nothing and reports exactly the flagged packages; write mode reports nothing and performs exactly the rewrites |
| Pin.PinVersionNumbers | src/pin.rs:16-102 | a monorepo that cannot be read is an error with no writes; check-only mode succeeds exactly when every internal package is pinned; after a successful write run every package is pinned |
| Pin.PinWriteOwner | src/pin.rs:91 | every write comes from one package of the table |
| Pin.UnpinnedWritten | src/pin.rs:77-92 | every package that is not pinned has its manifest rewritten |
| Pin.ReadAfterPin | src/pin.rs:91 | after the run each manifest still reads, with the same name and version, and a package of the table reads back pinned |
| Pin.LernaGlobsAfterPin | src/pin.rs:91 | the run does not change lerna.json's package globs |
| Pin.WorkspacesAfterPin | src/pin.rs:91 | the run does not change the root manifest's workspaces |
| Pin.LoadAfterPin | src/pin.rs:91 | the same package paths load after the run, as the same packages pinned |
| Pin.FromDirectoryAfterPin | src/pin.rs:17-91 | the monorepo still reads after the run, package for package the same names and versions, now pinned |
| Pin.TableEntryAfterPin | src/pin.rs:18-28 | the table read after the run has the same names and versions, and every entry is pinned |
| Pin.TableAfterPin | src/pin.rs:20-28 | the version table read after the run is the one the run used, and everything is pinned against it |
| Pin.PinThenCheck | tests/pin.rs:17-36 | a check-only run after a write run succeeds |
| Pin.PinGroupsUnchanged | src/pin.rs:51-54 | a pinned manifest passes through every group unchanged |
| Pin.WrittenPackage | src/pin.rs:91 | every package.json the run writes belongs to a package of the table and holds that package's rewritten manifest |
| Pin.MemberAfterRewrite | src/package_manifest.rs:70-81 | writing a rewritten manifest keeps every key that is not a dependency group, name or version as it was read |
| Pin.TableEntriesAfterPin | src/pin.rs:18-28 | the table read after the run has the same names, each with the same version, all pinned |
| Lint.Packages | src/lint.rs:42-46 | the packages of the declarations, one per declaration, in order |
| Lint.DeclarationsMeaning | src/lint.rs:40-46 | a declaration is exactly a package of the table together with the version it gives the dependency |
| Lint.DeclarationsDistinct | src/lint.rs:40-46 | distinct packages give declarations of distinct packages |
| Lint.BucketsUnfold | src/lint.rs:47-61 | one more declaration pushes its package's path onto the end of its version's bucket, creating the bucket when missing |
| Lint.CollectBuckets | src/lint.rs:47-61 | the loop computes exactly the fold of `entry(version).or_default().push(path)` |
| Lint.BucketsStep | src/lint.rs:50-58 | one step of the fold adds the version as a key and grows only that version's bucket |
| Lint.DeclaringStep | src/lint.rs:42-46 | one more declaration adds its version, and its package to that version's declarers |
| Lint.BucketsKeys | src/lint.rs:47-61 | there is one bucket per declared version and no other |
| Lint.BucketsCount | src/lint.rs:22-61 | a bucket's length is the number of packages declaring its version |
| Lint.BucketsMembers | src/lint.rs:47-61 | a bucket holds exactly the paths of the packages declaring its version |
| Lint.MostCommonDependencyVersion | src/lint.rs:16-28 | `None` exactly for no buckets; otherwise a version whose bucket is at least as long as every other |
| Lint.ReportedMismatchesMeaning | src/lint.rs:73-86 | a line is printed exactly for each package declaring a version other than the expected one, naming its path, the expected version and the version found |
| Lint.MostCommonMeaning | src/lint.rs:16-69 | the longest bucket belongs to a version declared by at least as many packages as any other |
| Lint.LintDependency | src/lint.rs:39-88 | one dependency reports nothing exactly when at most one version of it is declared, and otherwise reports a most common version and every package that differs from it |
| Lint.VersionsMeaning | src/lint.rs:40-61 | a version is a key exactly when some package of the table declares it |
| Lint.DeclaringMeaning | src/lint.rs:40-61 | a package is under a version exactly when it is in the table and declares that version |
| Lint.OrderFree | src/lint.rs:40-41 | the order the name table yields its packages in changes neither the versions, nor their declarers, nor whether the dependency fails |
| Lint.Failing | src/lint.rs:38-89 | the failing dependencies are a sub-list of the listed ones |
| Lint.ReportsForStep | src/lint.rs:38-89 | one more dependency adds its report exactly when it fails |
| Lint.PassesIffNoneFailing | src/lint.rs:88-91 | the lint passes exactly when no listed dependency fails |
| Lint.LintManifests | src/lint.rs:38-91 | with `continue` in place of the early return: success exactly when no listed dependency has two versions, with one report per failing dependency in list order |
| Lint.FirstConsistent | src/lint.rs:63-65 | the position of the first dependency with at most one version: every earlier one fails, that one does not |
| Lint.LintManifestsAsWritten | src/lint.rs:38-91 | the loop as written: success exactly when some dependency has at most one version or none is listed, with the reports of the dependencies before it; paths are converted only for the dependencies it examines |
| Lint.EarlyReturnHidesFailure | src/lint.rs:63-88 | a failing dependency listed before a consistent one makes the loop as written succeed although the lint does not pass |
| Lint.PassesThenPassesAsWritten | src/lint.rs:63-65 | the early return never rejects a list the `continue` loop accepts |
| Lint.SingleDependencyAgrees | src/lint.rs:63-65 | for a single dependency both loops decide alike |
| Lint.TableDeclarersUtf8 | src/lint.rs:38-65 | UTF-8 directories for the packages declaring each dependency the loop gets to (up to and including the first with at most one version) are exactly what the path conversions of the dependencies it examines need |
| Lint.LintDependencyVersion | src/lint.rs:30-93 | a monorepo that cannot be read is an error; otherwise, with the loop as written, the lint succeeds exactly when the list is empty or some listed dependency has at most one version, and it reports each dependency before the first such one |
| LintLernaManifests.GetLernaManifestKeys | src/lint_lerna_manifest.rs:32-38 | fails exactly when reading the monorepo through lerna.json fails, with that error, and otherwise yields the names of the packages it lists |
| LintLernaManifests.Find | src/lint_lerna_manifest.rs:66 | `str::find`: the first position at which the pattern occurs, or `None` when it occurs nowhere |
| LintLernaManifests.FindFrom | src/lint_lerna_manifest.rs:66 | the first occurrence at or after a start position |
| LintLernaManifests.OkNamesCons | src/lint_lerna_manifest.rs:71-72 | a successful first read contributes its name |
| LintLernaManifests.ScopedNamesCons | src/lint_lerna_manifest.rs:63-72 | a successful first read contributes its name exactly when it contains `@bitgo/` |
| LintLernaManifests.ErrNamesCons | src/lint_lerna_manifest.rs:63-72 | a failed read contributes no name |
| LintLernaManifests.CollectNamesMeaning | src/lint_lerna_manifest.rs:71-72 | collecting into a `Result` succeeds exactly when every read did, with every name, and otherwise yields the first failure |
| LintLernaManifests.AllOkCons | src/lint_lerna_manifest.rs:72 | all reads succeed exactly when the first and all the rest do |
| LintLernaManifests.KeepAllOk | src/lint_lerna_manifest.rs:63-70 | the filter keeps every failure, so the kept reads all succeed exactly when all reads do |
| LintLernaManifests.KeepNames | src/lint_lerna_manifest.rs:63-70 | the names kept are exactly the scoped names |
| LintLernaManifests.KeepFirstFailure | src/lint_lerna_manifest.rs:63-70 | the first kept failure is the first failure of all reads |
| LintLernaManifests.ScopedCollect | src/lint_lerna_manifest.rs:63-72 | filter and collect together: the scoped names when every read succeeds, the first failure otherwise |
| LintLernaManifests.GlobwalkNames | src/lint_lerna_manifest.rs:40-73 | the walk's names are those of the scoped packages when every found package.json reads, and the first failed read otherwise, even for a package out of scope |
| LintLernaManifests.SymmetricDifference | src/lint_lerna_manifest.rs:17-18 | a name is in the difference exactly when it is on one side only |
| LintLernaManifests.EntriesDistinct | src/lint_lerna_manifest.rs:17-24 | distinct names give distinct entries |
| LintLernaManifests.DifferentEntries | src/lint_lerna_manifest.rs:17-24 | the entries name, once each, exactly the names found by one side only, each marked with its side, and there are none exactly when both sides agree |
| LintLernaManifests.LintLernaManifest | src/lint_lerna_manifest.rs:11-30 | either read failing is passed on, lerna.json's first; otherwise success exactly when both name sets are equal, and the error lists each name found on one side only, with its side |
| LintLernaManifests.LinesAppend | src/lint_lerna_manifest.rs:79-100 | the error's text is the lines of its entries, one after another |
| LintLernaManifests.EntryLineInjective | src/lint_lerna_manifest.rs:83-93 | no two entries print the same line |
| MonorepoManifests.ManifestPatterns | src/monorepo_manifest.rs:37-48 | one pattern per glob, each the glob joined with `package.json`, then `!node_modules/` last |
| MonorepoManifests.PatternsNameManifests | src/monorepo_manifest.rs:38-44 | every glob pattern starts with its glob and ends in `package.json` |
| MonorepoManifests.FoundPaths | src/monorepo_manifest.rs:55-56 | a path is kept exactly when the walk found it; unreadable entries are dropped |
| MonorepoManifests.EntryDirectory | src/monorepo_manifest.rs:60-65 | the package directory is the found file's parent with the root stripped: root, directory and file name give back the file |
| MonorepoManifests.ReadEntries | src/monorepo_manifest.rs:57-67 | one read per found file, in walk order, each reading the file's directory |
| MonorepoManifests.LoadManifests | src/monorepo_manifest.rs:57-68 | succeeds exactly when every found file reads, and then holds each read manifest at its file's position |
| MonorepoManifests.LoadFailsAtFirst | src/monorepo_manifest.rs:68 | the error is that of the first file that fails to read |
| MonorepoManifests.LoadedDirectories | src/monorepo_manifest.rs:57-67 | every manifest read carries the directory of the file it came from |
| MonorepoManifests.StringListMember | src/monorepo_manifest.rs:14-22 | the list is found exactly when the key holds an array of strings, and it is that array |
| MonorepoManifests.ReadGlobs | src/monorepo_manifest.rs:79-96 | a root file's globs are read exactly when the file exists and its key holds a list of strings |
| MonorepoManifests.FromLernaManifest | src/monorepo_manifest.rs:75-88 | succeeds exactly when lerna.json lists its `packages` and every package they match reads |
| MonorepoManifests.FromPackageManifest | src/monorepo_manifest.rs:90-103 | succeeds exactly when the root package.json lists its `workspaces` and every package they match reads |
| MonorepoManifests.FromDirectory | src/monorepo_manifest.rs:105-111 | the lerna.json reading when it succeeds, and the root package.json reading, error included, otherwise |
| MonorepoManifests.NoLernaFallsBack | src/monorepo_manifest.rs:105-111 | without a lerna.json the root package.json's workspaces decide |
| MonorepoManifests.LoadManifestsOutside | src/monorepo_manifest.rs:57-68 | loading packages reads only package.json files |
| MonorepoManifests.FromDirectoryOutside | src/monorepo_manifest.rs:75-111 | reading the monorepo reads only lerna.json and package.json files |
| MonorepoManifests.FromGlobsOutside | src/monorepo_manifest.rs:75-103 | reading one root file's globs and what they match reads no other kind of file |
| MonorepoManifests.LoadedReadBack | src/monorepo_manifest.rs:57-67 | every loaded manifest is what reading its own directory gives |
| MonorepoManifests.ManifestsReadBack | src/monorepo_manifest.rs:105-111 | every manifest of the index is what reading its own directory gives |
| MonorepoManifests.PackageManifestsByPackageName | src/monorepo_manifest.rs:113-129 | the keys are exactly the manifests' names, each maps to the last manifest of that name, and every entry is stored under its own name |
| MonorepoManifests.ByNameKeys | src/monorepo_manifest.rs:116-119 | one more manifest adds its name to the keys |
| MonorepoManifests.ByNameValues | src/monorepo_manifest.rs:116-119 | one more manifest replaces the entry of its name |
| MonorepoManifests.ByNameOfDistinctNames | src/monorepo_manifest.rs:116-119 | with distinct names every manifest is found under its own name |
| LernaManifests.DecodeLernaFile | src/lerna_manifest.rs:14-77 | lerna.json decodes exactly when it has a string `version` and a `packages` list of strings, and gives that list |
| LernaManifests.ReadLernaManifest | src/lerna_manifest.rs:25-79 | a missing lerna.json is a not-found error; an undecodable one is an invalid-contents error; a decodable one gives exactly what reading its globs' packages gives, success or error |
| LernaManifests.LernaManifest.FromDirectory | src/lerna_manifest.rs:71-81 | a fresh object holding exactly the manifests read, or the read's error |
| LernaManifests.LernaManifest.PackageManifestsByName | src/lerna_manifest.rs:83-90 | the keys are the object's manifests' names, every entry is stored under its own name and is one of the object's manifests |
| LernaManifests.LernaManifest.IntoPackageManifestsByPackageName | src/lerna_manifest.rs:92-99 | the list is drained to empty, and the table is the by-name table of the manifests it held |
| UnpinnedDependencies.JoinLinesAppend | src/unpinned_dependencies.rs:26-33 | printing two runs of lines prints the first run, then the second |
| UnpinnedDependencies.SplitJoinLines | src/unpinned_dependencies.rs:26-33 | single-line pieces printed with `writeln!` read back, split at newlines, as those pieces followed by the empty remainder |
| UnpinnedDependencies.DependencyLineFields | src/unpinned_dependencies.rs:11-19 | a dependency's line holds the name, then the expected version, then the version found, tab-separated |
| UnpinnedDependencies.PackageLines | src/unpinned_dependencies.rs:24-36 | a package block is its header, then one tab-indented line per dependency, in order |
| UnpinnedDependencies.DisplayPackage | src/unpinned_dependencies.rs:24-36 | the loop writes exactly the block's lines, each followed by a newline |
| UnpinnedDependencies.DisplayMonorepo | src/unpinned_dependencies.rs:47-54 | the loop writes the package blocks one after the other |
| UnpinnedDependencies.EscapeDebugNoNewline | src/unpinned_dependencies.rs:28-29 | `{:?}` of a path never prints a newline |
| UnpinnedDependencies.HeaderNoNewline | src/unpinned_dependencies.rs:26-30 | the header is a single line whatever the path |
| UnpinnedDependencies.MonorepoLinesRead | src/unpinned_dependencies.rs:47-54 | with single-line fields, the printed report reads back line by line as, for each package in turn, its header and its dependency lines |
| UnpinnedDependencies.FromIterator | src/unpinned_dependencies.rs:62-71 | every package kept has an unpinned dependency, and no more packages are kept than given |
| UnpinnedDependencies.FromIteratorAppend | src/unpinned_dependencies.rs:64-68 | the packages kept keep the items' order |
| UnpinnedDependencies.FromIteratorKeeps | src/unpinned_dependencies.rs:66 | a package is kept exactly when it is among the items and has an unpinned dependency |
| UnpinnedDependencies.FromIteratorEmpty | src/unpinned_dependencies.rs:62-77 | the collected report is empty exactly when no item carries an unpinned dependency |
| UnpinnedDependencies.EscapeDebugPlain | src/unpinned_dependencies.rs:28-29 | a text shows under `{:?}` as itself exactly when none of its characters is escaped |
| UnpinnedDependencies.EscapeCharNoNewline | src/unpinned_dependencies.rs:28-29 | `escape_debug` of any character holds no newline |
| UnpinnedDependencies.DebugBytesNoNewline | src/unpinned_dependencies.rs:28-29 | `{:?}` of a component that is not UTF-8 holds no newline |
| UnpinnedDependencies.DisplayExample | src/unpinned_dependencies.rs:85-112 | the unit test's report prints as the text it expects, for any package.json path that needs no escaping |
| UnpinnedDependencies.ExamplePathPlain | src/unpinned_dependencies.rs:88 | the unit test's path needs no escaping |
| OutOfDateProjectReferences.FromParent | src/out_of_date_project_references.rs:44-56 | a parent report becomes a `Parent` entry that gives back the same config and desired references |
| OutOfDateProjectReferences.FromPackage | src/out_of_date_project_references.rs:58-70 | a package report becomes a `Package` entry that gives back the same config and desired references |
| OutOfDateProjectReferences.ConversionsInvert | src/out_of_date_project_references.rs:44-70 | every entry is the conversion of the report it holds |
| OutOfDateProjectReferences.ChainedReport | src/out_of_date_project_references.rs:76-86 | the chained parent and package reports are empty exactly when both are, with the parents first and the packages after, each in order |
| Sorting.LeRefl | src/link.rs:147 | the string order is reflexive |
| Sorting.LeTotal | src/link.rs:147 | any two strings are ordered one way or the other |
| Sorting.LeAntisymmetric | src/link.rs:147 | strings ordered both ways are equal |
| Sorting.LeTransitive | src/link.rs:147 | the string order is transitive |
| Sorting.InsertSorted | src/link.rs:147 | inserting into a sorted list gives a sorted list with exactly one more occurrence of the new string |
| Sorting.SortStrings | src/link.rs:147 | `sort_unstable`: the result is sorted and a permutation of the input |
| Sorting.SortedUnique | src/link.rs:389 | two sorted permutations of the same strings are equal, so the unstable sort's result is determined |
| Sorting.SortSorted | src/link.rs:147 | sorting a sorted list leaves it unchanged |
| Sorting.SortedPermutationIsSort | src/link.rs:389 | any sorted permutation of a list is its sort |
| Wrappers.CollectResults | src/monorepo_manifest.rs:68 | collecting into a `Result` succeeds exactly when every item does, and then keeps every value in order |
| Wrappers.CollectFailsAtFirst | src/monorepo_manifest.rs:68 | a failed collection carries the error of the first failing item |
| Collections.SetToSeq | src/link.rs:340 | a `HashMap`'s iteration visits every key once, in some order |
| Query.ReachAt | src/query.rs:37-38 | the recorded reach of a package is the set of names its dependencies reach |
| Query.ShowAllElems | src/query.rs:37-50 | the values shown are exactly the reached packages, shown under the format |
| Query.ShowAllDistinct | src/query.rs:37-50 | when no two packages are shown alike, no value is listed twice |
| Query.ShowDependencies | src/query.rs:37-50 | one package's list shows exactly the packages it reaches, each once when no two are shown alike |
| Query.QueryTable | src/query.rs:25-55 | the fold yields one key per stored package under the format, and under each key the packages some package shown that way reaches |
| Query.ShownAll | src/query.rs:25-55 | once every stored name is folded, the keys are all stored packages shown under the format |
| Query.ShownNamesStep | src/query.rs:29-52 | one more package adds its shown key |
| Query.QueryInternalDependencies | src/query.rs:15-55 | reading lerna.json, keying its packages by name and folding gives exactly that answer |
| Query.EntryOfPackage | src/query.rs:29-52 | when no two packages are shown alike, each package's entry sits under its own key and lists what it reaches, each once |
| Query.NameFormatEntries | src/query.rs:29-43 | under the name format the keys are the package names and each list is the set of names reached |
| MakeDepends.PackArchiveTarget | src/make_depend.rs:50-56 | the target `<package directory>/.internal-npm-dependencies/<archive basename>` renders as text exactly when the package directory does |
| MakeDepends.PackUtf8Meaning | src/make_depend.rs:54-60 | a dependency's pair renders exactly when both the package's and the dependency's directories are UTF-8 |
| MakeDepends.TargetPaths | src/make_depend.rs:47-53 | one target per dependency, in order |
| MakeDepends.SourcePaths | src/make_depend.rs:57-58 | one source per dependency, its `npm pack` archive path, in order |
| MakeDepends.CollectedStep | src/make_depend.rs:64 | collecting one pair more into a `HashMap` binds its key to its value, a later pair replacing an earlier one |
| MakeDepends.CollectedDistinct | src/make_depend.rs:64 | with distinct keys the map has one entry per pair |
| MakeDepends.PairsSnoc | src/make_depend.rs:47-63 | one more dependency adds its target and its source |
| MakeDepends.NpmPackArchiveDependencies | src/make_depend.rs:47-64 | the map is built exactly when every target and source renders, mapping each dependency's target to its archive; otherwise the `expect` panics with its message |
| MakeDepends.TargetsCollide | src/make_depend.rs:50-53 | two dependencies' targets are equal exactly when their archive basenames are |
| MakeDepends.PackMapOnePerDependency | src/make_depend.rs:47-64 | with distinct archive basenames the map has an entry per dependency |
| MakeDepends.InclusivePaths | src/make_depend.rs:38-45 | the package.json paths of the dependencies, in traversal order, then the package's own last |
| MakeDepends.PackageJsonFilenamesAsWritten | src/make_depend.rs:86-96 | one value per path, as the code computes it |
| MakeDepends.PackageJsonJoinedTwice | src/make_depend.rs:41-96 | as written, each value is the package.json path followed by a second `/package.json`, so it never names the manifest |
| MakeDepends.PackageJsonJoinedTwiceExample | src/make_depend.rs:41-96 | for the package in directory `a` the code gives `a/package.json/package.json`, where `a/package.json` is meant |
| MakeDepends.PackageJsonFilenameOfManifest | src/package_manifest.rs:66-68 | the intended value for a manifest is its directory's text followed by `/package.json` |
| MakeDepends.IntendedTemplateMeaning | src/make_depend.rs:86-96 | with the intended single join, each filename is the manifest file of its package (its directory joined with package.json), every value the code computes is that filename followed by a second `/package.json`, and no other template value differs |
| MakeDepends.NoPanicMeaning | src/make_depend.rs:47-96 | no `expect` fires exactly when the root, the output file, the package directory and every dependency directory are UTF-8; the later `expect`s then cannot fire either |
| MakeDepends.BuildMakefile | src/make_depend.rs:38-103 | the first failing `expect` in the code's order gives its panic; otherwise the makefile goes to the package directory joined with the output file, with the root, output file, package directory, both names, archive name, the package.json filenames as the code computes them (each `path()` joined with package.json again), pack flag, pack map and its keys each once |
| MakeDepends.ExclusiveManifests | src/make_depend.rs:35-36 | manifests each stored under its own name are the stored manifests of their names |
| MakeDepends.MakeDependencyMakefile | src/make_depend.rs:28-103 | a failed read of lerna.json or of the package's manifest is passed on; otherwise the makefile is built, as `BuildMakefile` states, from the package's transitive internal dependencies, each once |

## Left out

- The source files mix two versions of the library's API: src/link.rs calls `internal_package_manifests()` and `internal_dependencies_iter`, and src/pin.rs calls `PackageManifest::write(&root, ..)`, none of which src/package_manifest.rs or src/monorepo_manifest.rs defines. The model follows the definitions in those two files: the monorepo's stored manifests (`internal_package_manifests` field), `get_internal_dependencies` (`PackageManifests.GetInternalDependencies`) and `write(&self)`, which writes the manifest to its package.json under the monorepo root.
- TypescriptConfigs.ReadTypescriptConfig: src/typescript_config.rs:13 types `contents` as any JSON value, but src/link.rs:220 calls `contents.insert(..)`, which only a JSON object (`Map`) has. The model follows src/link.rs: a tsconfig.json holding a JSON document that is not an object is a read error, where the source's `from_directory` would accept it.
- File I/O, `serde_json` parsing and pretty-printing: a file is a JSON document in a store; parsing is reduced to the shapes the code deserialises (objects as ordered fields, strings, arrays). Trailing newlines and formatting of written files are not modelled.
- `println!`/`print!` output is not modelled; the reports that would be printed are returned as values (pin check mode, the dependency-version lint, the query's JSON map).
- The glob walk (`globwalk`) is a function parameter. The model assumes only that every file it finds lies strictly below the root, which the source's `expect("Unexpected package in monorepo root")` demands.
- `get_dependency_version` is not part of this model; the dependency-version lint takes it as a parameter.
- `pathdiff::diff_paths` is modelled by a component-based relative path (`Paths.DiffPaths`, with `..` for each step up), not by the library's own code.
- `TypescriptParentProjectReference::from_directory` and `write` are not part of this model. They are modelled as reading and writing a tsconfig.json document with `files` and `references`.
- HashMap and HashSet iteration order is unspecified. Loops over them visit the keys in an arbitrary order (`Collections.SetToSeq`), and their results are stated as sets or maps. Output order is claimed only where the code sorts.
- `sort_unstable` is modelled by an insertion sort (`Sorting.SortStrings`). Because a sorted permutation is unique, this fixes the result but not the algorithm.
- Askama template rendering and `fs::write` of the makefile (src/make_depend.rs:104-111) are left out. The model returns the template's values and the output path.
- The query's JSON serialisation and printing (src/query.rs:57-62) are left out; the model returns the map.
- `Display` for `OutOfDateTypescriptConfig` and `AllOutOfDateTypescriptConfig` prints the configs with the derived `Debug` format, which is not modelled.
- The CLI (`opts.rs`, `main.rs`), error enums (`error.rs`) and the npm install scripts are left out: they are plumbing.
- Dependencies.TransitiveInternalDependencies: the panics on a package missing from the table (src/dependencies.rs:98-100, 104-106, 113-117) are preconditions, not modelled outcomes.
- Query.QueryInternalDependencies: the `expect`s on reading lerna.json, on the name table and on non-UTF-8 directories (src/query.rs:19, 23, 34, 47) are preconditions. The UTF-8 precondition (`Query.Showable`) covers exactly the directories `to_str` is called on: those of the packages kept in the by-name table. A manifest shadowed by a later one of the same name may have any directory.
- Pin.PinVersionNumbers: the panic on an internal dependency whose version is not a string (src/pin.rs:45-50) is a precondition (`Pin.Pinnable`). Writes cannot fail in the model, so the error a failed manifest write would return midway is not modelled.
- Lint.LintDependencyVersion: the panic on a non-UTF-8 package path (src/lint.rs:53-57) is a precondition (`Lint.TableUtf8`). It covers exactly the packages declaring a dependency the loop gets to: every dependency up to and including the first with at most one version, whose buckets are built before the early return. `Lint.TableDeclarersUtf8` proves it equivalent to what those conversions need. The `expect` at src/lint.rs:67-69 cannot fire, because at least two versions are bucketed there.
- Link.Lint: the `expect` on reading the monorepo (src/link.rs:430-431) and the `expect` on decoding an existing `references` value (src/link.rs:397-406) are preconditions. The same decoding precondition is on Link.Modify, Link.LinkPackageDependencies and Link.OutOfDatePackageProjectReferences. The UTF-8 `expect`s on relative paths (src/link.rs:380-386) are the precondition `AllDiffsUtf8`.
- Link.LintAfterModify: proved only when no package directory lies strictly inside another (`Link.NestedFree`). A nested package's own tsconfig.json is then also a parent tsconfig, and the two batches of writes can overwrite each other.
- Link.ParentUpToDateAfterLink: proved only under `Link.NestedFree`, for the reason given for Link.LintAfterModify.
- Link.ParentsAfterLink: proved only under `Link.NestedFree`, for the reason given for Link.LintAfterModify.
- Link.Modify: its "lint passes afterwards" clause carries the same `NestedFree` condition. Writes cannot fail in the model, so the error a failed write would return midway is not modelled.
- MakeDepends.MakeDependencyMakefile: the panics are modelled as `Panicked` results, in the order the code runs them, rather than as aborts.
- Paths.DebugOfUtf8: `escape_debug` is modelled exactly for characters below U+0100. From U+0100 on, every character is shown as itself, because Rust's tables of printable and grapheme-extending characters are not modelled. A character from those tables would be shown by Rust as `\u{..}`.
- Paths.DebugBytesOfEncoded: the same limit holds for the characters decoded from a non-UTF-8 component.
- UnpinnedDependencies.EscapeDebugPlain: `Plain` leaves out only the escaped characters below U+0100, for the same reason.
- UnpinnedDependencies.DisplayPackage: the header's path shares that limit on characters from U+0100 on.
- UnpinnedDependencies.DisplayMonorepo: the headers share that limit on characters from U+0100 on.
- FileSystems.FileSystem.Write: a write always succeeds. The `io::Error` a real write can return is not modelled.
- TypescriptConfigs.WriteTypescriptConfig: no failing write is modelled, so an `Err` from `write` is never returned.
- TypescriptConfigs.WriteParentConfig: no failing write is modelled, so an `Err` from `write` is never returned.
- Link.WriteParentConfigs: because writes cannot fail, the partial batch left by the `?` on a failed write is not modelled.
- Link.WritePackageConfigs: because writes cannot fail, the partial batch left by the `?` on a failed write is not modelled.
- Link.LinkChildrenPackages: because writes cannot fail, the only errors modelled are a non-UTF-8 directory and an unreadable parent config. Both are raised before any write.
- Link.LinkPackageDependencies: because writes cannot fail, the only error modelled is an unreadable package config, raised before any write. The partial batch left by a failed write is not modelled.
- PackageManifests.WriteManifest: a write always succeeds. Its `io::Error` is not modelled.
- Pin.WritePackages: because writes cannot fail, the partial batch left by a failed manifest write is not modelled.
- PackageManifests.NpmPackFilename: the model appends the archive's basename as one component. Rust's `join` would split a '/' in the version into further components.
- Integer widths do not matter in the core (only lengths and counts), so no wrap-around is modelled.

## Findings

| source | as written | input that shows it | evidently intended | confidence | as-written member | corrected member |
|---|---|---|---|---|---|---|
| src/lint.rs:63-65 | `return Ok(())` inside the loop ends the lint with success at the first dependency with at most one version, discarding failures already found | dependencies `[a, b]` where `a` is declared at two versions and `b` at one: the lint succeeds | `continue`: check every listed dependency and fail if any has two versions | not executed | Lint.LintManifestsAsWritten, Lint.EarlyReturnHidesFailure | Lint.LintManifests |
| src/make_depend.rs:86-96 | `path()` already ends in package.json (src/package_manifest.rs:66-68), and the code joins "package.json" onto it again | a package in directory `a` gives `a/package.json/package.json` | the manifest's path, `a/package.json` | not executed | MakeDepends.PackageJsonFilenamesAsWritten, MakeDepends.PackageJsonJoinedTwiceExample | MakeDepends.IntendedTemplate, MakeDepends.IntendedTemplateMeaning, MakeDepends.PackageJsonFilenameOfManifest |
