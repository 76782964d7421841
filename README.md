# AIDE+ Maven resolver, R.java generator and build helpers in Dafny

This project models the part of AIDE+ (an Android IDE that runs on the
device) that resolves Maven dependencies from local repositories, together
with the small build-time helpers around it:

* `ZeroAicyMavenService`: the registry `depMap` (one node per
  `groupId:artifactId`), the path cache `depPathMap` (a dependency's path in
  a local repository, `""` when known to be absent), the probe of a
  repository root for a `.pom`, `.jar`, `.aar` directory, `.exploded.aar`
  directory or `.aar` archive (extracted on demand), flat repositories, and
  the three depth-bounded walks over pom descriptors: `QX` (the paths of a
  dependency tree), `yS` (the dependencies no local repository holds) and
  `Zo` (registering the versions found on disk).
* `ZeroAicyClassFilePreProcessor.J8`: the immediate children of a
  directory inside a jar or zip, as the code model lists them.
* `DistributeEvents.GarbledRepai` (the buffer fill that never splits a UTF-8
  character) and `DistributeEvents.NDKEenhancement` (the ndk-build
  arguments for a Gradle layout).
* `Aapt.generateR` (the text of `R.java`, classes in type-name order) and
  `Aapt.deleteResources`.
* `AddAndroidFiles`: whether the "add file" command is offered for a
  directory, and the new Java class or XML file it creates.

Modules: `Wrappers` (Option), `JavaStrings` (the `String` methods the code
relies on: `startsWith`, `endsWith`, `contains`, `lastIndexOf`, `indexOf`,
`trim`, `split`), `FileModel` (the disk: files, directories with their
listings, modification times, archives and their unzip), `MavenModel`
(coordinates, registry rules, path arithmetic), `MavenProbe` (what a lookup
finds, as functions of the disk), `MavenWalks` (the walks as functions of
the state they read and change), `MavenService` (the service class, whose
methods are proved to compute exactly those functions), `ZipListing`,
`DistributeEvents`, `RJava`, `AaptResources` and `AddFiles`.

Where the state is changed in place the model is imperative: the service is
a class whose fields are `depMap`, `depPathMap` and the disk; the UTF-8 fill
works on an `array` of bytes and a stream object; `R.java` is printed into a
writer object; resource deletion is logged call by call. Each such method is
proved equal to a specification function, and the properties are lemmas
about those functions.

The collaborators whose code is not part of this model (pom parsing,
`MavenMetadataXml` version choice and matching,
`MavenDependencyVersion.compareTo`, the identity of `MavenDependency` as a
map key) are parameters of type `Collaborators`. Where a property needs
version comparison to chain, it assumes it through the requirement
`TransitiveUpgrade`.

The registry is not a maximum of the versions offered for a coordinate.
`makeDep` (lines 300-313) keeps the first node registered under a key,
whatever its version. Two things replace a stored node: a
dependencyManagement entry (lines 353-362) and `Zo`'s registration of the
version found on disk (lines 431-441). Each does so only with a version
that compares strictly greater. So a node offered later with a higher
version through a plain dependency does not replace the stored one. The
model therefore proves "never downgrades" (`NoDowngrade`), not "holds the
highest version offered".

## Model

| member | source | states |
|---|---|---|
| JavaStrings.LastIndexAtOrBelow | app_rewrite/src/main/java/com/aide/common/AddAndroidFiles.java:141 | the result is -1 or an index no larger than the bound where the text occurs, and no occurrence lies between it and the bound |
| JavaStrings.LastIndexOf | app_rewrite/src/main/java/com/aide/common/AddAndroidFiles.java:141 | `lastIndexOf` is -1 exactly when the text does not occur; otherwise the text occurs there and nowhere later |
| JavaStrings.IndexOfChar | app_rewrite/src/main/java/io/github/zeroaicy/aide/extend/ZeroAicyClassFilePreProcessor.java:67 | `indexOf(c, from)` is -1 when no `c` lies at or after `from`; otherwise it holds `c`, is at or after `from`, and no `c` comes between |
| JavaStrings.LastIndexOfChar | app_rewrite/src/main/java/com/aide/common/AddAndroidFiles.java:55-56 | the index of the last occurrence of the character, or -1; no occurrence follows it |
| JavaStrings.LastSegment | app_rewrite/src/main/java/io/github/zeroaicy/aide/ui/services/ZeroAicyMavenService.java:599 | `File.getName()` holds no '/' and is a suffix of the path |
| JavaStrings.DotsToSlashes | app_rewrite/src/main/java/io/github/zeroaicy/aide/ui/services/ZeroAicyMavenService.java:134 | `replace('.', '/')` keeps the length and changes exactly the dots |
| JavaStrings.Trim | app_rewrite/src/main/java/io/github/zeroaicy/aide/ui/services/ZeroAicyMavenService.java:541-542 | `trim()` is a slice of the string that is empty or starts and ends above U+0020, and every character outside the slice is at most U+0020 |
| JavaStrings.TrimEndOfTrimStart | app_rewrite/src/main/java/io/github/zeroaicy/aide/ui/services/ZeroAicyMavenService.java:541-542 | trimming the start and then the end leaves the slice of the string beginning after the leading characters up to U+0020, with only such characters on either side |
| JavaStrings.TrimStart | app_rewrite/src/main/java/io/github/zeroaicy/aide/ui/services/ZeroAicyMavenService.java:541-542 | the leading characters up to U+0020 are dropped: the result is a suffix that is empty or starts above U+0020, and every character dropped is at most U+0020 |
| JavaStrings.TrimEnd | app_rewrite/src/main/java/io/github/zeroaicy/aide/ui/services/ZeroAicyMavenService.java:541-542 | the trailing characters up to U+0020 are dropped: the result is a prefix that is empty or ends above U+0020, and every character dropped is at most U+0020 |
| JavaStrings.SplitAll | app_rewrite/src/main/java/io/github/zeroaicy/aide/ui/services/ZeroAicyMavenService.java:482 | splitting with every empty piece kept gives at least one piece, and no piece holds the separator |
| JavaStrings.DropTrailingEmpty | app_rewrite/src/main/java/io/github/zeroaicy/aide/ui/services/ZeroAicyMavenService.java:482 | only trailing empty pieces are dropped: the result is a prefix, its last piece is not empty, and every piece dropped is empty |
| JavaStrings.JavaSplit | app_rewrite/src/main/java/io/github/zeroaicy/aide/ui/services/ZeroAicyMavenService.java:540 | `split` with limit 0: a string without the separator gives itself as the only piece; otherwise the pieces between separators, with trailing empty pieces dropped, so no piece holds the separator and the last one is not empty |
| JavaStrings.SplitAllConcat | app_rewrite/src/main/java/io/github/zeroaicy/aide/ui/services/ZeroAicyMavenService.java:482 | splitting `x + c + y` gives the pieces of `x` followed by the pieces of `y` |
| JavaStrings.SplitAllNoSeparator | app_rewrite/src/main/java/io/github/zeroaicy/aide/ui/services/ZeroAicyMavenService.java:482 | a string without the separator is a single piece |
| JavaStrings.SplitAllLastNonEmpty | app_rewrite/src/main/java/io/github/zeroaicy/aide/ui/services/ZeroAicyMavenService.java:482-483 | a string that does not end with the separator keeps its last piece, and has at least two pieces when the separator occurs |
| JavaStrings.SplitKeepsTwo | app_rewrite/src/main/java/io/github/zeroaicy/aide/ui/services/ZeroAicyMavenService.java:482-483 | `split("/")` of a path that holds a '/' and does not end with one drops nothing and gives at least two pieces, so `split[length - 2]` exists |
| JavaStrings.LastSegmentOfSuffix | app_rewrite/src/main/java/io/github/zeroaicy/aide/ui/services/ZeroAicyMavenService.java:599-602 | a name suffix without '/' of a path is also a suffix of its `getName()` |
| FileModel.Unzipped | app_rewrite/src/main/java/io/github/zeroaicy/aide/ui/services/ZeroAicyMavenService.java:392 | `FileSystem.u7` keeps the clock and the archives and leaves a consistent disk consistent (no modification time in the future); `FreshAfterUnzip` states what it leaves in the output directory |
| FileModel.Disk.Unzip | app_rewrite/src/main/java/io/github/zeroaicy/aide/ui/services/ZeroAicyMavenService.java:392 | the disk afterwards is `Unzipped` of the disk before, and `ok` says whether the archive could be read |
| MavenModel.CanonicalNode | app_rewrite/src/main/java/io/github/zeroaicy/aide/ui/services/ZeroAicyMavenService.java:300-313 | `makeDep` hands back the node already registered under the key when there is one, and the argument only for a new key |
| MavenModel.AfterMakeDep | app_rewrite/src/main/java/io/github/zeroaicy/aide/ui/services/ZeroAicyMavenService.java:300-313 | `makeDep` adds exactly the dependency's key to `depMap`, and the node stored under it is the one `makeDep` returns |
| MavenModel.MakeDepIsGetOrInsert | app_rewrite/src/main/java/io/github/zeroaicy/aide/ui/services/ZeroAicyMavenService.java:300-313 | get-or-insert: a registered key leaves `depMap` unchanged, the returned node is the one stored, and nothing is downgraded |
| MavenModel.ManageStep | app_rewrite/src/main/java/io/github/zeroaicy/aide/ui/services/ZeroAicyMavenService.java:355-361 | one management entry: stored when its key is absent or its version compares strictly greater, otherwise ignored (`ManageStepKeepsUnlessGreater`) |
| MavenModel.Manage | app_rewrite/src/main/java/io/github/zeroaicy/aide/ui/services/ZeroAicyMavenService.java:353-362 | the dependencyManagement loop, entry by entry in order; `ManageKeys`, `ManageNoDowngrade` and `ManageValues` state what it keeps |
| MavenModel.RegisterVersion | app_rewrite/src/main/java/io/github/zeroaicy/aide/ui/services/ZeroAicyMavenService.java:431-441 | `Zo`'s registration of the version read from the path; `RegisterVersionUpgrades` states what it keeps |
| MavenModel.ManageKeys | app_rewrite/src/main/java/io/github/zeroaicy/aide/ui/services/ZeroAicyMavenService.java:353-362 | after the dependencyManagement loop, the keys are the old keys plus the key of every entry, and no others |
| MavenModel.ManageNoDowngrade | app_rewrite/src/main/java/io/github/zeroaicy/aide/ui/services/ZeroAicyMavenService.java:353-362 | the dependencyManagement loop replaces a stored node only with a strictly greater version, so no key is lost and nothing is downgraded |
| MavenModel.ManageValues | app_rewrite/src/main/java/io/github/zeroaicy/aide/ui/services/ZeroAicyMavenService.java:353-362 | every node stored after the loop is either the node stored before or one of the entries with that key |
| MavenModel.ManageStepKeepsUnlessGreater | app_rewrite/src/main/java/io/github/zeroaicy/aide/ui/services/ZeroAicyMavenService.java:356-361 | an entry whose version is not strictly greater than the stored node's leaves `depMap` unchanged |
| MavenModel.RegisterVersionUpgrades | app_rewrite/src/main/java/io/github/zeroaicy/aide/ui/services/ZeroAicyMavenService.java:431-441 | `Zo`'s registration of the version found on disk adds only the dependency's key and never downgrades |
| MavenModel.ManagedVersionScenario | app_rewrite/src/main/java/io/github/zeroaicy/aide/ui/services/ZeroAicyMavenService.java:431-460 | registering 1.0 then 2.0 leaves 2.0 stored, and a later management entry offering 1.5 leaves it at 2.0 |
| MavenModel.RepositoryLayout | app_rewrite/src/main/java/io/github/zeroaicy/aide/ui/services/ZeroAicyMavenService.java:57-139 | a local cache path is the URL built over the default repository root; metadata and every artifact lie in the `<group path>/<artifactId>/` directory, and the artifact URL ends in `<artifactId>-<version><suffix>` |
| MavenModel.DepPomPath | app_rewrite/src/main/java/io/github/zeroaicy/aide/ui/services/ZeroAicyMavenService.java:493-503 | `getDepPomPath` always yields a `.pom` path |
| MavenModel.PomNextToArtifact | app_rewrite/src/main/java/io/github/zeroaicy/aide/ui/services/ZeroAicyMavenService.java:493-503 | the pom of a `.jar`, `.aar` or `.pom` artifact is the same path with the extension replaced by `.pom` |
| MavenModel.PomNextToExplodedAar | app_rewrite/src/main/java/io/github/zeroaicy/aide/ui/services/ZeroAicyMavenService.java:493-503 | the pom of an `.exploded.aar` directory is its sibling `<base>.pom` |
| MavenModel.VersionOfPath | app_rewrite/src/main/java/io/github/zeroaicy/aide/ui/services/ZeroAicyMavenService.java:480-488 | `getVersion`: the second-to-last piece of `split("/")`, which holds no '/' |
| MavenModel.IsAndroidAll | app_rewrite/src/main/java/io/github/zeroaicy/aide/ui/services/ZeroAicyMavenService.java:619-626 | `vy`: the artifactId contains `android-all` |
| MavenModel.WellFormedHasVersion | app_rewrite/src/main/java/io/github/zeroaicy/aide/ui/services/ZeroAicyMavenService.java:480-488 | `getVersion` is defined (the split has at least two pieces) on every path the resolver hands out |
| MavenModel.VersionIsSecondToLastSegment | app_rewrite/src/main/java/io/github/zeroaicy/aide/ui/services/ZeroAicyMavenService.java:480-488 | `getVersion` returns the directory just above the file name |
| MavenModel.ArtifactPathVersionRoundTrip | app_rewrite/src/main/java/io/github/zeroaicy/aide/ui/services/ZeroAicyMavenService.java:132-139 | `getVersion(getArtifactPath(d, v, suffix)) == v` whenever no part holds a '/' |
| MavenModel.ArtifactPathWellFormed | app_rewrite/src/main/java/io/github/zeroaicy/aide/ui/services/ZeroAicyMavenService.java:132-139 | an artifact path with a real extension is long enough for `getDepPomPath`, holds a '/' and does not end in one |
| MavenProbe.Fresh | app_rewrite/src/main/java/io/github/zeroaicy/aide/ui/services/ZeroAicyMavenService.java:316-336 | `P8`: false when the output directory does not exist, true when it cannot be listed, and otherwise true iff no regular file in it is older than the archive; `EmptyDirectoryIsFresh` and `FreshAfterUnzip` are about it |
| MavenProbe.ExtractAar | app_rewrite/src/main/java/io/github/zeroaicy/aide/ui/services/ZeroAicyMavenService.java:386-402 | extraction keeps the disk consistent (no modification time in the future) |
| MavenProbe.EmptyDirectoryIsFresh | app_rewrite/src/main/java/io/github/zeroaicy/aide/ui/services/ZeroAicyMavenService.java:316-336 | `P8` holds for an existing output directory with no regular file in it, including an empty or unlistable one |
| MavenProbe.FreshAfterUnzip | app_rewrite/src/main/java/io/github/zeroaicy/aide/ui/services/ZeroAicyMavenService.java:316-336 | once a readable archive outside its output directory is unzipped, `P8` holds iff no older regular file that the archive does not overwrite was left in the directory |
| MavenProbe.ExtractAarIdempotent | app_rewrite/src/main/java/io/github/zeroaicy/aide/ui/services/ZeroAicyMavenService.java:386-402 | when no older file is left over in the output directory, `P8` holds after `extractedAar` and a second call changes nothing |
| MavenProbe.ExtractAarRepeats | app_rewrite/src/main/java/io/github/zeroaicy/aide/ui/services/ZeroAicyMavenService.java:316-336 | with an older file left over, `P8` fails, `extractedAar` unzips again, and the leftover is still there afterwards, so every later call unzips again |
| MavenProbe.LocalVersion | app_rewrite/src/main/java/io/github/zeroaicy/aide/ui/services/ZeroAicyMavenService.java:554-582 | `searchLocalDepVersion`: the metadata index's answer when `maven-metadata.xml` is a file and answers, otherwise the choice among the names of the listed version directories, nothing when the directory cannot be listed |
| MavenProbe.LocalVersionCases | app_rewrite/src/main/java/io/github/zeroaicy/aide/ui/services/ZeroAicyMavenService.java:554-582 | an answer of the metadata index wins; otherwise an unlistable directory gives null, and a listable one gives the choice among the names of its entries, one per entry in listing order, each the entry's last segment |
| MavenProbe.IndexedVersionIgnoresListing | app_rewrite/src/main/java/io/github/zeroaicy/aide/ui/services/ZeroAicyMavenService.java:560-564 | when `maven-metadata.xml` is a file and the index answers, the result does not depend on the directory's listing |
| MavenProbe.ArtifactCachePath | app_rewrite/src/main/java/io/github/zeroaicy/aide/ui/services/ZeroAicyMavenService.java:260-295 | a probe that finds nothing leaves the disk unchanged; a path found is well formed |
| MavenProbe.ArtifactCachePathCases | app_rewrite/src/main/java/io/github/zeroaicy/aide/ui/services/ZeroAicyMavenService.java:260-295 | the probe finds a path iff the artifactId directory exists, a version is found and some form is present; only an `.aar` archive with no other form touches the disk, and then the `.exploded.aar` sibling is returned after unzipping |
| MavenProbe.AarArchiveScenario | app_rewrite/src/main/java/io/github/zeroaicy/aide/ui/services/ZeroAicyMavenService.java:284-293 | an aar present only as an archive resolves to `<artifactId>-<version>.exploded.aar`, and the archive is unzipped |
| MavenProbe.FirstProbe | app_rewrite/src/main/java/io/github/zeroaicy/aide/ui/services/ZeroAicyMavenService.java:522-535 | a miss in every root leaves the disk unchanged; a hit is well formed |
| MavenProbe.RepositoryPaths | app_rewrite/src/main/java/io/github/zeroaicy/aide/ui/services/ZeroAicyMavenService.java:537-551 | `getRepositoriePaths`: the non-empty trimmed pieces of the preference split at ';', then the default cache repository; `RepositoryPathsShape` and `NonEmptyTrimmedShape` are about it |
| MavenProbe.NonEmptyTrimmedShape | app_rewrite/src/main/java/io/github/zeroaicy/aide/ui/services/ZeroAicyMavenService.java:537-551 | every configured root is a non-empty trimmed piece of the preference, and every non-empty trimmed piece is a configured root |
| MavenProbe.RepositoryPathsShape | app_rewrite/src/main/java/io/github/zeroaicy/aide/ui/services/ZeroAicyMavenService.java:537-551 | the default cache repository is searched, and searched last; no configured root is empty or padded |
| MavenProbe.FirstFlatMatch | app_rewrite/src/main/java/io/github/zeroaicy/aide/ui/services/ZeroAicyMavenService.java:587-614 | a match is a listed file named `<artifactId>-<v>.aar` whose `<v>` matches; no match means no listed file from the start index on matches |
| MavenProbe.FlatArtifactPath | app_rewrite/src/main/java/io/github/zeroaicy/aide/ui/services/ZeroAicyMavenService.java:587-614 | a path found in a flat directory always names an `.aar` file |
| MavenProbe.FlatHit | app_rewrite/src/main/java/io/github/zeroaicy/aide/ui/services/ZeroAicyMavenService.java:633-645 | a flat hit comes from one of the flat repositories, is what `getFlatArtifactPath` finds there, and names an `.aar` file |
| MavenProbe.FlatExplodedPath | app_rewrite/src/main/java/io/github/zeroaicy/aide/ui/services/ZeroAicyMavenService.java:640-643 | an aar from a flat repository is exploded into `<cacheDir>/<name>.exploded.aar`, a well-formed path |
| MavenProbe.Resolve | app_rewrite/src/main/java/io/github/zeroaicy/aide/ui/services/ZeroAicyMavenService.java:631-665 | a lookup keeps every cached entry, keeps the cache well formed, and returns only well-formed paths |
| MavenProbe.RepositoryLookup | app_rewrite/src/main/java/io/github/zeroaicy/aide/ui/services/ZeroAicyMavenService.java:647-660 | the cached-or-probed part of the lookup keeps every cached entry and returns only well-formed paths |
| MavenProbe.FlatPrecedence | app_rewrite/src/main/java/io/github/zeroaicy/aide/ui/services/ZeroAicyMavenService.java:633-645 | a flat hit wins over anything cached or present in a repository root, and is not cached |
| MavenProbe.CachedLookupDoesNotProbe | app_rewrite/src/main/java/io/github/zeroaicy/aide/ui/services/ZeroAicyMavenService.java:647-653 | without a flat hit, a cached key answers from the cache (`""` as null) and changes neither cache nor disk |
| MavenProbe.MissIsCached | app_rewrite/src/main/java/io/github/zeroaicy/aide/ui/services/ZeroAicyMavenService.java:654-660 | a miss probes the roots in order and caches the path found, or `""` |
| MavenProbe.ResolveIdempotent | app_rewrite/src/main/java/io/github/zeroaicy/aide/ui/services/ZeroAicyMavenService.java:631-665 | without flat repositories, repeating a lookup returns the same path and changes neither cache nor disk |
| MavenWalks.ServiceLookupSound | app_rewrite/src/main/java/io/github/zeroaicy/aide/ui/services/ZeroAicyMavenService.java:631-665 | the service's lookup has the guarantees the walks rely on |
| MavenWalks.ServiceLookupRecords | app_rewrite/src/main/java/io/github/zeroaicy/aide/ui/services/ZeroAicyMavenService.java:631-665 | every path `resolveMavenDepPath` returns is on record: a value of the path cache it leaves, or an `.exploded.aar` path inside the cache directory of one of the flat repositories it was given |
| MavenWalks.ExpandPom | app_rewrite/src/main/java/io/github/zeroaicy/aide/ui/services/ZeroAicyMavenService.java:349-364 | reading a pom registers the key of every management entry and of the pom's own node, and no other key |
| MavenWalks.ExpandPomNoDowngrade | app_rewrite/src/main/java/io/github/zeroaicy/aide/ui/services/ZeroAicyMavenService.java:353-364 | reading a pom never downgrades a registered node |
| MavenWalks.ExclusionsOfRegisteredNode | app_rewrite/src/main/java/io/github/zeroaicy/aide/ui/services/ZeroAicyMavenService.java:363-364 | the exclusions applied are those of the node already registered under the pom's key, not necessarily the pom's own |
| MavenWalks.Collect | app_rewrite/src/main/java/io/github/zeroaicy/aide/ui/services/ZeroAicyMavenService.java:339-384 | `QX` keeps the list it was given as a prefix and always contains `str` afterwards; with no depth left it only lists `str` (once) and changes no state |
| MavenWalks.CollectBelow | app_rewrite/src/main/java/io/github/zeroaicy/aide/ui/services/ZeroAicyMavenService.java:345-379 | `QX` after `str` is listed: the state stays consistent, the list only grows, and with no depth left nothing changes |
| MavenWalks.CollectChild | app_rewrite/src/main/java/io/github/zeroaicy/aide/ui/services/ZeroAicyMavenService.java:367-378 | one iteration of `QX`'s loop: the state stays consistent and the list only grows |
| MavenWalks.CollectChildren | app_rewrite/src/main/java/io/github/zeroaicy/aide/ui/services/ZeroAicyMavenService.java:366-379 | `QX`'s loop over a pom's dependencies: the state stays consistent and the list only grows |
| MavenWalks.CollectSkipsExcluded | app_rewrite/src/main/java/io/github/zeroaicy/aide/ui/services/ZeroAicyMavenService.java:366-379 | `QX`'s loop over a pom's dependencies equals the loop over the followed ones alone: an excluded or android-all dependency is not registered, looked up or listed |
| MavenWalks.CollectDistinct | app_rewrite/src/main/java/io/github/zeroaicy/aide/ui/services/ZeroAicyMavenService.java:341-344 | `QX` never lists a path twice |
| MavenWalks.CollectAppendsRecordedPaths | app_rewrite/src/main/java/io/github/zeroaicy/aide/ui/services/ZeroAicyMavenService.java:366-379 | `QX` leaves a list that already holds `str` unchanged; otherwise it appends `str` first, and every later entry is well formed and either a value of the path cache `QX` leaves behind or an aar exploded into one of the flat repositories' cache directories; no cached path is dropped |
| MavenWalks.CollectKeepsRegistry | app_rewrite/src/main/java/io/github/zeroaicy/aide/ui/services/ZeroAicyMavenService.java:339-384 | `QX` never downgrades a registered node and never forgets a cached path |
| MavenWalks.PathsOfTree | app_rewrite/src/main/java/io/github/zeroaicy/aide/ui/services/ZeroAicyMavenService.java:407-418 | `Ws` returns an empty list exactly when it is given no path |
| MavenWalks.PathsOfTreeShape | app_rewrite/src/main/java/io/github/zeroaicy/aide/ui/services/ZeroAicyMavenService.java:407-418 | the list `Ws` returns starts with its argument, has no duplicates, and every later entry is well formed and on record: a value of the path cache left behind, or an aar exploded into a flat repository's cache directory |
| MavenWalks.ExclusionIsPerNode | app_rewrite/src/main/java/io/github/zeroaicy/aide/ui/services/ZeroAicyMavenService.java:363-379 | exclusions apply only to the dependencies of the pom whose node declares them: a coordinate the root excludes is still collected through a sibling that depends on it |
| MavenWalks.FullDependencyTree | app_rewrite/src/main/java/io/github/zeroaicy/aide/ui/services/ZeroAicyMavenService.java:188-195 | every path in the full dependency tree, the root's included, is well formed and on record in the path cache left behind or in a flat repository's cache directory |
| MavenWalks.Missing | app_rewrite/src/main/java/io/github/zeroaicy/aide/ui/services/ZeroAicyMavenService.java:668-708 | `yS` only appends to the list it is given; with no depth left it registers `dep` through `makeDep` and appends it iff the lookup finds no path |
| MavenWalks.MissingBelow | app_rewrite/src/main/java/io/github/zeroaicy/aide/ui/services/ZeroAicyMavenService.java:675-702 | `yS` below a dependency that resolves: the state stays consistent, the list only grows, and with no depth left nothing changes |
| MavenWalks.MissingChild | app_rewrite/src/main/java/io/github/zeroaicy/aide/ui/services/ZeroAicyMavenService.java:695-702 | one iteration of `yS`'s loop: the state stays consistent and the list only grows |
| MavenWalks.MissingChildren | app_rewrite/src/main/java/io/github/zeroaicy/aide/ui/services/ZeroAicyMavenService.java:695-702 | `yS`'s loop over a pom's dependencies: the state stays consistent and the list only grows |
| MavenWalks.MissingSkipsExcluded | app_rewrite/src/main/java/io/github/zeroaicy/aide/ui/services/ZeroAicyMavenService.java:695-702 | `yS`'s loop over a pom's dependencies equals the loop over the followed ones alone: an excluded or android-all dependency is not registered, looked up or reported |
| MavenWalks.MissingChildrenAtDepthZero | app_rewrite/src/main/java/io/github/zeroaicy/aide/ui/services/ZeroAicyMavenService.java:695-702 | one level below the last expanded pom, every dependency `yS` reports is one of that pom's dependencies that it follows |
| MavenWalks.MissingReportsFollowed | app_rewrite/src/main/java/io/github/zeroaicy/aide/ui/services/ZeroAicyMavenService.java:668-708 | `yS` appends an unresolvable dependency and nothing else; below a resolvable one it reports no android-all artifact |
| MavenWalks.MissingKeepsRegistry | app_rewrite/src/main/java/io/github/zeroaicy/aide/ui/services/ZeroAicyMavenService.java:668-708 | `yS` registers the dependency, never downgrades a registered node and never forgets a cached path |
| MavenWalks.NoDownloadDeps | app_rewrite/src/main/java/io/github/zeroaicy/aide/ui/services/ZeroAicyMavenService.java:29-40 | `getNoDownloadDeps` leaves the service state consistent |
| MavenWalks.Register | app_rewrite/src/main/java/io/github/zeroaicy/aide/ui/services/ZeroAicyMavenService.java:421-478 | `Zo` leaves the service state consistent; with no depth left it changes the node of no key other than the dependency's own |
| MavenWalks.RegisterBelow | app_rewrite/src/main/java/io/github/zeroaicy/aide/ui/services/ZeroAicyMavenService.java:444-472 | `Zo` after the version is registered: the state stays consistent, and with no depth left nothing changes |
| MavenWalks.RegisterChild | app_rewrite/src/main/java/io/github/zeroaicy/aide/ui/services/ZeroAicyMavenService.java:465-472 | one iteration of `Zo`'s loop keeps the state consistent |
| MavenWalks.RegisterChildren | app_rewrite/src/main/java/io/github/zeroaicy/aide/ui/services/ZeroAicyMavenService.java:465-472 | `Zo`'s loop over a pom's dependencies keeps the state consistent |
| MavenWalks.RegisterSkipsExcluded | app_rewrite/src/main/java/io/github/zeroaicy/aide/ui/services/ZeroAicyMavenService.java:465-472 | `Zo`'s loop over a pom's dependencies equals the loop over the followed ones alone: an excluded or android-all dependency is not looked up or registered |
| MavenWalks.RegisterKeepsRegistry | app_rewrite/src/main/java/io/github/zeroaicy/aide/ui/services/ZeroAicyMavenService.java:421-478 | `Zo` never downgrades a registered node and never forgets a cached path |
| MavenWalks.RegisterRecordsPathVersion | app_rewrite/src/main/java/io/github/zeroaicy/aide/ui/services/ZeroAicyMavenService.java:424-441 | after `Zo`, a dependency that resolves is stored with the version its path names, or with a greater one, unless the stored node's version was already at least as great |
| MavenService.ZeroAicyMavenService.constructor | app_rewrite/src/main/java/io/github/zeroaicy/aide/ui/services/ZeroAicyMavenService.java:251-254 | a new service starts with empty `depMap` and `depPathMap` |
| MavenService.ZeroAicyMavenService.ResetDepMap | app_rewrite/src/main/java/io/github/zeroaicy/aide/ui/services/ZeroAicyMavenService.java:111-118 | `depMap` is emptied; `depPathMap` is untouched |
| MavenService.ZeroAicyMavenService.ResetDepPathMap | app_rewrite/src/main/java/io/github/zeroaicy/aide/ui/services/ZeroAicyMavenService.java:158-165 | `depPathMap` is emptied; `depMap` is untouched |
| MavenService.ZeroAicyMavenService.MakeDep | app_rewrite/src/main/java/io/github/zeroaicy/aide/ui/services/ZeroAicyMavenService.java:300-313 | returns the canonical node and updates `depMap` by get-or-insert |
| MavenService.ZeroAicyMavenService.IsExtractionFresh | app_rewrite/src/main/java/io/github/zeroaicy/aide/ui/services/ZeroAicyMavenService.java:316-336 | the loop over the output directory computes `P8` |
| MavenService.ZeroAicyMavenService.ExtractedAar | app_rewrite/src/main/java/io/github/zeroaicy/aide/ui/services/ZeroAicyMavenService.java:386-402 | the disk afterwards is `ExtractAar` of the disk before |
| MavenService.ZeroAicyMavenService.VersionNames | app_rewrite/src/main/java/io/github/zeroaicy/aide/ui/services/ZeroAicyMavenService.java:567-570 | the loop collects the name of every listed version directory, in listing order |
| MavenService.ZeroAicyMavenService.SearchLocalDepVersion | app_rewrite/src/main/java/io/github/zeroaicy/aide/ui/services/ZeroAicyMavenService.java:554-582 | the version found is the metadata index's answer, else the choice among the listed names |
| MavenService.ZeroAicyMavenService.GetArtifactCachePath | app_rewrite/src/main/java/io/github/zeroaicy/aide/ui/services/ZeroAicyMavenService.java:260-295 | path and disk afterwards are those `ArtifactCachePath` specifies |
| MavenService.ZeroAicyMavenService.GetRepositoriePaths | app_rewrite/src/main/java/io/github/zeroaicy/aide/ui/services/ZeroAicyMavenService.java:537-551 | the loop builds `RepositoryPaths` |
| MavenService.ZeroAicyMavenService.GetMavenDependencyPath | app_rewrite/src/main/java/io/github/zeroaicy/aide/ui/services/ZeroAicyMavenService.java:522-535 | the loop over the roots stops at the first hit, as `FirstProbe` specifies |
| MavenService.ZeroAicyMavenService.GetFlatArtifactPath | app_rewrite/src/main/java/io/github/zeroaicy/aide/ui/services/ZeroAicyMavenService.java:587-614 | the direct name, then the first matching listed file |
| MavenService.ZeroAicyMavenService.FindFlatArtifact | app_rewrite/src/main/java/io/github/zeroaicy/aide/ui/services/ZeroAicyMavenService.java:633-645 | the loop over the flat repositories finds `FlatHit` |
| MavenService.ZeroAicyMavenService.ResolveMavenDepPath | app_rewrite/src/main/java/io/github/zeroaicy/aide/ui/services/ZeroAicyMavenService.java:631-665 | path, cache and disk afterwards are `Resolve`'s; `depMap` is untouched |
| MavenService.ZeroAicyMavenService.LookupRepositories | app_rewrite/src/main/java/io/github/zeroaicy/aide/ui/services/ZeroAicyMavenService.java:647-660 | path, cache and disk afterwards are `RepositoryLookup`'s |
| MavenService.ZeroAicyMavenService.ResolveMavenDepPathWithoutFlats | app_rewrite/src/main/java/io/github/zeroaicy/aide/ui/services/ZeroAicyMavenService.java:202-209 | the public lookup is `Resolve` without flat repositories |
| MavenService.ZeroAicyMavenService.ExistsLocalMavenCache | app_rewrite/src/main/java/io/github/zeroaicy/aide/ui/services/ZeroAicyMavenService.java:232-239 | true iff the node `makeDep` registers resolves |
| MavenService.ZeroAicyMavenService.ApplyDependencyManagement | app_rewrite/src/main/java/io/github/zeroaicy/aide/ui/services/ZeroAicyMavenService.java:353-362 | `depMap` afterwards is `Manage` of `depMap` before |
| MavenService.ZeroAicyMavenService.ReadDescriptor | app_rewrite/src/main/java/io/github/zeroaicy/aide/ui/services/ZeroAicyMavenService.java:349-364 | parses the pom, applies its management entries, registers its node and returns that node's exclusions |
| MavenService.ZeroAicyMavenService.CollectPaths | app_rewrite/src/main/java/io/github/zeroaicy/aide/ui/services/ZeroAicyMavenService.java:339-384 | `QX`: list and state afterwards are `Collect`'s |
| MavenService.ZeroAicyMavenService.CollectPathsBelow | app_rewrite/src/main/java/io/github/zeroaicy/aide/ui/services/ZeroAicyMavenService.java:345-379 | `QX` after `str` is listed, as `CollectBelow` specifies |
| MavenService.ZeroAicyMavenService.CollectDependenciesPaths | app_rewrite/src/main/java/io/github/zeroaicy/aide/ui/services/ZeroAicyMavenService.java:366-379 | `QX`'s loop, as `CollectChildren` specifies |
| MavenService.ZeroAicyMavenService.CollectDependencyPaths | app_rewrite/src/main/java/io/github/zeroaicy/aide/ui/services/ZeroAicyMavenService.java:367-378 | one iteration of `QX`'s loop, as `CollectChild` specifies |
| MavenService.ZeroAicyMavenService.DependencyPaths | app_rewrite/src/main/java/io/github/zeroaicy/aide/ui/services/ZeroAicyMavenService.java:407-418 | `Ws`, as `PathsOfTree` specifies |
| MavenService.ZeroAicyMavenService.ResolveFullDependencyTree | app_rewrite/src/main/java/io/github/zeroaicy/aide/ui/services/ZeroAicyMavenService.java:188-195 | as `FullDependencyTree` specifies |
| MavenService.ZeroAicyMavenService.ResolveFullDependencyTreeOfPath | app_rewrite/src/main/java/io/github/zeroaicy/aide/ui/services/ZeroAicyMavenService.java:217-224 | `Ws` without flat repositories |
| MavenService.ZeroAicyMavenService.CollectMissing | app_rewrite/src/main/java/io/github/zeroaicy/aide/ui/services/ZeroAicyMavenService.java:668-708 | `yS`: list and state afterwards are `Missing`'s |
| MavenService.ZeroAicyMavenService.CollectMissingBelow | app_rewrite/src/main/java/io/github/zeroaicy/aide/ui/services/ZeroAicyMavenService.java:675-702 | `yS` below a found dependency, as `MissingBelow` specifies |
| MavenService.ZeroAicyMavenService.CollectMissingDependencies | app_rewrite/src/main/java/io/github/zeroaicy/aide/ui/services/ZeroAicyMavenService.java:695-702 | `yS`'s loop, as `MissingChildren` specifies |
| MavenService.ZeroAicyMavenService.CollectMissingDependency | app_rewrite/src/main/java/io/github/zeroaicy/aide/ui/services/ZeroAicyMavenService.java:695-702 | one iteration of `yS`'s loop, as `MissingChild` specifies |
| MavenService.ZeroAicyMavenService.GetNoDownloadDeps | app_rewrite/src/main/java/io/github/zeroaicy/aide/ui/services/ZeroAicyMavenService.java:29-40 | `yS` from an empty list, three levels deep |
| MavenService.ZeroAicyMavenService.RegisterVersions | app_rewrite/src/main/java/io/github/zeroaicy/aide/ui/services/ZeroAicyMavenService.java:421-478 | `Zo`: state afterwards is `Register`'s |
| MavenService.ZeroAicyMavenService.RegisterVersionsBelow | app_rewrite/src/main/java/io/github/zeroaicy/aide/ui/services/ZeroAicyMavenService.java:444-472 | `Zo` after registering the version, as `RegisterBelow` specifies |
| MavenService.ZeroAicyMavenService.RegisterDependenciesVersions | app_rewrite/src/main/java/io/github/zeroaicy/aide/ui/services/ZeroAicyMavenService.java:465-472 | `Zo`'s loop, as `RegisterChildren` specifies |
| MavenService.ZeroAicyMavenService.RegisterDependencyVersions | app_rewrite/src/main/java/io/github/zeroaicy/aide/ui/services/ZeroAicyMavenService.java:465-472 | one iteration of `Zo`'s loop, as `RegisterChild` specifies |
| MavenService.ZeroAicyMavenService.ResolvingDependency | app_rewrite/src/main/java/io/github/zeroaicy/aide/ui/services/ZeroAicyMavenService.java:172-180 | `Zo` three levels deep |
| ZipListing.StripSlash | app_rewrite/src/main/java/io/github/zeroaicy/aide/extend/ZeroAicyClassFilePreProcessor.java:54-57 | exactly one trailing '/' is removed, when present |
| ZipListing.Listing | app_rewrite/src/main/java/io/github/zeroaicy/aide/extend/ZeroAicyClassFilePreProcessor.java:50-90 | the set `J8` builds, entry by entry; `ListingShape`, `DeeperEntryCollapses`, `KeptLeafListed` and `ListedHasWitness` say what it holds |
| ZipListing.ListDirectory | app_rewrite/src/main/java/io/github/zeroaicy/aide/extend/ZeroAicyClassFilePreProcessor.java:42-97 | the loop collects `Listing` |
| ZipListing.ListingShape | app_rewrite/src/main/java/io/github/zeroaicy/aide/extend/ZeroAicyClassFilePreProcessor.java:58-70 | every listed name is `zipFilePath + "/"` followed by an immediate child of the directory: never a sibling with a common prefix, never a grandchild |
| ZipListing.DeeperEntryCollapses | app_rewrite/src/main/java/io/github/zeroaicy/aide/extend/ZeroAicyClassFilePreProcessor.java:67-70 | an entry deeper down is listed as the immediate child it lies in |
| ZipListing.KeptLeafListed | app_rewrite/src/main/java/io/github/zeroaicy/aide/extend/ZeroAicyClassFilePreProcessor.java:71-78 | an immediate child that is a directory, a top-level `.class` or a `.java` file is listed |
| ZipListing.ListedHasWitness | app_rewrite/src/main/java/io/github/zeroaicy/aide/extend/ZeroAicyClassFilePreProcessor.java:42-97 | conversely, each listed name is accounted for by an entry below it or by a kept leaf of that name |
| DistributeEvents.ContinuationBytes | app_rewrite/src/main/java/io/github/zeroaicy/aide/extend/DistributeEvents.java:83-87 | the inner loop never stores beyond the buffer and never removes a stored byte |
| DistributeEvents.Characters | app_rewrite/src/main/java/io/github/zeroaicy/aide/extend/DistributeEvents.java:70-101 | the outer loop stores at most the buffer's size, takes no byte beyond the stream, and never reports end of stream |
| DistributeEvents.ContinuationBytesCount | app_rewrite/src/main/java/io/github/zeroaicy/aide/extend/DistributeEvents.java:77-88 | the inner loop stores one continuation byte per set bit below the lead's top bit, and overflows iff they do not fit |
| DistributeEvents.CharacterStepCount | app_rewrite/src/main/java/io/github/zeroaicy/aide/extend/DistributeEvents.java:70-101 | one character takes its lead byte and its continuation bytes; the stored bytes are the bytes read, in order |
| DistributeEvents.CharactersShape | app_rewrite/src/main/java/io/github/zeroaicy/aide/extend/DistributeEvents.java:70-102 | the count returned is the number of bytes stored, which are the bytes read in order |
| DistributeEvents.GarbledRepair | app_rewrite/src/main/java/io/github/zeroaicy/aide/extend/DistributeEvents.java:55-104 | -1 is returned exactly for an empty stream; nothing is stored beyond the buffer |
| DistributeEvents.GarbledRepairShape | app_rewrite/src/main/java/io/github/zeroaicy/aide/extend/DistributeEvents.java:55-104 | at end of stream nothing is stored; otherwise the bytes stored are the bytes read, in order, and the count is their number |
| DistributeEvents.AsciiFill | app_rewrite/src/main/java/io/github/zeroaicy/aide/extend/DistributeEvents.java:70-102 | with room for the text plus three bytes, ASCII text is copied whole and its length returned |
| DistributeEvents.NoOverflow | app_rewrite/src/main/java/io/github/zeroaicy/aide/extend/DistributeEvents.java:70-102 | with a buffer of at least four bytes, and no byte the loop takes as a lead byte of the form 11111xxx, the method never indexes past the buffer, whatever the continuation bytes are |
| DistributeEvents.GarbledContinuationFits | app_rewrite/src/main/java/io/github/zeroaicy/aide/extend/DistributeEvents.java:83-88 | a continuation byte 11111xxx is harmless: `C3 FF` fills a four-byte buffer and returns 2 |
| DistributeEvents.ContinuationsOfLead | app_rewrite/src/main/java/io/github/zeroaicy/aide/extend/DistributeEvents.java:77-88 | a lead byte 110xxxxx, 1110xxxx or 11110xxx brings 1, 2 or 3 continuation bytes; a stray continuation byte brings none |
| DistributeEvents.ShiftedBit6 | app_rewrite/src/main/java/io/github/zeroaicy/aide/extend/DistributeEvents.java:83-85 | `(lead << k) & 0x40` on a lead byte tests bit 6-k of that byte, and no bit at all once seven shifts have passed |
| DistributeEvents.StoreRead | app_rewrite/src/main/java/io/github/zeroaicy/aide/extend/DistributeEvents.java:84 | the byte is read before the index is checked: a store past the buffer leaves the buffer unchanged but still consumes its byte |
| DistributeEvents.StoreContinuation | app_rewrite/src/main/java/io/github/zeroaicy/aide/extend/DistributeEvents.java:83-86 | one turn of the inner loop stores the next byte read, or overflows when the buffer is full, as `ContinuationBytes` specifies |
| DistributeEvents.ReadContinuation | app_rewrite/src/main/java/io/github/zeroaicy/aide/extend/DistributeEvents.java:83-87 | the inner loop stores and consumes exactly what `ContinuationBytes` specifies and leaves the rest of the buffer untouched |
| DistributeEvents.StoreCharacter | app_rewrite/src/main/java/io/github/zeroaicy/aide/extend/DistributeEvents.java:71-88 | one character, lead byte then continuation bytes: the buffer and the stream afterwards are those `CharacterStep` specifies |
| DistributeEvents.NextCharacter | app_rewrite/src/main/java/io/github/zeroaicy/aide/extend/DistributeEvents.java:70-101 | one turn of the outer loop either stops with the outcome `Characters` gives or goes on with the next lead byte exactly as `Characters` does |
| DistributeEvents.GarbledRepai | app_rewrite/src/main/java/io/github/zeroaicy/aide/extend/DistributeEvents.java:55-104 | the buffer and the stream afterwards are those `GarbledRepair` specifies; the rest of the buffer is untouched |
| DistributeEvents.NDKEnhancement | app_rewrite/src/main/java/io/github/zeroaicy/aide/extend/DistributeEvents.java:111-124 | a non-Gradle project gets nothing; a Gradle project gets the four layout arguments in order, then the `Application.mk` argument only when that file exists |
| RJava.LessIrreflexive | app_rewrite/src/main/java/com/sdklite/aapt/Aapt.java:45-50 | `compareTo` never orders a key before itself |
| RJava.LessTransitive | app_rewrite/src/main/java/com/sdklite/aapt/Aapt.java:45-50 | `compareTo` ordering is transitive |
| RJava.LessTotal | app_rewrite/src/main/java/com/sdklite/aapt/Aapt.java:45-50 | any two distinct keys are ordered one way or the other |
| RJava.PutKeys | app_rewrite/src/main/java/com/sdklite/aapt/Aapt.java:45-50 | adding a symbol adds only its type name to the map's keys |
| RJava.PutSorted | app_rewrite/src/main/java/com/sdklite/aapt/Aapt.java:45-50 | adding a symbol keeps the keys strictly ascending |
| RJava.PutLookup | app_rewrite/src/main/java/com/sdklite/aapt/Aapt.java:45-50 | adding a symbol appends it to its type's list and leaves every other list unchanged |
| RJava.Grouped | app_rewrite/src/main/java/com/sdklite/aapt/Aapt.java:45-50 | the `TreeMap` the grouping loop builds, one `Put` per symbol; `GroupedRepresents` and `PutSorted` state what it holds |
| RJava.GroupedRepresents | app_rewrite/src/main/java/com/sdklite/aapt/Aapt.java:45-50 | the map maps every type name to exactly the symbols of that type, in iteration order |
| RJava.GroupedClasses | app_rewrite/src/main/java/com/sdklite/aapt/Aapt.java:62-85 | one class per distinct type name, ascending, each listing exactly the symbols of its type, none empty, and none missing |
| RJava.GroupByType | app_rewrite/src/main/java/com/sdklite/aapt/Aapt.java:45-50 | the grouping loop builds `Grouped` |
| RJava.Hex8 | app_rewrite/src/main/java/com/sdklite/aapt/Aapt.java:66-78 | `%08x`: exactly eight lowercase hexadecimal digits; `Hex8RoundTrip` proves they read back as the value's 32-bit pattern |
| RJava.HexDigits | app_rewrite/src/main/java/com/sdklite/aapt/Aapt.java:66-78 | exactly `count` hexadecimal digits |
| RJava.Hex8RoundTrip | app_rewrite/src/main/java/com/sdklite/aapt/Aapt.java:66-78 | `0x%08x` is exact: its digits read back as the value modulo 2^32, a negative value as its two's complement |
| RJava.ValuesTextLength | app_rewrite/src/main/java/com/sdklite/aapt/Aapt.java:66-78 | a styleable of n values prints n literals of ten characters, separated by ", " |
| RJava.ClassesTextHasEachClass | app_rewrite/src/main/java/com/sdklite/aapt/Aapt.java:62-85 | every group's class, with its entries, appears in the text |
| RJava.RText | app_rewrite/src/main/java/com/sdklite/aapt/Aapt.java:44-89 | the text of `R.java`: the header and package, the classes, the closing brace; `ClassesTextHasEachClass` is about it |
| RJava.PrintValues | app_rewrite/src/main/java/com/sdklite/aapt/Aapt.java:66-78 | the writer receives `ValuesText` |
| RJava.PrintEntry | app_rewrite/src/main/java/com/sdklite/aapt/Aapt.java:66-80 | the writer receives the entry's line |
| RJava.PrintClass | app_rewrite/src/main/java/com/sdklite/aapt/Aapt.java:62-85 | the writer receives the class with its entries |
| RJava.GenerateR | app_rewrite/src/main/java/com/sdklite/aapt/Aapt.java:44-89 | the writer receives the header, the package, one class per type in order, and the closing brace |
| AaptResources.KeyInjective | app_rewrite/src/main/java/com/sdklite/aapt/Aapt.java:318-333 | within one directory, different files give different keys |
| AaptResources.FindTypePrefix | app_rewrite/src/main/java/com/sdklite/aapt/Aapt.java:306-311 | true iff some symbol's type name is a prefix of the directory name |
| AaptResources.FindNamePrefix | app_rewrite/src/main/java/com/sdklite/aapt/Aapt.java:318-333 | true iff some symbol's name followed by '.' is a prefix of the file name |
| AaptResources.RecordedExactly | app_rewrite/src/main/java/com/sdklite/aapt/Aapt.java:313-333 | a key is recorded exactly for the listed files that pass the filter |
| AaptResources.EmptyTypeDir | app_rewrite/src/main/java/com/sdklite/aapt/Aapt.java:300-304 | an unlistable or empty type directory is deleted and contributes no key |
| AaptResources.TypeDirSelection | app_rewrite/src/main/java/com/sdklite/aapt/Aapt.java:306-333 | with no symbol type a prefix of the directory name, every file is recorded; otherwise exactly the files named after some symbol |
| AaptResources.FileDeletionsAll | app_rewrite/src/main/java/com/sdklite/aapt/Aapt.java:313-333 | every listed file is deleted, in listing order |
| AaptResources.DirDeletionsOrder | app_rewrite/src/main/java/com/sdklite/aapt/Aapt.java:313-335 | every listed file is deleted, selected or not, and then the directory |
| AaptResources.KeysDeleted | app_rewrite/src/main/java/com/sdklite/aapt/Aapt.java:293-340 | each key returned names a file whose deletion was requested |
| AaptResources.DirKeys | app_rewrite/src/main/java/com/sdklite/aapt/Aapt.java:300-333 | the keys one type directory contributes: none when it cannot be listed or is empty, else the files recorded (`RecordedExactly`, `EmptyTypeDir`) |
| AaptResources.ResourceKeys | app_rewrite/src/main/java/com/sdklite/aapt/Aapt.java:293-340 | the set `deleteResources` returns: nothing when `res/` cannot be listed, else the keys of every type directory |
| AaptResources.AllDeletions | app_rewrite/src/main/java/com/sdklite/aapt/Aapt.java:293-340 | the deletions `deleteResources` requests, type directory by type directory (`DirDeletionsOrder`, `KeysDeleted`) |
| AaptResources.DeleteTypeDir | app_rewrite/src/main/java/com/sdklite/aapt/Aapt.java:298-335 | keys and deletions of one type directory are those `DirKeys` and `DirDeletions` specify |
| AaptResources.DeleteResources | app_rewrite/src/main/java/com/sdklite/aapt/Aapt.java:293-340 | the keys returned and the deletions made are `ResourceKeys` and `AllDeletions` |
| AddFiles.IsJavaSourceDir | app_rewrite/src/main/java/com/aide/common/AddAndroidFiles.java:130-139 | `isJavaSourceDir`: non-empty and containing `java` or `aidl` |
| AddFiles.IsXmlSourceDir | app_rewrite/src/main/java/com/aide/common/AddAndroidFiles.java:140-142 | `isXmlSourceDir`: non-empty and `lastIndexOf("res/") > 0` |
| AddFiles.GetAddTypeName | app_rewrite/src/main/java/com/aide/common/AddAndroidFiles.java:101-109 | a class when `Zo` holds, else XML when `v5` holds, else nothing |
| AddFiles.GetAddTypeName2 | app_rewrite/src/main/java/com/aide/common/AddAndroidFiles.java:86-98 | a class when the path contains `/java`, else XML when `v5` holds, else nothing |
| AddFiles.IsVisible | app_rewrite/src/main/java/com/aide/common/AddAndroidFiles.java:115-117 | `Zo(dirPath) || v5(dirPath)`; `VisibleIffNamed` relates it to `getAddTypeName` |
| AddFiles.JavaSourceDirByContents | app_rewrite/src/main/java/com/aide/common/AddAndroidFiles.java:130-139 | `isJavaSourceDir` holds exactly when the path contains `java` or `aidl` |
| AddFiles.XmlSourceDirByOccurrence | app_rewrite/src/main/java/com/aide/common/AddAndroidFiles.java:140-142 | `isXmlSourceDir` holds exactly when `res/` occurs somewhere after the first character |
| AddFiles.VisibleIffNamed | app_rewrite/src/main/java/com/aide/common/AddAndroidFiles.java:101-121 | the command is visible exactly when it has a title, and the class test is made first |
| AddFiles.NewClassNarrowed | app_rewrite/src/main/java/com/aide/common/AddAndroidFiles.java:86-109 | `getAddTypeName2` offers a class only where `getAddTypeName` does, and offers nothing where it offers nothing |
| AddFiles.AidlDirOnlyOldClass | app_rewrite/src/main/java/com/aide/common/AddAndroidFiles.java:86-139 | an `aidl` directory gets a class from `getAddTypeName` and nothing from `getAddTypeName2` |
| AddFiles.StripSuffix | app_rewrite/src/main/java/com/aide/common/AddAndroidFiles.java:33-35 | one trailing suffix is removed when present |
| AddFiles.NewClassFile | app_rewrite/src/main/java/com/aide/common/AddAndroidFiles.java:32-43 | the path and content `DW` writes for a new class (`ClassSuffixOptional`, `NewClassFileShape`) |
| AddFiles.ClassSuffixOptional | app_rewrite/src/main/java/com/aide/common/AddAndroidFiles.java:33-36 | typing `.java` or leaving it off gives the same file |
| AddFiles.NewClassFileShape | app_rewrite/src/main/java/com/aide/common/AddAndroidFiles.java:36-42 | the class file lies in the directory, is named after the class, declares it, and has a package clause exactly when there is a package |
| AddFiles.XmlTemplate | app_rewrite/src/main/java/com/aide/common/AddAndroidFiles.java:58-66 | the layout template for a directory named `layout…`, else the menu template for `menu…`, else the XML declaration alone |
| AddFiles.NewXmlFile | app_rewrite/src/main/java/com/aide/common/AddAndroidFiles.java:49-68 | the path and content `DW` writes for a new XML file (`XmlTemplateOfDirectory`, `XmlSuffixOptional`) |
| AddFiles.ParentOfChild | app_rewrite/src/main/java/com/aide/common/AddAndroidFiles.java:50-68 | the parent of `dir/<name>` is `dir` for a name without '/' |
| AddFiles.XmlTemplateOfDirectory | app_rewrite/src/main/java/com/aide/common/AddAndroidFiles.java:50-68 | a new XML file gets the template of the directory it is created in: `layout…`, `menu…` or only the XML declaration |
| AddFiles.XmlSuffixOptional | app_rewrite/src/main/java/com/aide/common/AddAndroidFiles.java:50-68 | typing `.xml` or leaving it off gives the same file |

## Left out

- Null arguments and Java exceptions other than the ones modelled (`ArrayIndexOutOfBoundsException` in `GarbledRepai`, the `-1` end-of-stream result) are not modelled. The walks wrap every `Throwable` in an `Error`; the model instead requires the conditions under which nothing is thrown, such as a path long enough for `getDepPomPath`.
- Java `File` path normalisation (duplicate or trailing separators) is not modelled; `File.separator` is '/', and paths are compared as strings.
- The deprecated aliases of the service (`rN`, `lg`, `er`), `refreshMavenCache`, `getDependencyPathMap` and the UI glue around them are not modelled. They only delegate or touch the user interface.
- `depPathMap`'s keys are `MavenDependency` objects compared by their own `equals`; the model keys them by `Collaborators.pathKey`. Identity comparisons such as `artifactNode != cache` become key presence.
- A flat repository map is a `HashMap`; the model takes its entries as a sequence in iteration order.
- `MavenProbe.AarArchiveScenario` covers the first probe only; a second probe after extraction finds the `.exploded.aar` directory, which `ExtractAarIdempotent` and `ResolveIdempotent` cover.
- The contents of an extracted archive, and the unzip's error handling, are not modelled. A readable archive writes its entry names with the current time over the output directory's listing; files already there that the archive does not name stay, with their times. An unreadable archive changes nothing.
- `MavenProbe.FreshAfterUnzip` and `MavenProbe.ExtractAarIdempotent` assume the archive does not lie inside its own output directory.
- `MavenProbe.ExtractAarIdempotent`: idempotence is promised only when no older file is left over in the output directory; `MavenProbe.ExtractAarRepeats` shows that otherwise every call unzips again.
- Exclusions are applied per node, as `QX`, `yS` and `Zo` apply them: a pom's exclusions filter only its own dependencies, and `MavenWalks.ExclusionIsPerNode` shows an excluded coordinate collected through a sibling. No transitive exclusion is modelled, because none of the three walks applies one.
- `isFileAndNotZip` is modelled as `isFile`, and `FileSystem.we` as the listing of a directory.
- `DistributeEvents` reads the stream through `read()` only; the stream is a sequence of bytes.
- `ZipListing.ListDirectory`: the branch of `J8` at lines 79-88 is unreachable, because the test just before it already adds every `.java` name, so it is not modelled. The result is a set: the order of the returned list, which is that of a `HashSet`, is not modelled.
- `AddFiles.V5`: its second disjunct asks the file system and the project service whether the path lies under an app's `res` directory; that answer is the parameter `resUnderAppHome`.
- `AddFiles.NewClassFile`: the package the directory maps to (`AndroidProjectSupport.Ev`) is the parameter `pkg`. The file writes and dialogs of `DW` are not modelled.
- `DistributeEvents.NDKEnhancement`: whether the project is a Gradle project (`isGradleProject`) and whether `Application.mk` exists are parameters.
- `Symbols.java` and `Internal.java` are not part of this model. A symbol is given by its type name, kind, name and value or values. `Internal.find` is modelled as an existential search over the symbols in iteration order.
- `RJava.Less` compares characters by code point; Java's `String.compareTo` compares UTF-16 code units. These agree on the characters of resource type names.
- `RJava.GenerateR`: the line separator of `PrintWriter.println` is taken as "\n". The `File` and `String` overloads of `generateR`, and `setApplicationDebuggable`, are not modelled.
- `AaptResources.DeleteResources`: the results of `File.delete()` are ignored, as in the source; the model records the calls made.
- The build steps of `DistributeEvents` other than `GarbledRepai` and `NDKEenhancement` (compilers, training, UI events) are not modelled.
