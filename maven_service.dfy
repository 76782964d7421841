/**
 * `ZeroAicyMavenService`: the object holding `depMap` (groupId:artifactId to
 * the registered node) and `depPathMap` (dependency to its path in a local
 * repository, "" when known absent). Every method is proved to compute what
 * the corresponding function of `MavenProbe` or `MavenWalks` specifies.
 */
module MavenService {
  import opened Wrappers
  import opened JavaStrings
  import opened FileModel
  import opened MavenModel
  import opened MavenProbe
  import opened MavenWalks

  class ZeroAicyMavenService {
    var depMap: DepMap
    var depPathMap: map<string, string>
    const disk: Disk
    const env: Env
    const lib: Collaborators

    ghost predicate Valid()
      reads this, disk
    {
      && disk.Valid()
      && CacheWellFormed(depPathMap)
      && SoundLookup(ServiceLookup(lib, env))
      && RecordingLookup(ServiceLookup(lib, env))
    }

    /** The state the walks read and change. */
    function Snapshot(): World
      reads this, disk
    {
      World(depMap, depPathMap, disk.state)
    }

    constructor (disk: Disk, env: Env, lib: Collaborators)
      requires disk.Valid()
      ensures Valid()
      ensures depMap == map[] && depPathMap == map[]
      ensures this.disk == disk && this.env == env && this.lib == lib
    {
      this.disk := disk;
      this.env := env;
      this.lib := lib;
      depMap := map[];
      depPathMap := map[];
      new;
      ServiceLookupSound(lib, env);
      ServiceLookupRecords(lib, env);
    }

    /** `resetDepMap` */
    method ResetDepMap()
      requires Valid()
      modifies this
      ensures Valid()
      ensures depMap == map[] && depPathMap == old(depPathMap)
    {
      depMap := map[];
    }

    /** `resetDepPathMap`: every dependency is looked up again on its next resolution. */
    method ResetDepPathMap()
      requires Valid()
      modifies this
      ensures Valid()
      ensures depPathMap == map[] && depMap == old(depMap)
    {
      depPathMap := map[];
    }

    /** `makeDep`: the node registered under `dep`'s key, registering `dep` when the key is new. */
    method MakeDep(dep: Dependency) returns (node: Dependency)
      requires Valid()
      modifies this
      ensures Valid()
      ensures node == CanonicalNode(old(depMap), dep)
      ensures depMap == AfterMakeDep(old(depMap), dep) && depPathMap == old(depPathMap)
    {
      var key := GroupIdArtifactId(dep);
      if key in depMap {
        node := depMap[key];
      } else {
        node := dep;
        depMap := depMap[key := node];
      }
    }

    // -------------------------------------------------------------------------
    // Extraction
    // -------------------------------------------------------------------------

    /** `P8(archive, outDir)` */
    method IsExtractionFresh(archive: string, outDir: string) returns (upToDate: bool)
      ensures upToDate == Fresh(disk.state, archive, outDir)
    {
      var fs := disk.state;
      if !fs.IsDirectory(outDir) {
        return false;
      }
      var listing := fs.ListFiles(outDir);
      if listing.None? {
        return true;
      }
      var children := listing.value;
      var lastModified := fs.LastModified(archive);
      for i := 0 to |children|
        invariant forall j :: 0 <= j < i ==> !(fs.IsFile(children[j]) && fs.LastModified(children[j]) < lastModified)
      {
        if fs.IsFile(children[i]) && fs.LastModified(children[i]) < lastModified {
          return false;
        }
      }
      return true;
    }

    /** `extractedAar(archive, outDir)` */
    method ExtractedAar(archive: string, outDir: string)
      requires Valid()
      modifies disk
      ensures Valid()
      ensures disk.state == ExtractAar(old(disk.state), archive, outDir)
    {
      var upToDate := IsExtractionFresh(archive, outDir);
      if !upToDate {
        var _ := disk.Unzip(archive, outDir);
      }
    }

    // -------------------------------------------------------------------------
    // Probing the repositories
    // -------------------------------------------------------------------------

    /** `searchLocalDepVersion(artifactIdDir, searchVersion)` */
    method SearchLocalDepVersion(artifactIdDir: string, searchVersion: string) returns (version: Option<string>)
      ensures version == LocalVersion(disk.state, lib, artifactIdDir, searchVersion)
    {
      var metadataPath := artifactIdDir + "/maven-metadata.xml";
      version := None;
      if disk.state.IsFile(metadataPath) {
        version := lib.metadataVersion(metadataPath, searchVersion);
      }
      if version.Some? {
        return;
      }
      var listing := disk.state.ListFiles(artifactIdDir);
      if listing.None? {
        return None;
      }
      var versions := VersionNames(listing.value);
      version := lib.pickVersion(versions, searchVersion);
    }

    /** The loop of `searchLocalDepVersion` collecting the name of every listed version directory. */
    static method VersionNames(children: seq<string>) returns (versions: seq<string>)
      ensures versions == Names(children)
    {
      versions := [];
      for i := 0 to |children|
        invariant |versions| == i
        invariant forall j :: 0 <= j < i ==> versions[j] == LastSegment(children[j])
      {
        versions := versions + [LastSegment(children[i])];
      }
    }

    /** `getArtifactCachePath(root, groupId, artifactId, version, packaging)` */
    method GetArtifactCachePath(root: string, groupId: string, artifactId: string, version: string, packaging: string)
      returns (path: Option<string>)
      requires Valid()
      modifies disk
      ensures Valid()
      ensures Probe(path, disk.state) == ArtifactCachePath(old(disk.state), lib, root, groupId, artifactId, version, packaging)
    {
      var artifactIdDir := root + "/" + DotsToSlashes(groupId) + "/" + artifactId;
      if !disk.state.IsDirectory(artifactIdDir) {
        return None;
      }
      var searchVersion := SearchLocalDepVersion(artifactIdDir, version);
      if searchVersion.None? {
        return None;
      }
      var v := searchVersion.value;
      var base := artifactIdDir + "/" + v + "/" + artifactId + "-" + v;
      assert base == ArtifactBase(root, groupId, artifactId, v);
      if packaging == "pom" && disk.state.IsFile(base + ".pom") {
        return Some(base + ".pom");
      }
      if disk.state.IsFile(base + ".jar") {
        return Some(base + ".jar");
      }
      if disk.state.IsDirectory(base + ".aar") {
        return Some(base + ".aar");
      }
      if disk.state.IsDirectory(base + ".exploded.aar") {
        return Some(base + ".exploded.aar");
      }
      if disk.state.IsFile(base + ".aar") {
        ExtractedAar(base + ".aar", base + ".exploded.aar");
        return Some(base + ".exploded.aar");
      }
      return None;
    }

    /** `getRepositoriePaths()` */
    method GetRepositoriePaths() returns (paths: seq<string>)
      ensures paths == RepositoryPaths(env)
    {
      var parts := JavaSplit(env.repositoryPref, ';');
      paths := [];
      for i := 0 to |parts|
        invariant paths == NonEmptyTrimmed(parts[..i])
      {
        assert parts[..i + 1][..i] == parts[..i];
        var trimmed := Trim(parts[i]);
        if trimmed != "" {
          paths := paths + [trimmed];
        }
      }
      assert parts[..|parts|] == parts;
      paths := paths + [DefaultRepositoryPath(env)];
    }

    /** `getMavenDependencyPath(dep)`: the first repository root in which the artifact is found. */
    method GetMavenDependencyPath(dep: Dependency) returns (path: Option<string>)
      requires Valid()
      modifies disk
      ensures Valid()
      ensures Probe(path, disk.state) == FirstProbe(old(disk.state), lib, RepositoryPaths(env), dep)
    {
      var roots := GetRepositoriePaths();
      var i := 0;
      while i < |roots|
        invariant 0 <= i <= |roots|
        invariant Valid() && disk.state == old(disk.state)
        invariant FirstProbe(disk.state, lib, roots, dep) == FirstProbe(disk.state, lib, roots[i..], dep)
      {
        path := GetArtifactCachePath(roots[i], dep.groupId, dep.artifactId, dep.version, dep.packaging);
        if path.Some? {
          return;
        }
        i := i + 1;
      }
      return None;
    }

    /** `getFlatArtifactPath(flatDir, groupId, artifactId, version)`; the groupId plays no part. */
    method GetFlatArtifactPath(flatDir: string, groupId: string, artifactId: string, version: string) returns (path: Option<string>)
      ensures path == FlatArtifactPath(disk.state, lib, flatDir, artifactId, version)
    {
      var artifactPath := flatDir + "/" + artifactId + ".aar";
      if disk.state.Exists(artifactPath) {
        return Some(artifactPath);
      }
      var listing := disk.state.ListFiles(flatDir);
      if listing.None? {
        return None;
      }
      var children := listing.value;
      var i := 0;
      while i < |children|
        invariant 0 <= i <= |children|
        invariant FirstFlatMatch(lib, children, 0, artifactId, version) == FirstFlatMatch(lib, children, i, artifactId, version)
      {
        var name := LastSegment(children[i]);
        if StartsWith(name, artifactId + "-") && EndsWith(name, ".aar") {
          FlatAffixesFit(name, artifactId);
          if lib.matchVersion(name[|artifactId| + 1..|name| - 4], version) {
            return Some(children[i]);
          }
        }
        i := i + 1;
      }
      return None;
    }

    /** The loop of `resolveMavenDepPath` over the flat repositories: the first one holding the artifact. */
    method FindFlatArtifact(repos: seq<(string, string)>, dep: Dependency) returns (hit: Option<(string, string)>)
      ensures hit == FlatHit(disk.state, lib, repos, dep)
    {
      var i := 0;
      while i < |repos|
        invariant 0 <= i <= |repos|
        invariant FlatHit(disk.state, lib, repos, dep) == FlatHit(disk.state, lib, repos[i..], dep)
      {
        var found := GetFlatArtifactPath(repos[i].0, dep.groupId, dep.artifactId, dep.version);
        if found.Some? {
          return Some((found.value, repos[i].1));
        }
        i := i + 1;
      }
      return None;
    }

    /** `resolveMavenDepPath(flats, dep)` */
    method ResolveMavenDepPath(flats: Flats, dep: Dependency) returns (path: Option<string>)
      requires Valid()
      modifies this, disk
      ensures Valid()
      ensures Resolution(path, depPathMap, disk.state) == Resolve(old(disk.state), lib, env, old(depPathMap), flats, dep)
      ensures depMap == old(depMap)
    {
      if flats.Some? {
        var hit := FindFlatArtifact(flats.value, dep);
        if hit.Some? {
          var name := LastSegment(hit.value.0);
          var exploded := hit.value.1 + "/" + name[..|name| - 4] + ".exploded.aar";
          ExtractedAar(hit.value.0, exploded);
          return Some(exploded);
        }
      }
      path := LookupRepositories(dep);
    }

    /** The path cache, then every repository root, remembering the outcome ("" for absent). */
    method LookupRepositories(dep: Dependency) returns (path: Option<string>)
      requires Valid()
      modifies this, disk
      ensures Valid()
      ensures Resolution(path, depPathMap, disk.state) == RepositoryLookup(old(disk.state), lib, env, old(depPathMap), dep)
      ensures depMap == old(depMap)
    {
      var key := lib.pathKey(dep);
      if key in depPathMap {
        var cached := depPathMap[key];
        if |cached| == 0 {
          return None;
        }
        return Some(cached);
      }
      path := GetMavenDependencyPath(dep);
      if path.None? {
        depPathMap := depPathMap[key := ""];
      } else {
        depPathMap := depPathMap[key := path.value];
      }
    }

    /** The public `resolveMavenDepPath(dep)`: no flat repositories. */
    method ResolveMavenDepPathWithoutFlats(dep: Dependency) returns (path: Option<string>)
      requires Valid()
      modifies this, disk
      ensures Valid()
      ensures Resolution(path, depPathMap, disk.state) == Resolve(old(disk.state), lib, env, old(depPathMap), None, dep)
      ensures depMap == old(depMap)
    {
      path := ResolveMavenDepPath(None, dep);
    }

    /** `existsLocalMavenCache(flats, dep)`: whether the node `makeDep(dep)` registers resolves. */
    method ExistsLocalMavenCache(flats: Flats, dep: Dependency) returns (exists_: bool)
      requires Valid()
      modifies this, disk
      ensures Valid()
      ensures var r := Resolve(old(disk.state), lib, env, old(depPathMap), flats, CanonicalNode(old(depMap), dep));
              && exists_ == r.path.Some?
              && depPathMap == r.cache && disk.state == r.fs
              && depMap == AfterMakeDep(old(depMap), dep)
    {
      var node := MakeDep(dep);
      var path := ResolveMavenDepPath(flats, node);
      exists_ := path.Some?;
    }

    // -------------------------------------------------------------------------
    // Reading a pom
    // -------------------------------------------------------------------------

    /** The dependencyManagement loop: `makeDep(e)`, and a strictly greater version replaces an existing node. */
    method ApplyDependencyManagement(entries: seq<Dependency>)
      requires Valid()
      modifies this
      ensures Valid()
      ensures depMap == Manage(old(depMap), entries, lib.compare) && depPathMap == old(depPathMap)
    {
      for i := 0 to |entries|
        invariant Valid()
        invariant depMap == Manage(old(depMap), entries[..i], lib.compare) && depPathMap == old(depPathMap)
      {
        assert entries[..i + 1][..i] == entries[..i];
        var entry := entries[i];
        // `entry != cache` after `makeDep`: the key was registered before
        var registered := GroupIdArtifactId(entry) in depMap;
        var cache := MakeDep(entry);
        if registered && lib.compare(entry.version, cache.version) > 0 {
          depMap := depMap[GroupIdArtifactId(entry) := entry];
        }
      }
      assert entries[..|entries|] == entries;
    }

    /** Parses the pom at `pomPath`, applies its management entries and registers its own node, whose exclusions are returned. */
    method ReadDescriptor(pomPath: string) returns (pom: Pom, exclusions: set<string>)
      requires Valid()
      modifies this
      ensures Valid()
      ensures pom == lib.pomOf(pomPath)
      ensures ExpandPom(old(depMap), pom, lib.compare) == Expansion(depMap, exclusions)
      ensures depPathMap == old(depPathMap)
    {
      pom := lib.pomOf(pomPath);
      ApplyDependencyManagement(pom.depManages);
      var self := MakeDep(pom.self);
      exclusions := self.exclusions;
    }

    // -------------------------------------------------------------------------
    // The walks
    // -------------------------------------------------------------------------

    /** `QX(flats, str, depPaths, depth)` */
    method CollectPaths(flats: Flats, str: string, depPaths: seq<string>, depth: nat) returns (paths: seq<string>)
      requires Valid()
      requires depth >= 1 && str !in depPaths ==> |str| >= 4
      modifies this, disk
      ensures Valid()
      ensures Walk(Snapshot(), paths) == Collect(lib, ServiceLookup(lib, env), old(Snapshot()), flats, str, depPaths, depth)
      decreases depth, 1
    {
      if str in depPaths {
        return depPaths;
      }
      paths := CollectPathsBelow(flats, str, depPaths + [str], depth);
    }

    /** `QX` once `str` is listed. */
    method CollectPathsBelow(flats: Flats, str: string, depPaths: seq<string>, depth: nat) returns (paths: seq<string>)
      requires Valid()
      requires depth >= 1 ==> |str| >= 4
      modifies this, disk
      ensures Valid()
      ensures Walk(Snapshot(), paths) == CollectBelow(lib, ServiceLookup(lib, env), old(Snapshot()), flats, str, depPaths, depth)
      decreases depth, 0
    {
      paths := depPaths;
      if depth == 0 {
        return;
      }
      var pom, exclusions := ReadDescriptor(DepPomPath(str));
      paths := CollectDependenciesPaths(flats, exclusions, pom.deps, depPaths, depth - 1);
    }

    /** `QX`'s loop over the dependencies of a pom. */
    method CollectDependenciesPaths(flats: Flats, exclusions: set<string>, deps: seq<Dependency>, depPaths: seq<string>, depth: nat)
      returns (paths: seq<string>)
      requires Valid()
      modifies this, disk
      ensures Valid()
      ensures Walk(Snapshot(), paths) == CollectChildren(lib, ServiceLookup(lib, env), old(Snapshot()), flats, exclusions, deps, 0, depPaths, depth)
      decreases depth, 3
    {
      paths := depPaths;
      for i := 0 to |deps|
        invariant Valid()
        invariant CollectChildren(lib, ServiceLookup(lib, env), old(Snapshot()), flats, exclusions, deps, 0, depPaths, depth)
               == CollectChildren(lib, ServiceLookup(lib, env), Snapshot(), flats, exclusions, deps, i, paths, depth)
      {
        paths := CollectDependencyPaths(flats, exclusions, deps[i], paths, depth);
      }
    }

    /** One iteration of `QX`'s loop. */
    method CollectDependencyPaths(flats: Flats, exclusions: set<string>, child: Dependency, depPaths: seq<string>, depth: nat)
      returns (paths: seq<string>)
      requires Valid()
      modifies this, disk
      ensures Valid()
      ensures Walk(Snapshot(), paths) == CollectChild(lib, ServiceLookup(lib, env), old(Snapshot()), flats, exclusions, child, depPaths, depth)
      decreases depth, 2
    {
      paths := depPaths;
      if Followed(exclusions, child) {
        var node := MakeDep(child);
        var childPath := ResolveMavenDepPath(flats, node);
        if childPath.Some? {
          paths := CollectPaths(flats, childPath.value, depPaths, depth);
        }
      }
    }

    /** `Ws(flats, depPath)` */
    method DependencyPaths(flats: Flats, depPath: Option<string>) returns (paths: seq<string>)
      requires Valid()
      requires depPath.Some? ==> |depPath.value| >= 4
      modifies this, disk
      ensures Valid()
      ensures Walk(Snapshot(), paths) == PathsOfTree(lib, ServiceLookup(lib, env), old(Snapshot()), flats, depPath)
    {
      paths := [];
      if depPath.Some? {
        paths := CollectPaths(flats, depPath.value, paths, 3);
      }
    }

    /** `resolveFullDependencyTree(flats, dep)` */
    method ResolveFullDependencyTree(flats: Flats, dep: Dependency) returns (paths: seq<string>)
      requires Valid()
      modifies this, disk
      ensures Valid()
      ensures Walk(Snapshot(), paths) == FullDependencyTree(lib, ServiceLookup(lib, env), old(Snapshot()), flats, dep)
    {
      var node := MakeDep(dep);
      var depPath := ResolveMavenDepPath(flats, node);
      paths := DependencyPaths(flats, depPath);
    }

    /** `resolveFullDependencyTree(depPath)`: `Ws` without flat repositories. */
    method ResolveFullDependencyTreeOfPath(depPath: string) returns (paths: seq<string>)
      requires Valid()
      requires |depPath| >= 4
      modifies this, disk
      ensures Valid()
      ensures Walk(Snapshot(), paths) == PathsOfTree(lib, ServiceLookup(lib, env), old(Snapshot()), None, Some(depPath))
    {
      paths := DependencyPaths(None, Some(depPath));
    }

    /** `yS(flats, dep, list, depth)` */
    method CollectMissing(flats: Flats, dep: Dependency, list: seq<Dependency>, depth: nat) returns (missing: seq<Dependency>)
      requires Valid()
      modifies this, disk
      ensures Valid()
      ensures Walk(Snapshot(), missing) == Missing(lib, ServiceLookup(lib, env), old(Snapshot()), flats, dep, list, depth)
      decreases depth, 1
    {
      var node := MakeDep(dep);
      var path := ResolveMavenDepPath(flats, node);
      if path.None? {
        return list + [dep];
      }
      missing := CollectMissingBelow(flats, path.value, list, depth);
    }

    /** `yS` once the dependency was found at `path`. */
    method CollectMissingBelow(flats: Flats, path: string, list: seq<Dependency>, depth: nat) returns (missing: seq<Dependency>)
      requires Valid() && WellFormedPath(path)
      modifies this, disk
      ensures Valid()
      ensures Walk(Snapshot(), missing) == MissingBelow(lib, ServiceLookup(lib, env), old(Snapshot()), flats, path, list, depth)
      decreases depth, 0
    {
      missing := list;
      if depth == 0 {
        return;
      }
      var pom, exclusions := ReadDescriptor(DepPomPath(path));
      missing := CollectMissingDependencies(flats, exclusions, pom.deps, list, depth - 1);
    }

    /** `yS`'s loop over the dependencies of a pom. */
    method CollectMissingDependencies(flats: Flats, exclusions: set<string>, deps: seq<Dependency>, list: seq<Dependency>, depth: nat)
      returns (missing: seq<Dependency>)
      requires Valid()
      modifies this, disk
      ensures Valid()
      ensures Walk(Snapshot(), missing) == MissingChildren(lib, ServiceLookup(lib, env), old(Snapshot()), flats, exclusions, deps, 0, list, depth)
      decreases depth, 3
    {
      missing := list;
      for i := 0 to |deps|
        invariant Valid()
        invariant MissingChildren(lib, ServiceLookup(lib, env), old(Snapshot()), flats, exclusions, deps, 0, list, depth)
               == MissingChildren(lib, ServiceLookup(lib, env), Snapshot(), flats, exclusions, deps, i, missing, depth)
      {
        missing := CollectMissingDependency(flats, exclusions, deps[i], missing, depth);
      }
    }

    /** One iteration of `yS`'s loop. */
    method CollectMissingDependency(flats: Flats, exclusions: set<string>, child: Dependency, list: seq<Dependency>, depth: nat)
      returns (missing: seq<Dependency>)
      requires Valid()
      modifies this, disk
      ensures Valid()
      ensures Walk(Snapshot(), missing) == MissingChild(lib, ServiceLookup(lib, env), old(Snapshot()), flats, exclusions, child, list, depth)
      decreases depth, 2
    {
      missing := list;
      if Followed(exclusions, child) {
        missing := CollectMissing(flats, child, list, depth);
      }
    }

    /** `getNoDownloadDeps(flats, dep)` */
    method GetNoDownloadDeps(flats: Flats, dep: Dependency) returns (missing: seq<Dependency>)
      requires Valid()
      modifies this, disk
      ensures Valid()
      ensures Walk(Snapshot(), missing) == NoDownloadDeps(lib, ServiceLookup(lib, env), old(Snapshot()), flats, dep)
    {
      missing := CollectMissing(flats, dep, [], 3);
    }

    /** `Zo(dep, depth)` */
    method RegisterVersions(dep: Dependency, depth: nat)
      requires Valid()
      modifies this, disk
      ensures Valid()
      ensures Snapshot() == Register(lib, ServiceLookup(lib, env), old(Snapshot()), dep, depth)
      decreases depth, 1
    {
      var path := ResolveMavenDepPath(None, dep);
      if path.None? {
        return;
      }
      WellFormedHasVersion(path.value);
      var version := VersionOfPath(path.value);
      var key := GroupIdArtifactId(dep);
      if key !in depMap || lib.compare(version, depMap[key].version) > 0 {
        depMap := depMap[key := dep.(version := version)];
      }
      RegisterVersionsBelow(path.value, depth);
    }

    /** `Zo` once the version of the dependency found at `path` is registered. */
    method RegisterVersionsBelow(path: string, depth: nat)
      requires Valid() && WellFormedPath(path)
      modifies this, disk
      ensures Valid()
      ensures Snapshot() == RegisterBelow(lib, ServiceLookup(lib, env), old(Snapshot()), path, depth)
      decreases depth, 0
    {
      if depth == 0 {
        return;
      }
      var pom, exclusions := ReadDescriptor(DepPomPath(path));
      RegisterDependenciesVersions(exclusions, pom.deps, depth - 1);
    }

    /** `Zo`'s loop over the dependencies of a pom. */
    method RegisterDependenciesVersions(exclusions: set<string>, deps: seq<Dependency>, depth: nat)
      requires Valid()
      modifies this, disk
      ensures Valid()
      ensures Snapshot() == RegisterChildren(lib, ServiceLookup(lib, env), old(Snapshot()), exclusions, deps, 0, depth)
      decreases depth, 3
    {
      for i := 0 to |deps|
        invariant Valid()
        invariant RegisterChildren(lib, ServiceLookup(lib, env), old(Snapshot()), exclusions, deps, 0, depth)
               == RegisterChildren(lib, ServiceLookup(lib, env), Snapshot(), exclusions, deps, i, depth)
      {
        RegisterDependencyVersions(exclusions, deps[i], depth);
      }
    }

    /** One iteration of `Zo`'s loop. */
    method RegisterDependencyVersions(exclusions: set<string>, child: Dependency, depth: nat)
      requires Valid()
      modifies this, disk
      ensures Valid()
      ensures Snapshot() == RegisterChild(lib, ServiceLookup(lib, env), old(Snapshot()), exclusions, child, depth)
      decreases depth, 2
    {
      if Followed(exclusions, child) {
        RegisterVersions(child, depth);
      }
    }

    /** `resolvingDependency(dep)`: `Zo` three levels deep. */
    method ResolvingDependency(dep: Dependency)
      requires Valid()
      modifies this, disk
      ensures Valid()
      ensures Snapshot() == Register(lib, ServiceLookup(lib, env), old(Snapshot()), dep, 3)
    {
      RegisterVersions(dep, 3);
    }
  }
}
