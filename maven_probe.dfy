/**
 * What the resolver finds on disk, as functions of the file system state:
 * extraction freshness, the local version search, the probe order in one
 * repository, flat repositories, and the cached lookup `resolveMavenDepPath`.
 * The methods of `MavenService` are proved to compute exactly these.
 */
module MavenProbe {
  import opened Wrappers
  import opened JavaStrings
  import opened FileModel
  import opened MavenModel

  // ---------------------------------------------------------------------------
  // Extraction
  // ---------------------------------------------------------------------------

  /**
   * `P8(archive, outDir)`: false when `outDir` is not a directory, true when
   * its listing is null, otherwise true iff no regular file in it is older
   * than the archive.
   */
  predicate Fresh(fs: FsState, archive: string, outDir: string) {
    if !fs.IsDirectory(outDir) then false
    else match fs.ListFiles(outDir)
      case None => true
      case Some(children) =>
        forall i :: 0 <= i < |children| ==>
          !(fs.IsFile(children[i]) && fs.LastModified(children[i]) < fs.LastModified(archive))
  }

  /** `extractedAar`: nothing when `P8` holds, otherwise an unzip whose IOException is swallowed. */
  function ExtractAar(fs: FsState, archive: string, outDir: string): (fs': FsState)
    ensures fs.Valid() ==> fs'.Valid()
  {
    if Fresh(fs, archive, outDir) then fs else Unzipped(fs, archive, outDir)
  }

  /** An existing directory without regular files counts as fresh, even an empty one. */
  lemma EmptyDirectoryIsFresh(fs: FsState, archive: string, outDir: string)
    requires fs.IsDirectory(outDir)
    requires fs.ListFiles(outDir).Some? ==> forall c :: c in fs.ListFiles(outDir).value ==> !fs.IsFile(c)
    ensures Fresh(fs, archive, outDir)
  {
    if fs.ListFiles(outDir).Some? {
      var children := fs.ListFiles(outDir).value;
      forall i | 0 <= i < |children|
        ensures !fs.IsFile(children[i])
      {
        assert children[i] in children;
      }
    }
  }

  /**
   * A regular file listed in `outDir`, older than `archive`, that unzipping
   * the archive does not overwrite.
   */
  predicate StaleLeftover(fs: FsState, archive: string, outDir: string)
    requires archive in fs.archives
  {
    var before := if fs.ListFiles(outDir).Some? then fs.ListFiles(outDir).value else [];
    exists p :: p in before && p !in ExtractedChildren(outDir, fs.archives[archive])
                && fs.IsFile(p) && fs.LastModified(p) < fs.LastModified(archive)
  }

  /**
   * Once a readable archive (not itself inside `outDir`) is unzipped, `P8`
   * holds exactly when no older regular file was left in `outDir`; with
   * one, every later `extractedAar` unzips again.
   */
  lemma {:induction false} FreshAfterUnzip(fs: FsState, archive: string, outDir: string)
    requires fs.Valid() && archive in fs.archives
    requires !StartsWith(archive, outDir + "/")
    ensures Fresh(Unzipped(fs, archive, outDir), archive, outDir) <==> !StaleLeftover(fs, archive, outDir)
  {
    var fs' := Unzipped(fs, archive, outDir);
    var children := ExtractedChildren(outDir, fs.archives[archive]);
    var before := if fs.ListFiles(outDir).Some? then fs.ListFiles(outDir).value else [];
    var kept := Untouched(before, children);
    var all := kept + children;
    assert fs'.ListFiles(outDir) == Some(all);
    assert archive !in children by {
      forall i | 0 <= i < |children|
        ensures children[i] != archive
      {
        assert children[i][..|outDir + "/"|] == outDir + "/";
      }
    }
    assert fs'.LastModified(archive) == fs.LastModified(archive);
    if StaleLeftover(fs, archive, outDir) {
      var p :| p in before && p !in children && fs.IsFile(p) && fs.LastModified(p) < fs.LastModified(archive);
      assert p in kept;
      var i :| 0 <= i < |kept| && kept[i] == p;
      assert all[i] == p && fs'.IsFile(p) && fs'.LastModified(p) == fs.LastModified(p);
    } else {
      forall i | 0 <= i < |all|
        ensures !(fs'.IsFile(all[i]) && fs'.LastModified(all[i]) < fs'.LastModified(archive))
      {
        var p := all[i];
        if p in children {
          assert fs'.mtime[p] == fs.clock;
        } else {
          assert p in kept;
        }
      }
    }
  }

  /**
   * Extraction is idempotent when it leaves no older file behind: after one
   * `extractedAar`, `P8` holds and a second call changes nothing.
   */
  lemma ExtractAarIdempotent(fs: FsState, archive: string, outDir: string)
    requires fs.Valid() && !StartsWith(archive, outDir + "/")
    requires archive in fs.archives ==> !StaleLeftover(fs, archive, outDir)
    ensures archive in fs.archives ==> Fresh(ExtractAar(fs, archive, outDir), archive, outDir)
    ensures ExtractAar(ExtractAar(fs, archive, outDir), archive, outDir) == ExtractAar(fs, archive, outDir)
  {
    if !Fresh(fs, archive, outDir) && archive in fs.archives {
      FreshAfterUnzip(fs, archive, outDir);
    }
  }

  /** A stale leftover is never overwritten, so every `extractedAar` unzips the archive again. */
  lemma ExtractAarRepeats(fs: FsState, archive: string, outDir: string)
    requires fs.Valid() && archive in fs.archives && !StartsWith(archive, outDir + "/")
    requires StaleLeftover(fs, archive, outDir)
    ensures !Fresh(fs, archive, outDir)
    ensures ExtractAar(fs, archive, outDir) == Unzipped(fs, archive, outDir)
    ensures StaleLeftover(ExtractAar(fs, archive, outDir), archive, outDir)
  {
    var children := ExtractedChildren(outDir, fs.archives[archive]);
    var before := if fs.ListFiles(outDir).Some? then fs.ListFiles(outDir).value else [];
    var p :| p in before && p !in children && fs.IsFile(p) && fs.LastModified(p) < fs.LastModified(archive);
    var i :| 0 <= i < |before| && before[i] == p;
    assert fs.ListFiles(outDir).Some?;
    FreshAfterUnzip(fs, archive, outDir);
    var fs' := Unzipped(fs, archive, outDir);
    assert p in Untouched(before, children);
    assert fs'.ListFiles(outDir).value == Untouched(before, children) + children;
  }

  // ---------------------------------------------------------------------------
  // Local version search
  // ---------------------------------------------------------------------------

  /** The names (`FileSystem.getName`) of a listing. */
  function Names(children: seq<string>): seq<string> {
    seq(|children|, i requires 0 <= i < |children| => LastSegment(children[i]))
  }

  /**
   * `searchLocalDepVersion`: the version the metadata index gives when the
   * index is a file and knows the query; otherwise the choice among the names
   * in the artifact directory, or null when it cannot be listed.
   */
  function LocalVersion(fs: FsState, lib: Collaborators, artifactIdDir: string, query: string): Option<string> {
    var metadataPath := artifactIdDir + "/maven-metadata.xml";
    var indexed := if fs.IsFile(metadataPath) then lib.metadataVersion(metadataPath, query) else None;
    if indexed.Some? then indexed
    else match fs.ListFiles(artifactIdDir)
      case None => None
      case Some(children) => lib.pickVersion(Names(children), query)
  }

  /**
   * The cases of `searchLocalDepVersion`: an answer of the metadata index
   * wins; without one, an unlistable directory gives null, and otherwise the
   * choice is made among the names of the listed entries, one per entry, in
   * listing order, each the last segment of its entry.
   */
  lemma LocalVersionCases(fs: FsState, lib: Collaborators, artifactIdDir: string, query: string)
    ensures var metadataPath := artifactIdDir + "/maven-metadata.xml";
            var r := LocalVersion(fs, lib, artifactIdDir, query);
            if fs.IsFile(metadataPath) && lib.metadataVersion(metadataPath, query).Some? then
              r == lib.metadataVersion(metadataPath, query)
            else match fs.ListFiles(artifactIdDir)
              case None => r.None?
              case Some(children) =>
                var names := Names(children);
                && r == lib.pickVersion(names, query)
                && |names| == |children|
                && forall i :: 0 <= i < |names| ==> '/' !in names[i] && EndsWith(children[i], names[i])
  {
  }

  /** When the metadata index answers, the directory's listing is never consulted. */
  lemma IndexedVersionIgnoresListing(fs: FsState, fs': FsState, lib: Collaborators, artifactIdDir: string, query: string)
    requires var metadataPath := artifactIdDir + "/maven-metadata.xml";
             fs.IsFile(metadataPath) && fs'.IsFile(metadataPath) && lib.metadataVersion(metadataPath, query).Some?
    ensures LocalVersion(fs, lib, artifactIdDir, query) == LocalVersion(fs', lib, artifactIdDir, query)
  {
  }

  // ---------------------------------------------------------------------------
  // Probing one repository
  // ---------------------------------------------------------------------------

  /** A path found (or not) together with the file system after any extraction. */
  datatype Probe = Probe(path: Option<string>, fs: FsState)

  /**
   * `getArtifactCachePath`: null without the artifactId directory or a version;
   * otherwise the first of `.pom` (pom packaging only), `.jar` file, `.aar`
   * directory, `.exploded.aar` directory, and an `.aar` file, which is
   * extracted into the `.exploded.aar` sibling that is returned.
   */
  function ArtifactCachePath(fs: FsState, lib: Collaborators, root: string,
                            groupId: string, artifactId: string, version: string, packaging: string): (r: Probe)
    ensures r.path.None? ==> r.fs == fs
    ensures r.path.Some? ==> WellFormedPath(r.path.value)
    ensures fs.Valid() ==> r.fs.Valid()
  {
    var dir := ArtifactIdDir(root, groupId, artifactId);
    if !fs.IsDirectory(dir) then Probe(None, fs)
    else match LocalVersion(fs, lib, dir, version)
      case None => Probe(None, fs)
      case Some(v) =>
        var base := ArtifactBase(root, groupId, artifactId, v);
        ArtifactPathWellFormed(root, groupId, artifactId, v, ".pom");
        ArtifactPathWellFormed(root, groupId, artifactId, v, ".jar");
        ArtifactPathWellFormed(root, groupId, artifactId, v, ".aar");
        ArtifactPathWellFormed(root, groupId, artifactId, v, ".exploded.aar");
        if packaging == "pom" && fs.IsFile(base + ".pom") then Probe(Some(base + ".pom"), fs)
        else if fs.IsFile(base + ".jar") then Probe(Some(base + ".jar"), fs)
        else if fs.IsDirectory(base + ".aar") then Probe(Some(base + ".aar"), fs)
        else if fs.IsDirectory(base + ".exploded.aar") then Probe(Some(base + ".exploded.aar"), fs)
        else if fs.IsFile(base + ".aar") then
          Probe(Some(base + ".exploded.aar"), ExtractAar(fs, base + ".aar", base + ".exploded.aar"))
        else Probe(None, fs)
  }

  /** Some form of the artifact is present under `base`. */
  predicate AnyForm(fs: FsState, base: string, packaging: string) {
    (packaging == "pom" && fs.IsFile(base + ".pom")) || fs.IsFile(base + ".jar")
    || fs.IsDirectory(base + ".aar") || fs.IsDirectory(base + ".exploded.aar") || fs.IsFile(base + ".aar")
  }

  /**
   * The probe finds a path iff the artifactId directory exists, a version is
   * found, and some form is present under that version; only the `.aar` file
   * form touches the disk, and it returns the `.exploded.aar` sibling.
   */
  lemma ArtifactCachePathCases(fs: FsState, lib: Collaborators, root: string, d: Dependency)
    ensures var dir := ArtifactIdDir(root, d.groupId, d.artifactId);
            var v := LocalVersion(fs, lib, dir, d.version);
            var r := ArtifactCachePath(fs, lib, root, d.groupId, d.artifactId, d.version, d.packaging);
            && (r.path.Some? <==>
                  (fs.IsDirectory(dir) && v.Some?
                   && AnyForm(fs, ArtifactBase(root, d.groupId, d.artifactId, v.value), d.packaging)))
            && (r.fs != fs ==>
                  var base := ArtifactBase(root, d.groupId, d.artifactId, v.value);
                  && fs.IsDirectory(dir) && v.Some?
                  && fs.IsFile(base + ".aar") && !fs.IsFile(base + ".jar")
                  && !fs.IsDirectory(base + ".aar") && !fs.IsDirectory(base + ".exploded.aar")
                  && r.path == Some(base + ".exploded.aar")
                  && r.fs == Unzipped(fs, base + ".aar", base + ".exploded.aar"))
  {
  }

  /**
   * An aar present only as an archive, with no exploded sibling, resolves to
   * `<artifactId>-<version>.exploded.aar` and is unzipped exactly once.
   */
  lemma AarArchiveScenario(fs: FsState, lib: Collaborators, root: string, d: Dependency, v: string)
    requires fs.IsDirectory(ArtifactIdDir(root, d.groupId, d.artifactId))
    requires LocalVersion(fs, lib, ArtifactIdDir(root, d.groupId, d.artifactId), d.version) == Some(v)
    requires var base := ArtifactBase(root, d.groupId, d.artifactId, v);
             && d.packaging == "aar" && fs.IsFile(base + ".aar") && !fs.IsFile(base + ".jar")
             && !fs.IsDirectory(base + ".aar") && !fs.IsDirectory(base + ".exploded.aar")
    ensures var base := ArtifactBase(root, d.groupId, d.artifactId, v);
            var r := ArtifactCachePath(fs, lib, root, d.groupId, d.artifactId, d.version, d.packaging);
            && r.path == Some(base + ".exploded.aar")
            && EndsWith(r.path.value, d.artifactId + "-" + v + ".exploded.aar")
            && r.fs == Unzipped(fs, base + ".aar", base + ".exploded.aar")
  {
    var base := ArtifactBase(root, d.groupId, d.artifactId, v);
    ExplodedNameEnds(root, d.groupId, d.artifactId, v);
    assert !Fresh(fs, base + ".aar", base + ".exploded.aar");
  }

  lemma ExplodedNameEnds(root: string, g: string, a: string, v: string)
    ensures EndsWith(ArtifactBase(root, g, a, v) + ".exploded.aar", a + "-" + v + ".exploded.aar")
  {
    var p := ArtifactBase(root, g, a, v) + ".exploded.aar";
    var tail := a + "-" + v + ".exploded.aar";
    assert p == ArtifactIdDir(root, g, a) + "/" + v + "/" + tail;
    assert p[|p| - |tail|..] == tail;
  }

  /** `getMavenDependencyPath`: the first repository root whose probe finds the artifact. */
  function FirstProbe(fs: FsState, lib: Collaborators, roots: seq<string>, d: Dependency): (r: Probe)
    ensures r.path.None? ==> r.fs == fs
    ensures r.path.Some? ==> WellFormedPath(r.path.value)
    ensures fs.Valid() ==> r.fs.Valid()
    decreases |roots|
  {
    if |roots| == 0 then Probe(None, fs)
    else
      var p := ArtifactCachePath(fs, lib, roots[0], d.groupId, d.artifactId, d.version, d.packaging);
      if p.path.Some? then p else FirstProbe(fs, lib, roots[1..], d)
  }

  /** The trimmed, non-empty pieces of the repository preference, in order. */
  function NonEmptyTrimmed(parts: seq<string>): seq<string> {
    if |parts| == 0 then []
    else
      var init := NonEmptyTrimmed(parts[..|parts| - 1]);
      var t := Trim(parts[|parts| - 1]);
      if t != "" then init + [t] else init
  }

  /** Every entry of `r` is a non-empty trimmed piece of `parts`. */
  predicate TrimmedPieces(parts: seq<string>, r: seq<string>) {
    forall i :: 0 <= i < |r| ==> r[i] != "" && exists j :: 0 <= j < |parts| && r[i] == Trim(parts[j])
  }

  /** Every root kept is a non-empty trimmed piece. */
  lemma {:induction false} NonEmptyTrimmedKept(parts: seq<string>)
    ensures TrimmedPieces(parts, NonEmptyTrimmed(parts))
    decreases |parts|
  {
    if |parts| > 0 {
      var front := parts[..|parts| - 1];
      NonEmptyTrimmedKept(front);
      var init := NonEmptyTrimmed(front);
      var r := NonEmptyTrimmed(parts);
      assert forall i :: 0 <= i < |init| ==> r[i] == init[i];
      forall i | 0 <= i < |r|
        ensures r[i] != "" && exists j :: 0 <= j < |parts| && r[i] == Trim(parts[j])
      {
        if i < |init| {
          var j :| 0 <= j < |front| && init[i] == Trim(front[j]);
          assert r[i] == Trim(parts[j]);
        } else {
          assert r[i] == Trim(parts[|parts| - 1]);
        }
      }
    }
  }

  /** Every non-empty trimmed piece is kept. */
  lemma {:induction false} NonEmptyTrimmedAll(parts: seq<string>)
    ensures forall j :: 0 <= j < |parts| && Trim(parts[j]) != "" ==> Trim(parts[j]) in NonEmptyTrimmed(parts)
    decreases |parts|
  {
    if |parts| > 0 {
      var front := parts[..|parts| - 1];
      NonEmptyTrimmedAll(front);
      var r := NonEmptyTrimmed(parts);
      forall j | 0 <= j < |parts| && Trim(parts[j]) != ""
        ensures Trim(parts[j]) in r
      {
        if j < |parts| - 1 {
          assert front[j] == parts[j];
          assert Trim(front[j]) in NonEmptyTrimmed(front);
        } else {
          assert r[|r| - 1] == Trim(parts[j]);
        }
      }
    }
  }

  /** Every root kept is a non-empty trimmed piece, and every non-empty trimmed piece is kept. */
  lemma NonEmptyTrimmedShape(parts: seq<string>)
    ensures var r := NonEmptyTrimmed(parts);
            && (forall i :: 0 <= i < |r| ==> r[i] != "" && exists j :: 0 <= j < |parts| && r[i] == Trim(parts[j]))
            && (forall j :: 0 <= j < |parts| && Trim(parts[j]) != "" ==> Trim(parts[j]) in r)
  {
    NonEmptyTrimmedKept(parts);
    NonEmptyTrimmedAll(parts);
    assert TrimmedPieces(parts, NonEmptyTrimmed(parts));
  }

  /** `getRepositoriePaths`: the configured roots, then the default cache repository. */
  function RepositoryPaths(env: Env): seq<string> {
    NonEmptyTrimmed(JavaSplit(env.repositoryPref, ';')) + [DefaultRepositoryPath(env)]
  }

  /** The default cache repository is searched, and searched last; no configured root is empty or padded. */
  lemma RepositoryPathsShape(env: Env)
    ensures var r := RepositoryPaths(env);
            && |r| >= 1 && r[|r| - 1] == DefaultRepositoryPath(env)
            && forall i :: 0 <= i < |r| - 1 ==> r[i] != "" && Trim(r[i]) == r[i]
  {
    var parts := JavaSplit(env.repositoryPref, ';');
    var r := RepositoryPaths(env);
    var kept := NonEmptyTrimmed(parts);
    NonEmptyTrimmedShape(parts);
    forall i | 0 <= i < |r| - 1
      ensures r[i] != "" && Trim(r[i]) == r[i]
    {
      assert r[i] == kept[i];
      var j :| 0 <= j < |parts| && kept[i] == Trim(parts[j]);
      TrimIdempotent(parts[j]);
    }
  }

  lemma TrimIdempotent(s: string)
    ensures Trim(Trim(s)) == Trim(s)
  {
    var t := Trim(s);
    assert TrimStart(t) == t;
    assert TrimEnd(t) == t;
  }

  // ---------------------------------------------------------------------------
  // Flat repositories
  // ---------------------------------------------------------------------------

  /** `<artifactId>-` and `.aar` never overlap in a file name. */
  lemma FlatAffixesFit(name: string, artifactId: string)
    requires StartsWith(name, artifactId + "-") && EndsWith(name, ".aar")
    ensures |artifactId| + 1 <= |name| - 4
  {
    assert name[|artifactId|] == '-';
    forall j | |name| - 4 <= j < |name|
      ensures name[j] != '-'
    {
      assert name[j] == name[|name| - 4..][j - (|name| - 4)];
    }
  }

  /** A flat file name `<artifactId>-<v>.aar` whose `<v>` matches the requested version. */
  predicate FlatNameMatches(lib: Collaborators, name: string, artifactId: string, version: string) {
    && StartsWith(name, artifactId + "-")
    && EndsWith(name, ".aar")
    && (FlatAffixesFit(name, artifactId);
        lib.matchVersion(name[|artifactId| + 1..|name| - 4], version))
  }

  /** The first listed file, from index `from` on, whose name matches. */
  function FirstFlatMatch(lib: Collaborators, children: seq<string>, from: nat, artifactId: string, version: string): (r: Option<string>)
    ensures r.Some? ==> r.value in children && FlatNameMatches(lib, LastSegment(r.value), artifactId, version)
    ensures r.None? ==> forall j :: from <= j < |children| ==> !FlatNameMatches(lib, LastSegment(children[j]), artifactId, version)
    decreases |children| - from
  {
    if from >= |children| then None
    else if FlatNameMatches(lib, LastSegment(children[from]), artifactId, version) then Some(children[from])
    else FirstFlatMatch(lib, children, from + 1, artifactId, version)
  }

  /**
   * `getFlatArtifactPath`: `<flatDir>/<artifactId>.aar` when it exists, else the
   * first listed file matching `<artifactId>-<v>.aar` (null when unlistable).
   */
  function FlatArtifactPath(fs: FsState, lib: Collaborators, flatDir: string, artifactId: string, version: string): (r: Option<string>)
    ensures r.Some? ==> EndsWith(LastSegment(r.value), ".aar")
  {
    var direct := flatDir + "/" + artifactId + ".aar";
    if fs.Exists(direct) then
      LastSegmentOfSuffix(direct, ".aar");
      Some(direct)
    else match fs.ListFiles(flatDir)
      case None => None
      case Some(children) => FirstFlatMatch(lib, children, 0, artifactId, version)
  }

  /** The first flat repository (flat directory, its cache directory) holding the artifact, with the path found. */
  function FlatHit(fs: FsState, lib: Collaborators, flats: seq<(string, string)>, d: Dependency): (r: Option<(string, string)>)
    ensures r.Some? ==> EndsWith(LastSegment(r.value.0), ".aar")
    ensures r.Some? ==> exists i :: 0 <= i < |flats| && r.value.1 == flats[i].1
                          && FlatArtifactPath(fs, lib, flats[i].0, d.artifactId, d.version) == Some(r.value.0)
    decreases |flats|
  {
    if |flats| == 0 then None
    else match FlatArtifactPath(fs, lib, flats[0].0, d.artifactId, d.version)
      case Some(p) => Some((p, flats[0].1))
      case None =>
        var r := FlatHit(fs, lib, flats[1..], d);
        assert forall i :: 0 <= i < |flats[1..]| ==> flats[1..][i] == flats[i + 1];
        r
  }

  /** Where an aar found in a flat repository is exploded: `<cacheDir>/<name minus 4 chars>.exploded.aar`. */
  function FlatExplodedPath(flatPath: string, cacheDir: string): (r: string)
    requires EndsWith(LastSegment(flatPath), ".aar")
    ensures WellFormedPath(r) && EndsWith(r, ".exploded.aar") && StartsWith(r, cacheDir + "/")
  {
    var name := LastSegment(flatPath);
    var r := cacheDir + "/" + name[..|name| - 4] + ".exploded.aar";
    assert r[|cacheDir|] == '/';
    assert r[|r| - 13..] == ".exploded.aar";
    assert r[..|cacheDir| + 1] == cacheDir + "/";
    r
  }

  // ---------------------------------------------------------------------------
  // resolveMavenDepPath
  // ---------------------------------------------------------------------------

  /** A lookup result with the path cache and the file system afterwards. */
  datatype Resolution = Resolution(path: Option<string>, cache: map<string, string>, fs: FsState)

  /** Every non-sentinel path in the cache is well formed. */
  predicate CacheWellFormed(cache: map<string, string>) {
    forall k :: k in cache && cache[k] != "" ==> WellFormedPath(cache[k])
  }

  /**
   * `resolveMavenDepPath(flats, d)`: flat repositories first (a hit is
   * extracted into the flat cache directory and never cached); then the path
   * cache, where "" means known absent; a miss probes every repository root
   * and caches the path found, or "".
   */
  function Resolve(fs: FsState, lib: Collaborators, env: Env, cache: map<string, string>,
                   flats: Option<seq<(string, string)>>, d: Dependency): (r: Resolution)
    ensures CacheWellFormed(cache) && r.path.Some? ==> WellFormedPath(r.path.value)
    ensures CacheWellFormed(cache) ==> CacheWellFormed(r.cache)
    ensures fs.Valid() ==> r.fs.Valid()
    ensures forall k :: k in cache ==> k in r.cache && r.cache[k] == cache[k]
  {
    var hit := if flats.Some? then FlatHit(fs, lib, flats.value, d) else None;
    if hit.Some? then
      var exploded := FlatExplodedPath(hit.value.0, hit.value.1);
      Resolution(Some(exploded), cache, ExtractAar(fs, hit.value.0, exploded))
    else RepositoryLookup(fs, lib, env, cache, d)
  }

  /** The part of `resolveMavenDepPath` after the flat repositories: the path cache, then every repository root. */
  function RepositoryLookup(fs: FsState, lib: Collaborators, env: Env, cache: map<string, string>, d: Dependency): (r: Resolution)
    ensures CacheWellFormed(cache) && r.path.Some? ==> WellFormedPath(r.path.value)
    ensures CacheWellFormed(cache) ==> CacheWellFormed(r.cache)
    ensures fs.Valid() ==> r.fs.Valid()
    ensures forall k :: k in cache ==> k in r.cache && r.cache[k] == cache[k]
  {
    var key := lib.pathKey(d);
    if key in cache then
      Resolution(if cache[key] == "" then None else Some(cache[key]), cache, fs)
    else
      var probe := FirstProbe(fs, lib, RepositoryPaths(env), d);
      Resolution(probe.path, cache[key := if probe.path.Some? then probe.path.value else ""], probe.fs)
  }

  /** A flat repository hit wins over everything cached or present in the cache repositories, and is not cached. */
  lemma FlatPrecedence(fs: FsState, lib: Collaborators, env: Env, cache: map<string, string>,
                       flats: seq<(string, string)>, d: Dependency)
    requires FlatHit(fs, lib, flats, d).Some?
    ensures var hit := FlatHit(fs, lib, flats, d).value;
            var r := Resolve(fs, lib, env, cache, Some(flats), d);
            && r.path == Some(FlatExplodedPath(hit.0, hit.1))
            && r.cache == cache
  {
  }

  /** Without a flat hit, a cached "" answers null and a cached path is returned, both without probing. */
  lemma CachedLookupDoesNotProbe(fs: FsState, lib: Collaborators, env: Env, cache: map<string, string>,
                                 flats: Option<seq<(string, string)>>, d: Dependency)
    requires flats.Some? ==> FlatHit(fs, lib, flats.value, d).None?
    requires lib.pathKey(d) in cache
    ensures var r := Resolve(fs, lib, env, cache, flats, d);
            && r.cache == cache && r.fs == fs
            && (cache[lib.pathKey(d)] == "" <==> r.path.None?)
            && (r.path.Some? ==> r.path.value == cache[lib.pathKey(d)])
  {
  }

  /** A miss probes the repositories in order and remembers the outcome, "" standing for absent. */
  lemma MissIsCached(fs: FsState, lib: Collaborators, env: Env, cache: map<string, string>,
                     flats: Option<seq<(string, string)>>, d: Dependency)
    requires flats.Some? ==> FlatHit(fs, lib, flats.value, d).None?
    requires lib.pathKey(d) !in cache
    ensures var r := Resolve(fs, lib, env, cache, flats, d);
            var probe := FirstProbe(fs, lib, RepositoryPaths(env), d);
            && r.path == probe.path && r.fs == probe.fs
            && lib.pathKey(d) in r.cache
            && (r.path.None? ==> r.cache[lib.pathKey(d)] == "")
            && (r.path.Some? ==> r.cache[lib.pathKey(d)] == r.path.value)
  {
  }

  /**
   * Without flat repositories a lookup is idempotent: repeating it returns the
   * same path and changes neither the cache nor the disk (no second extraction).
   */
  lemma {:induction false} ResolveIdempotent(fs: FsState, lib: Collaborators, env: Env, cache: map<string, string>, d: Dependency)
    requires CacheWellFormed(cache)
    ensures var r1 := Resolve(fs, lib, env, cache, None, d);
            var r2 := Resolve(r1.fs, lib, env, r1.cache, None, d);
            r2 == r1
  {
    var r1 := Resolve(fs, lib, env, cache, None, d);
    var key := lib.pathKey(d);
    assert key in r1.cache;
    if r1.path.Some? {
      assert WellFormedPath(r1.path.value);
    }
  }
}
