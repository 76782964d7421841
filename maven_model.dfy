/**
 * Maven coordinates, pom descriptors, the version registry rules of
 * `depMap`, and the path arithmetic of the resolver.
 */
module MavenModel {
  import opened Wrappers
  import opened JavaStrings

  /** A declared dependency (`BuildGradle.MavenDependency` / `PomXml.ArtifactNode`). */
  datatype Dependency = Dependency(
    groupId: string,
    artifactId: string,
    version: string,
    packaging: string,
    exclusions: set<string>)  // `getExclusionSet()`: groupId:artifactId keys

  /** `getGroupIdArtifactId()`, the key of `depMap` and of exclusion sets. */
  function GroupIdArtifactId(d: Dependency): string {
    d.groupId + ":" + d.artifactId
  }

  /** A parsed pom: its own node, its dependencies and its dependencyManagement entries. */
  datatype Pom = Pom(self: Dependency, deps: seq<Dependency>, depManages: seq<Dependency>)

  /**
   * Collaborators whose code is not part of this model, as functions the
   * resolver is given: pom parsing (`PomXml.getConfiguration`), the metadata
   * index lookup (`MavenMetadataXml.getConfiguration(path).getVersion(query)`),
   * the version choice over a listing (`MavenMetadataXml.getVersion(list, query)`),
   * `MavenMetadataXml.matchVersion`, `MavenDependencyVersion.compareTo`, and
   * the identity `MavenDependency.equals` gives the keys of `depPathMap`.
   */
  datatype Collaborators = Collaborators(
    pomOf: string -> Pom,
    metadataVersion: (string, string) -> Option<string>,
    pickVersion: (seq<string>, string) -> Option<string>,
    matchVersion: (string, string) -> bool,
    compare: (string, string) -> int,
    pathKey: Dependency -> string)

  /** What the resolver reads from the environment. */
  datatype Env = Env(
    repositoryPref: string,    // `AppPreferences.br()`: ';'-separated repository roots
    userM2: Option<string>,    // `ZeroAicyExtensionInterface.getUserM2Repositories()`
    home: string)              // `FileSystem.yS()`

  type DepMap = map<string, Dependency>

  /** `a` above `b` and `b` above `c` put `a` above `c`. */
  ghost predicate UpgradeChain(cmp: (string, string) -> int, a: string, b: string, c: string) {
    cmp(a, b) > 0 && cmp(b, c) > 0 ==> cmp(a, c) > 0
  }

  /** `MavenDependencyVersion.compareTo(a, b) > 0` chains. */
  ghost predicate TransitiveUpgrade(cmp: (string, string) -> int) {
    forall a, b, c :: UpgradeChain(cmp, a, b, c)
  }

  // ---------------------------------------------------------------------------
  // Registry rules of depMap
  // ---------------------------------------------------------------------------

  /** The node `makeDep(d)` returns: the stored one, or `d` itself when the key is new. */
  function CanonicalNode(m: DepMap, d: Dependency): (n: Dependency)
    ensures GroupIdArtifactId(d) in m ==> n == m[GroupIdArtifactId(d)]
    ensures GroupIdArtifactId(d) !in m ==> n == d
  {
    var k := GroupIdArtifactId(d);
    if k in m then m[k] else d
  }

  /** `depMap` after `makeDep(d)`: get-or-insert. */
  function AfterMakeDep(m: DepMap, d: Dependency): (m': DepMap)
    ensures m'.Keys == m.Keys + {GroupIdArtifactId(d)}
    ensures m' == m[GroupIdArtifactId(d) := CanonicalNode(m, d)]
  {
    var k := GroupIdArtifactId(d);
    if k in m then m else m[k := d]
  }

  /**
   * One dependencyManagement entry: `makeDep(e)`, then, when the key was
   * already present (`e != cache`), `e` replaces the stored node only if its
   * version compares strictly greater.
   */
  function ManageStep(m: DepMap, e: Dependency, cmp: (string, string) -> int): DepMap {
    var k := GroupIdArtifactId(e);
    if k !in m then m[k := e]
    else if cmp(e.version, m[k].version) > 0 then m[k := e]
    else m
  }

  /** The dependencyManagement loop over `entries`, in order. */
  function Manage(m: DepMap, entries: seq<Dependency>, cmp: (string, string) -> int): DepMap
    decreases |entries|
  {
    if |entries| == 0 then m
    else ManageStep(Manage(m, entries[..|entries| - 1], cmp), entries[|entries| - 1], cmp)
  }

  /** `Zo`'s registration: the path-derived version replaces when the key is absent or the version is strictly greater. */
  function RegisterVersion(m: DepMap, d: Dependency, version: string, cmp: (string, string) -> int): DepMap {
    var k := GroupIdArtifactId(d);
    if k !in m || cmp(version, m[k].version) > 0 then m[k := d.(version := version)] else m
  }

  /**
   * `m'` keeps every key of `m`, and each stored node is either the old one or
   * one whose version compares strictly greater: the registry never downgrades.
   */
  ghost predicate NoDowngrade(m: DepMap, m': DepMap, cmp: (string, string) -> int) {
    forall k :: k in m ==> k in m' && (m'[k] == m[k] || cmp(m'[k].version, m[k].version) > 0)
  }

  lemma NoDowngradeTransitive(a: DepMap, b: DepMap, c: DepMap, cmp: (string, string) -> int)
    requires TransitiveUpgrade(cmp)
    requires NoDowngrade(a, b, cmp) && NoDowngrade(b, c, cmp)
    ensures NoDowngrade(a, c, cmp)
  {
    forall k | k in a
      ensures k in c && (c[k] == a[k] || cmp(c[k].version, a[k].version) > 0)
    {
      if b[k] != a[k] && c[k] != b[k] {
        assert UpgradeChain(cmp, c[k].version, b[k].version, a[k].version);
      }
    }
  }

  /** `makeDep` keeps an existing entry unchanged and only ever adds its key. */
  lemma MakeDepIsGetOrInsert(m: DepMap, d: Dependency, cmp: (string, string) -> int)
    ensures GroupIdArtifactId(d) in AfterMakeDep(m, d)
    ensures AfterMakeDep(m, d)[GroupIdArtifactId(d)] == CanonicalNode(m, d)
    ensures GroupIdArtifactId(d) in m ==> AfterMakeDep(m, d) == m && CanonicalNode(m, d) == m[GroupIdArtifactId(d)]
    ensures NoDowngrade(m, AfterMakeDep(m, d), cmp)
  {
  }

  /** After the dependencyManagement loop every entry's key is registered and no other key is added. */
  lemma {:induction false} ManageKeys(m: DepMap, entries: seq<Dependency>, cmp: (string, string) -> int)
    ensures Manage(m, entries, cmp).Keys == m.Keys + set e | e in entries :: GroupIdArtifactId(e)
    decreases |entries|
  {
    if |entries| > 0 {
      var init := entries[..|entries| - 1];
      ManageKeys(m, init, cmp);
      assert entries == init + [entries[|entries| - 1]];
    }
  }

  /**
   * A dependencyManagement entry replaces an existing node only when its
   * version compares strictly greater, so the loop never downgrades.
   */
  lemma {:induction false} ManageNoDowngrade(m: DepMap, entries: seq<Dependency>, cmp: (string, string) -> int)
    requires TransitiveUpgrade(cmp)
    ensures NoDowngrade(m, Manage(m, entries, cmp), cmp)
    decreases |entries|
  {
    if |entries| > 0 {
      var before := Manage(m, entries[..|entries| - 1], cmp);
      ManageNoDowngrade(m, entries[..|entries| - 1], cmp);
      assert NoDowngrade(before, ManageStep(before, entries[|entries| - 1], cmp), cmp);
      NoDowngradeTransitive(m, before, Manage(m, entries, cmp), cmp);
    }
  }

  /** Every node the loop stores is either the old one or one of the entries with that key. */
  lemma {:induction false} ManageValues(m: DepMap, entries: seq<Dependency>, cmp: (string, string) -> int, k: string)
    requires k in Manage(m, entries, cmp)
    ensures (k in m && Manage(m, entries, cmp)[k] == m[k])
         || (Manage(m, entries, cmp)[k] in entries && GroupIdArtifactId(Manage(m, entries, cmp)[k]) == k)
    decreases |entries|
  {
    if |entries| > 0 {
      var init := entries[..|entries| - 1];
      var before := Manage(m, init, cmp);
      var e := entries[|entries| - 1];
      if k == GroupIdArtifactId(e) && Manage(m, entries, cmp)[k] == e {
      } else {
        ManageValues(m, init, cmp, k);
        if Manage(m, init, cmp)[k] in init {
          assert Manage(m, init, cmp)[k] in entries;
        }
      }
    }
  }

  /** An entry whose version does not compare strictly greater than the stored node leaves `depMap` unchanged. */
  lemma ManageStepKeepsUnlessGreater(m: DepMap, e: Dependency, cmp: (string, string) -> int)
    requires GroupIdArtifactId(e) in m && cmp(e.version, m[GroupIdArtifactId(e)].version) <= 0
    ensures ManageStep(m, e, cmp) == m
  {
  }

  /** `Zo`'s registration never downgrades and always leaves the key registered. */
  lemma RegisterVersionUpgrades(m: DepMap, d: Dependency, version: string, cmp: (string, string) -> int)
    ensures GroupIdArtifactId(d) in RegisterVersion(m, d, version, cmp)
    ensures NoDowngrade(m, RegisterVersion(m, d, version, cmp), cmp)
    ensures RegisterVersion(m, d, version, cmp).Keys == m.Keys + {GroupIdArtifactId(d)}
  {
  }

  /**
   * Two declarations of one coordinate, first 1.0 then 2.0, leave 2.0 stored,
   * and a later dependencyManagement entry offering 1.5 does not downgrade it.
   */
  lemma {:induction false} ManagedVersionScenario(m: DepMap, d: Dependency, cmp: (string, string) -> int)
    requires GroupIdArtifactId(d) !in m
    requires cmp("2.0", "1.0") > 0 && cmp("1.5", "2.0") < 0
    ensures var k := GroupIdArtifactId(d);
            var m1 := RegisterVersion(RegisterVersion(m, d, "1.0", cmp), d, "2.0", cmp);
            var m2 := Manage(m1, [d.(version := "1.5")], cmp);
            m1[k].version == "2.0" && m2[k].version == "2.0"
  {
    var k := GroupIdArtifactId(d);
    var m0 := RegisterVersion(m, d, "1.0", cmp);
    assert m0[k].version == "1.0";
    var m1 := RegisterVersion(m0, d, "2.0", cmp);
    assert m1[k].version == "2.0";
    var e := d.(version := "1.5");
    assert GroupIdArtifactId(e) == k;
    assert [e][..0] == [];
    assert Manage(m1, [e], cmp) == ManageStep(m1, e, cmp);
  }

  // ---------------------------------------------------------------------------
  // Path arithmetic
  // ---------------------------------------------------------------------------

  /** `getDefaulRepositoriePath()`: the user's m2 root when set, else `<home>/.aide/maven`. */
  function DefaultRepositoryPath(env: Env): string {
    if env.userM2.Some? then env.userM2.value else env.home + "/.aide/maven"
  }

  /** `<root>/<groupId as path>/<artifactId>`, the directory holding one artifact's versions. */
  function ArtifactIdDir(root: string, groupId: string, artifactId: string): string {
    root + "/" + DotsToSlashes(groupId) + "/" + artifactId
  }

  /** `<artifactIdDir>/<version>/<artifactId>-<version>`, to which a packaging suffix is appended. */
  function ArtifactBase(root: string, groupId: string, artifactId: string, version: string): string {
    ArtifactIdDir(root, groupId, artifactId) + "/" + version + "/" + artifactId + "-" + version
  }

  /** `getMetadataUrl` */
  function MetadataUrl(repositoryUrl: string, d: Dependency): string {
    ArtifactIdDir(repositoryUrl, d.groupId, d.artifactId) + "/maven-metadata.xml"
  }

  /** `getMetadataPath` */
  function MetadataPath(env: Env, d: Dependency): string {
    ArtifactIdDir(DefaultRepositoryPath(env), d.groupId, d.artifactId) + "/maven-metadata.xml"
  }

  /** `getArtifactUrl` */
  function ArtifactUrl(repositoryUrl: string, d: Dependency, version: string, suffix: string): string {
    ArtifactBase(repositoryUrl, d.groupId, d.artifactId, version) + suffix
  }

  /** `getArtifactPath` */
  function ArtifactPath(env: Env, d: Dependency, version: string, suffix: string): string {
    ArtifactBase(DefaultRepositoryPath(env), d.groupId, d.artifactId, version) + suffix
  }

  /**
   * The local cache mirrors a remote repository's layout: a local path is the
   * URL built over the default repository root, and an artifact of any
   * version lies in the directory that holds `maven-metadata.xml`.
   */
  lemma RepositoryLayout(env: Env, repositoryUrl: string, d: Dependency, version: string, suffix: string)
    ensures ArtifactPath(env, d, version, suffix) == ArtifactUrl(DefaultRepositoryPath(env), d, version, suffix)
    ensures MetadataPath(env, d) == MetadataUrl(DefaultRepositoryPath(env), d)
    ensures var dir := ArtifactIdDir(repositoryUrl, d.groupId, d.artifactId) + "/";
            && StartsWith(MetadataUrl(repositoryUrl, d), dir)
            && StartsWith(ArtifactUrl(repositoryUrl, d, version, suffix), dir)
            && EndsWith(ArtifactUrl(repositoryUrl, d, version, suffix), d.artifactId + "-" + version + suffix)
  {
    var dir := ArtifactIdDir(repositoryUrl, d.groupId, d.artifactId) + "/";
    var name := d.artifactId + "-" + version + suffix;
    var url := ArtifactUrl(repositoryUrl, d, version, suffix);
    assert url == dir + (version + "/" + name);
    assert url[..|dir|] == dir;
    assert url[|url| - |name|..] == name;
    var meta := MetadataUrl(repositoryUrl, d);
    assert meta == dir + "maven-metadata.xml";
    assert meta[..|dir|] == dir;
  }

  /** `vy`: artifacts whose id contains "android-all" are never expanded. */
  predicate IsAndroidAll(d: Dependency) {
    Contains(d.artifactId, "android-all")
  }

  /**
   * `getDepPomPath`: drops 13 characters after a `.exploded.aar` suffix and 4
   * otherwise, then appends `.pom`. Shorter input makes the source throw.
   */
  function DepPomPath(s: string): (r: string)
    requires |s| >= 4
    ensures EndsWith(r, ".pom")
  {
    if EndsWith(s, ".exploded.aar") then s[..|s| - 13] + ".pom" else s[..|s| - 4] + ".pom"
  }

  /**
   * `getVersion`: the second-to-last piece of `s.split("/")`. A path with fewer
   * than two pieces makes the source throw.
   */
  function VersionOfPath(s: string): (r: string)
    requires |JavaSplit(s, '/')| >= 2
    ensures '/' !in r
  {
    var parts := JavaSplit(s, '/');
    parts[|parts| - 2]
  }

  /** What every path the resolver hands out looks like: long enough for `getDepPomPath`, with a '/' and not ending in one. */
  predicate WellFormedPath(p: string) {
    |p| >= 4 && '/' in p && p[|p| - 1] != '/'
  }

  /** `getVersion` is defined on every well-formed path. */
  lemma WellFormedHasVersion(p: string)
    requires WellFormedPath(p)
    ensures |JavaSplit(p, '/')| >= 2
  {
    SplitKeepsTwo(p, '/');
  }

  /** `getVersion` returns the directory name just above the last segment. */
  lemma {:induction false} VersionIsSecondToLastSegment(x: string, version: string, name: string)
    requires '/' !in version && '/' !in name && name != ""
    ensures |JavaSplit(x + "/" + version + "/" + name, '/')| >= 2
    ensures VersionOfPath(x + "/" + version + "/" + name) == version
  {
    var p := x + "/" + version + "/" + name;
    assert p == (x + "/" + version) + ['/'] + name;
    assert x + "/" + version == x + ['/'] + version;
    SplitAllConcat(x + "/" + version, '/', name);
    SplitAllConcat(x, '/', version);
    SplitAllNoSeparator(version, '/');
    SplitAllNoSeparator(name, '/');
    var parts := SplitAll(p, '/');
    assert parts == SplitAll(x, '/') + [version] + [name];
    assert p[|p| - 1] == name[|name| - 1];
    assert p[|x|] == '/';
    SplitKeepsTwo(p, '/');
  }

  /** Round trip: `getVersion(getArtifactPath(d, v, suffix)) == v` when no part holds a '/'. */
  lemma ArtifactPathVersionRoundTrip(env: Env, d: Dependency, version: string, suffix: string)
    requires '/' !in version && '/' !in d.artifactId && '/' !in suffix
    ensures |JavaSplit(ArtifactPath(env, d, version, suffix), '/')| >= 2
    ensures VersionOfPath(ArtifactPath(env, d, version, suffix)) == version
  {
    var x := ArtifactIdDir(DefaultRepositoryPath(env), d.groupId, d.artifactId);
    var name := d.artifactId + "-" + version + suffix;
    assert ArtifactPath(env, d, version, suffix) == x + "/" + version + "/" + name;
    assert name[|d.artifactId|] == '-';
    VersionIsSecondToLastSegment(x, version, name);
  }

  /** The pom of a `.jar`, `.aar` or `.pom` artifact sits next to it with the extension replaced. */
  lemma PomNextToArtifact(base: string, ext: string)
    requires ext in {".jar", ".aar", ".pom"}
    requires !EndsWith(base + ext, ".exploded.aar")
    ensures DepPomPath(base + ext) == base + ".pom"
  {
    assert (base + ext)[..|base|] == base;
  }

  /** The pom of an exploded aar directory sits next to it. */
  lemma PomNextToExplodedAar(base: string)
    ensures DepPomPath(base + ".exploded.aar") == base + ".pom"
  {
    var s := base + ".exploded.aar";
    assert s[|s| - 13..] == ".exploded.aar";
    assert s[..|s| - 13] == base;
  }

  /** An artifact path ends in its suffix, holds a '/' and is well formed. */
  lemma ArtifactPathWellFormed(root: string, groupId: string, artifactId: string, version: string, ext: string)
    requires |ext| >= 4 && ext[|ext| - 1] != '/'
    ensures WellFormedPath(ArtifactBase(root, groupId, artifactId, version) + ext)
  {
    var p := ArtifactBase(root, groupId, artifactId, version) + ext;
    assert p[|root|] == '/';
    assert p[|p| - 1] == ext[|ext| - 1];
  }
}
