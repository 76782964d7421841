/**
 * The three recursive walks over pom descriptors, as functions of the state
 * they read and change: `QX` (the dependency paths of a tree), `yS` (the
 * dependencies not in any local repository) and `Zo` (registering versions
 * found on disk). Each walk first applies the pom's dependencyManagement
 * entries, registers the pom's own node, and then follows every dependency
 * that is neither excluded by that node nor an android-all artifact.
 */
module MavenWalks {
  import opened Wrappers
  import opened JavaStrings
  import opened FileModel
  import opened MavenModel
  import opened MavenProbe

  /** What the walks read and change: `depMap`, `depPathMap` and the disk. */
  datatype World = World(depMap: DepMap, depPathMap: map<string, string>, fs: FsState) {
    predicate Valid() {
      fs.Valid() && CacheWellFormed(depPathMap)
    }
  }

  /** The flat repositories, as (flat directory, its cache directory) pairs in iteration order; None is a null map. */
  type Flats = Option<seq<(string, string)>>

  /** A walk's output so far, with the state it leaves. */
  datatype Walk<T> = Walk(world: World, out: seq<T>)

  /** `c` is followed by a walk: not in the pom node's exclusion set, and not android-all (`vy`). */
  predicate Followed(exclusions: set<string>, c: Dependency) {
    GroupIdArtifactId(c) !in exclusions && !IsAndroidAll(c)
  }

  /** The dependencies of `children` a walk follows under `exclusions`, in order. */
  function FollowedOnly(exclusions: set<string>, children: seq<Dependency>): (r: seq<Dependency>)
    ensures forall c :: c in r ==> c in children && Followed(exclusions, c)
  {
    if children == [] then []
    else (if Followed(exclusions, children[0]) then [children[0]] else []) + FollowedOnly(exclusions, children[1..])
  }

  predicate Distinct<T(==)>(s: seq<T>) {
    forall i, j :: 0 <= i < j < |s| ==> s[i] != s[j]
  }

  /** Every cached entry survives, unchanged. */
  predicate CacheExtends(c: map<string, string>, c': map<string, string>) {
    forall k :: k in c ==> k in c' && c'[k] == c[k]
  }

  /** `w'` keeps every node of `w`, at the same or a greater version, and every path `w` cached. */
  ghost predicate RegistryKept(w: World, w': World, cmp: (string, string) -> int) {
    NoDowngrade(w.depMap, w'.depMap, cmp) && CacheExtends(w.depPathMap, w'.depPathMap)
  }

  lemma RegistryKeptRefl(w: World, cmp: (string, string) -> int)
    ensures RegistryKept(w, w, cmp)
  {
  }

  lemma RegistryKeptChain(a: World, b: World, c: World, cmp: (string, string) -> int)
    requires TransitiveUpgrade(cmp) && RegistryKept(a, b, cmp) && RegistryKept(b, c, cmp)
    ensures RegistryKept(a, c, cmp)
  {
    NoDowngradeTransitive(a.depMap, b.depMap, c.depMap, cmp);
  }

  /**
   * How a walk looks a dependency up (`resolveMavenDepPath`): from the disk,
   * the path cache, the flat repositories and the node to look up, the path
   * found with the cache and the disk afterwards.
   */
  type Lookup = (FsState, map<string, string>, Flats, Dependency) -> Resolution

  /** The guarantees of a lookup the walks rely on. */
  ghost predicate SoundLookup(look: Lookup) {
    forall fs: FsState, cache: map<string, string>, flats: Flats, d: Dependency {:trigger look(fs, cache, flats, d)} ::
      fs.Valid() && CacheWellFormed(cache) ==>
        var r := look(fs, cache, flats, d);
        && r.fs.Valid() && CacheWellFormed(r.cache) && CacheExtends(cache, r.cache)
        && (r.path.Some? ==> WellFormedPath(r.path.value))
  }

  /** The lookup of the service: `Resolve` over the given collaborators and environment. */
  function ServiceLookup(lib: Collaborators, env: Env): Lookup {
    (fs, cache, flats, d) => Resolve(fs, lib, env, cache, flats, d)
  }

  lemma ServiceLookupSound(lib: Collaborators, env: Env)
    ensures SoundLookup(ServiceLookup(lib, env))
  {
    forall fs: FsState, cache: map<string, string>, flats: Flats, d: Dependency | fs.Valid() && CacheWellFormed(cache)
      ensures var r := Resolve(fs, lib, env, cache, flats, d);
              && r.fs.Valid() && CacheWellFormed(r.cache) && CacheExtends(cache, r.cache)
              && (r.path.Some? ==> WellFormedPath(r.path.value))
    {
    }
  }

  // ---------------------------------------------------------------------------
  // Reading one pom
  // ---------------------------------------------------------------------------

  /** `depMap` after a pom's management and self registration, and the exclusions the walk applies. */
  datatype Expansion = Expansion(depMap: DepMap, exclusions: set<string>)

  /**
   * The dependencyManagement loop, then `makeDep(new ArtifactNode(pom))`,
   * whose stored node supplies the exclusion set.
   */
  function ExpandPom(m: DepMap, pom: Pom, cmp: (string, string) -> int): (r: Expansion)
    ensures r.depMap.Keys == m.Keys + (set e | e in pom.depManages :: GroupIdArtifactId(e)) + {GroupIdArtifactId(pom.self)}
  {
    ManageKeys(m, pom.depManages, cmp);
    var managed := Manage(m, pom.depManages, cmp);
    Expansion(AfterMakeDep(managed, pom.self), CanonicalNode(managed, pom.self).exclusions)
  }

  /** Reading a pom never downgrades a registered node and leaves the path cache alone. */
  lemma ExpandPomKeepsRegistry(w: World, pom: Pom, cmp: (string, string) -> int)
    requires TransitiveUpgrade(cmp)
    ensures RegistryKept(w, w.(depMap := ExpandPom(w.depMap, pom, cmp).depMap), cmp)
  {
    ExpandPomNoDowngrade(w.depMap, pom, cmp);
  }

  /** Reading a pom never downgrades a registered node. */
  lemma ExpandPomNoDowngrade(m: DepMap, pom: Pom, cmp: (string, string) -> int)
    requires TransitiveUpgrade(cmp)
    ensures NoDowngrade(m, ExpandPom(m, pom, cmp).depMap, cmp)
  {
    var managed := Manage(m, pom.depManages, cmp);
    ManageNoDowngrade(m, pom.depManages, cmp);
    MakeDepIsGetOrInsert(managed, pom.self, cmp);
    NoDowngradeTransitive(m, managed, AfterMakeDep(managed, pom.self), cmp);
  }

  /**
   * The exclusions applied are those of the node already registered under the
   * pom's key when there is one, not the pom's own.
   */
  lemma ExclusionsOfRegisteredNode(m: DepMap, pom: Pom, cmp: (string, string) -> int)
    ensures var managed := Manage(m, pom.depManages, cmp);
            var k := GroupIdArtifactId(pom.self);
            ExpandPom(m, pom, cmp).exclusions == (if k in managed then managed[k].exclusions else pom.self.exclusions)
  {
  }

  // ---------------------------------------------------------------------------
  // QX: the dependency paths of a tree
  // ---------------------------------------------------------------------------

  /**
   * `QX(flats, str, depPaths, depth)`: nothing when `str` is already listed;
   * otherwise `str` is appended and, when depth allows, the pom next to it is
   * read and the path of every followed dependency is collected one level down.
   */
  function Collect(lib: Collaborators, look: Lookup, w: World, flats: Flats, str: string,
                   paths: seq<string>, depth: nat): (r: Walk<string>)
    requires w.Valid() && SoundLookup(look)
    requires depth >= 1 && str !in paths ==> |str| >= 4
    ensures r.world.Valid()
    ensures paths <= r.out && str in r.out
    ensures depth == 0 ==> r == Walk(w, if str in paths then paths else paths + [str])
    decreases depth, 1
  {
    if str in paths then Walk(w, paths)
    else
      var r := CollectBelow(lib, look, w, flats, str, paths + [str], depth);
      assert str in paths + [str];
      r
  }

  /** `QX` once `str` is listed: while depth remains, the paths of the followed dependencies of the pom next to `str`, one level down. */
  function CollectBelow(lib: Collaborators, look: Lookup, w: World, flats: Flats, str: string,
                        paths: seq<string>, depth: nat): (r: Walk<string>)
    requires w.Valid() && SoundLookup(look)
    requires depth >= 1 ==> |str| >= 4
    ensures r.world.Valid()
    ensures paths <= r.out
    ensures depth == 0 ==> r == Walk(w, paths)
    decreases depth, 0
  {
    if depth == 0 then Walk(w, paths)
    else
      var pom := lib.pomOf(DepPomPath(str));
      var e := ExpandPom(w.depMap, pom, lib.compare);
      CollectChildren(lib, look, w.(depMap := e.depMap), flats, e.exclusions, pom.deps, 0, paths, depth - 1)
  }

  /**
   * One iteration of `QX`'s loop: a followed dependency is registered
   * (`makeDep`), its registered node resolved, and a path found is collected.
   */
  function CollectChild(lib: Collaborators, look: Lookup, w: World, flats: Flats, exclusions: set<string>,
                        c: Dependency, paths: seq<string>, depth: nat): (r: Walk<string>)
    requires w.Valid() && SoundLookup(look)
    ensures r.world.Valid()
    ensures paths <= r.out
    decreases depth, 2
  {
    if !Followed(exclusions, c) then Walk(w, paths)
    else
      var res := look(w.fs, w.depPathMap, flats, CanonicalNode(w.depMap, c));
      var w1 := World(AfterMakeDep(w.depMap, c), res.cache, res.fs);
      if res.path.None? then Walk(w1, paths)
      else Collect(lib, look, w1, flats, res.path.value, paths, depth)
  }

  /** `QX`'s loop over a pom's dependencies, from index `from` on. */
  function CollectChildren(lib: Collaborators, look: Lookup, w: World, flats: Flats, exclusions: set<string>,
                           children: seq<Dependency>, from: nat, paths: seq<string>, depth: nat): (r: Walk<string>)
    requires w.Valid() && SoundLookup(look)
    ensures r.world.Valid()
    ensures paths <= r.out
    decreases depth, |children| - from + 3
  {
    if from >= |children| then Walk(w, paths)
    else
      var step := CollectChild(lib, look, w, flats, exclusions, children[from], paths, depth);
      CollectChildren(lib, look, step.world, flats, exclusions, children, from + 1, step.out, depth)
  }

  /** `QX`'s loop from index `from` on is the loop over the dependencies from index `k` on, started `k` places earlier. */
  lemma {:induction false} CollectChildrenShift(lib: Collaborators, look: Lookup, w: World, flats: Flats, exclusions: set<string>,
                                               children: seq<Dependency>, from: nat, k: nat, paths: seq<string>, depth: nat)
    requires w.Valid() && SoundLookup(look) && k <= from <= |children|
    ensures CollectChildren(lib, look, w, flats, exclusions, children, from, paths, depth)
            == CollectChildren(lib, look, w, flats, exclusions, children[k..], from - k, paths, depth)
    decreases |children| - from
  {
    if from < |children| {
      assert children[k..][from - k] == children[from];
      var step := CollectChild(lib, look, w, flats, exclusions, children[from], paths, depth);
      CollectChildrenShift(lib, look, step.world, flats, exclusions, children, from + 1, k, step.out, depth);
    }
  }

  /**
   * Exclusion in `QX`: the loop over a pom's dependencies is the loop over the
   * followed ones alone. An excluded or android-all dependency is never
   * registered, looked up or listed, and changes nothing.
   */
  lemma {:induction false} CollectSkipsExcluded(lib: Collaborators, look: Lookup, w: World, flats: Flats, exclusions: set<string>,
                                               children: seq<Dependency>, paths: seq<string>, depth: nat)
    requires w.Valid() && SoundLookup(look)
    ensures CollectChildren(lib, look, w, flats, exclusions, children, 0, paths, depth)
            == CollectChildren(lib, look, w, flats, exclusions, FollowedOnly(exclusions, children), 0, paths, depth)
    decreases |children|
  {
    if children != [] {
      var c := children[0];
      var rest := FollowedOnly(exclusions, children[1..]);
      var step := CollectChild(lib, look, w, flats, exclusions, c, paths, depth);
      CollectChildrenFirst(lib, look, w, flats, exclusions, children, paths, depth);
      CollectSkipsExcluded(lib, look, step.world, flats, exclusions, children[1..], step.out, depth);
      if Followed(exclusions, c) {
        var kept := [c] + rest;
        assert FollowedOnly(exclusions, children) == kept;
        assert kept[0] == c && kept[1..] == rest;
        CollectChildrenFirst(lib, look, w, flats, exclusions, kept, paths, depth);
      } else {
        CollectChildSkip(lib, look, w, flats, exclusions, c, paths, depth);
        assert FollowedOnly(exclusions, children) == rest;
      }
    }
  }

  /** `QX`'s loop over a pom's dependencies: the first one, then the loop over the others. */
  lemma CollectChildrenFirst(lib: Collaborators, look: Lookup, w: World, flats: Flats, exclusions: set<string>,
                             children: seq<Dependency>, paths: seq<string>, depth: nat)
    requires w.Valid() && SoundLookup(look) && children != []
    ensures var step := CollectChild(lib, look, w, flats, exclusions, children[0], paths, depth);
            CollectChildren(lib, look, w, flats, exclusions, children, 0, paths, depth)
            == CollectChildren(lib, look, step.world, flats, exclusions, children[1..], 0, step.out, depth)
  {
    var step := CollectChild(lib, look, w, flats, exclusions, children[0], paths, depth);
    CollectChildrenShift(lib, look, step.world, flats, exclusions, children, 1, 1, step.out, depth);
  }

  /** `QX` never lists a path twice. */
  lemma {:induction false} CollectDistinct(lib: Collaborators, look: Lookup, w: World, flats: Flats, str: string,
                                          paths: seq<string>, depth: nat)
    requires w.Valid() && SoundLookup(look)
    requires depth >= 1 && str !in paths ==> |str| >= 4
    requires Distinct(paths)
    ensures Distinct(Collect(lib, look, w, flats, str, paths, depth).out)
    decreases depth, 1
  {
    if str !in paths {
      assert Distinct(paths + [str]);
      CollectBelowDistinct(lib, look, w, flats, str, paths + [str], depth);
    }
  }

  lemma {:induction false} CollectBelowDistinct(lib: Collaborators, look: Lookup, w: World, flats: Flats, str: string,
                                               paths: seq<string>, depth: nat)
    requires w.Valid() && SoundLookup(look)
    requires depth >= 1 ==> |str| >= 4
    requires Distinct(paths)
    ensures Distinct(CollectBelow(lib, look, w, flats, str, paths, depth).out)
    decreases depth, 0
  {
    if depth > 0 {
      var pom := lib.pomOf(DepPomPath(str));
      var e := ExpandPom(w.depMap, pom, lib.compare);
      var w1 := w.(depMap := e.depMap);
      assert CollectBelow(lib, look, w, flats, str, paths, depth) == CollectChildren(lib, look, w1, flats, e.exclusions, pom.deps, 0, paths, depth - 1);
      CollectChildrenDistinct(lib, look, w1, flats, e.exclusions, pom.deps, 0, paths, depth - 1);
    }
  }

  lemma {:induction false} CollectChildDistinct(lib: Collaborators, look: Lookup, w: World, flats: Flats, exclusions: set<string>,
                                               c: Dependency, paths: seq<string>, depth: nat)
    requires w.Valid() && SoundLookup(look)
    requires Distinct(paths)
    ensures Distinct(CollectChild(lib, look, w, flats, exclusions, c, paths, depth).out)
    decreases depth, 2
  {
    if Followed(exclusions, c) {
      var res := look(w.fs, w.depPathMap, flats, CanonicalNode(w.depMap, c));
      var w1 := World(AfterMakeDep(w.depMap, c), res.cache, res.fs);
      if res.path.Some? {
        CollectDistinct(lib, look, w1, flats, res.path.value, paths, depth);
      }
    }
  }

  lemma {:induction false} CollectChildrenDistinct(lib: Collaborators, look: Lookup, w: World, flats: Flats, exclusions: set<string>,
                                                  children: seq<Dependency>, from: nat, paths: seq<string>, depth: nat)
    requires w.Valid() && SoundLookup(look)
    requires Distinct(paths)
    ensures Distinct(CollectChildren(lib, look, w, flats, exclusions, children, from, paths, depth).out)
    decreases depth, |children| - from + 3
  {
    if from < |children| {
      var step := CollectChild(lib, look, w, flats, exclusions, children[from], paths, depth);
      CollectChildDistinct(lib, look, w, flats, exclusions, children[from], paths, depth);
      CollectChildrenDistinct(lib, look, step.world, flats, exclusions, children, from + 1, step.out, depth);
    }
  }

  /** Every entry from index `from` on is a well-formed path. */
  predicate WellFormedFrom(s: seq<string>, from: nat) {
    forall i :: from <= i < |s| ==> WellFormedPath(s[i])
  }

  /** `p` lies in the cache directory `dir` of a flat repository and names an exploded aar there. */
  predicate InFlatCache(dir: string, p: string) {
    StartsWith(p, dir + "/") && EndsWith(p, ".exploded.aar")
  }

  /**
   * `p` is on record after a lookup: a path stored in the path cache
   * (`depPathMap`), or an aar exploded into the cache directory of one of
   * the flat repositories.
   */
  predicate Recorded(flats: Flats, cache: map<string, string>, p: string) {
    || p in cache.Values
    || (flats.Some? && exists i :: 0 <= i < |flats.value| && InFlatCache(flats.value[i].1, p))
  }

  /** Every entry from index `from` on is well formed and on record in `cache`. */
  predicate RecordedFrom(flats: Flats, cache: map<string, string>, s: seq<string>, from: nat) {
    WellFormedFrom(s, from) && forall i :: from <= i < |s| ==> Recorded(flats, cache, s[i])
  }

  /** What a walk from `w` to `r` appends after index `from` is on record in the cache it leaves, which keeps every cached path. */
  predicate AppendsRecorded(flats: Flats, w: World, r: Walk<string>, from: nat) {
    RecordedFrom(flats, r.world.depPathMap, r.out, from) && CacheExtends(w.depPathMap, r.world.depPathMap)
  }

  /** A lookup whose every path found is on record in the cache it returns. */
  ghost predicate RecordingLookup(look: Lookup) {
    forall fs: FsState, cache: map<string, string>, flats: Flats, d: Dependency {:trigger look(fs, cache, flats, d)} ::
      var r := look(fs, cache, flats, d);
      r.path.Some? ==> Recorded(flats, r.cache, r.path.value)
  }

  /**
   * `resolveMavenDepPath` records what it finds: a flat hit is the exploded
   * aar in that flat repository's cache directory, and any other path found
   * is the value cached under the node's key.
   */
  lemma ServiceLookupRecords(lib: Collaborators, env: Env)
    ensures RecordingLookup(ServiceLookup(lib, env))
  {
    forall fs: FsState, cache: map<string, string>, flats: Flats, d: Dependency
      ensures var r := Resolve(fs, lib, env, cache, flats, d);
              r.path.Some? ==> Recorded(flats, r.cache, r.path.value)
    {
      var r := Resolve(fs, lib, env, cache, flats, d);
      var hit := if flats.Some? then FlatHit(fs, lib, flats.value, d) else None;
      if hit.Some? {
        var i :| 0 <= i < |flats.value| && hit.value.1 == flats.value[i].1
                 && FlatArtifactPath(fs, lib, flats.value[i].0, d.artifactId, d.version) == Some(hit.value.0);
        assert InFlatCache(flats.value[i].1, r.path.value);
      } else if r.path.Some? {
        var key := lib.pathKey(d);
        assert key in r.cache && r.cache[key] == r.path.value;
      }
    }
  }

  /** A path on record stays on record while the cache only grows. */
  lemma RecordedKept(flats: Flats, c: map<string, string>, c': map<string, string>, p: string)
    requires Recorded(flats, c, p) && CacheExtends(c, c')
    ensures Recorded(flats, c', p)
  {
    if p in c.Values {
      var k :| k in c && c[k] == p;
      assert c'[k] == p;
    }
  }

  /** A prefix on record in `a`'s cache and the entries appended after it, on record in the later cache `cb`. */
  lemma RecordedAppended(flats: Flats, ca: map<string, string>, cb: map<string, string>, a: seq<string>, b: seq<string>, from: nat)
    requires a <= b && CacheExtends(ca, cb)
    requires RecordedFrom(flats, ca, a, from) && RecordedFrom(flats, cb, b, |a|)
    ensures RecordedFrom(flats, cb, b, from)
  {
    forall i | from <= i < |b|
      ensures WellFormedPath(b[i]) && Recorded(flats, cb, b[i])
    {
      if i < |a| {
        assert b[i] == a[i];
        RecordedKept(flats, ca, cb, a[i]);
      }
    }
  }

  /**
   * What `QX` appends: `str` first, then only paths the lookup found and put
   * on record (in the path cache `QX` leaves, or exploded into a flat cache
   * directory), each well formed, so `getDepPomPath` and `getVersion` apply
   * to it.
   */
  lemma {:induction false} CollectAppendsRecordedPaths(lib: Collaborators, look: Lookup, w: World, flats: Flats, str: string,
                                                      paths: seq<string>, depth: nat)
    requires w.Valid() && SoundLookup(look) && RecordingLookup(look)
    requires depth >= 1 && str !in paths ==> |str| >= 4
    ensures var r := Collect(lib, look, w, flats, str, paths, depth);
            && (str in paths ==> r.out == paths)
            && (str !in paths ==> |r.out| > |paths| && r.out[|paths|] == str)
            && AppendsRecorded(flats, w, r, |paths| + 1)
    decreases depth, 1
  {
    if str !in paths {
      var r := CollectBelow(lib, look, w, flats, str, paths + [str], depth);
      CollectBelowAppendsRecordedPaths(lib, look, w, flats, str, paths + [str], depth);
      assert r.out[|paths|] == (paths + [str])[|paths|];
    }
  }

  lemma {:induction false} CollectBelowAppendsRecordedPaths(lib: Collaborators, look: Lookup, w: World, flats: Flats, str: string,
                                                           paths: seq<string>, depth: nat)
    requires w.Valid() && SoundLookup(look) && RecordingLookup(look)
    requires depth >= 1 ==> |str| >= 4
    ensures AppendsRecorded(flats, w, CollectBelow(lib, look, w, flats, str, paths, depth), |paths|)
    decreases depth, 0
  {
    if depth > 0 {
      var pom := lib.pomOf(DepPomPath(str));
      var e := ExpandPom(w.depMap, pom, lib.compare);
      CollectBelowUnfold(lib, look, w, flats, str, paths, depth, pom, e.exclusions, w.(depMap := e.depMap));
      CollectChildrenAppendRecordedPaths(lib, look, w.(depMap := e.depMap), flats, e.exclusions, pom.deps, 0, paths, depth - 1);
    }
  }

  lemma {:induction false} CollectChildAppendsRecordedPaths(lib: Collaborators, look: Lookup, w: World, flats: Flats, exclusions: set<string>,
                                                           c: Dependency, paths: seq<string>, depth: nat)
    requires w.Valid() && SoundLookup(look) && RecordingLookup(look)
    ensures AppendsRecorded(flats, w, CollectChild(lib, look, w, flats, exclusions, c, paths, depth), |paths|)
    decreases depth, 2
  {
    if Followed(exclusions, c) {
      var res := look(w.fs, w.depPathMap, flats, CanonicalNode(w.depMap, c));
      var w1 := World(AfterMakeDep(w.depMap, c), res.cache, res.fs);
      if res.path.Some? {
        var p := res.path.value;
        CollectAppendsRecordedPaths(lib, look, w1, flats, p, paths, depth);
        var r := Collect(lib, look, w1, flats, p, paths, depth);
        if p !in paths {
          assert Recorded(flats, w1.depPathMap, p);
          RecordedKept(flats, w1.depPathMap, r.world.depPathMap, p);
          forall i | |paths| <= i < |r.out|
            ensures WellFormedPath(r.out[i]) && Recorded(flats, r.world.depPathMap, r.out[i])
          {
          }
        }
      }
    }
  }

  lemma {:induction false} CollectChildrenAppendRecordedPaths(lib: Collaborators, look: Lookup, w: World, flats: Flats, exclusions: set<string>,
                                                             children: seq<Dependency>, from: nat, paths: seq<string>, depth: nat)
    requires w.Valid() && SoundLookup(look) && RecordingLookup(look)
    ensures AppendsRecorded(flats, w, CollectChildren(lib, look, w, flats, exclusions, children, from, paths, depth), |paths|)
    decreases depth, |children| - from + 3
  {
    if from < |children| {
      var step := CollectChild(lib, look, w, flats, exclusions, children[from], paths, depth);
      var r := CollectChildren(lib, look, w, flats, exclusions, children, from, paths, depth);
      CollectChildAppendsRecordedPaths(lib, look, w, flats, exclusions, children[from], paths, depth);
      CollectChildrenAppendRecordedPaths(lib, look, step.world, flats, exclusions, children, from + 1, step.out, depth);
      assert r == CollectChildren(lib, look, step.world, flats, exclusions, children, from + 1, step.out, depth);
      RecordedAppended(flats, step.world.depPathMap, r.world.depPathMap, step.out, r.out, |paths|);
    }
  }

  /** `QX` never downgrades a registered node and never forgets a cached path. */
  lemma {:induction false} CollectKeepsRegistry(lib: Collaborators, look: Lookup, w: World, flats: Flats, str: string,
                                               paths: seq<string>, depth: nat)
    requires w.Valid() && SoundLookup(look) && TransitiveUpgrade(lib.compare)
    requires depth >= 1 && str !in paths ==> |str| >= 4
    ensures RegistryKept(w, Collect(lib, look, w, flats, str, paths, depth).world, lib.compare)
    decreases depth, 1
  {
    if str !in paths {
      CollectBelowKeepsRegistry(lib, look, w, flats, str, paths + [str], depth);
    }
  }

  lemma {:induction false} CollectBelowKeepsRegistry(lib: Collaborators, look: Lookup, w: World, flats: Flats, str: string,
                                                    paths: seq<string>, depth: nat)
    requires w.Valid() && SoundLookup(look) && TransitiveUpgrade(lib.compare)
    requires depth >= 1 ==> |str| >= 4
    ensures RegistryKept(w, CollectBelow(lib, look, w, flats, str, paths, depth).world, lib.compare)
    decreases depth, 0
  {
    var r := CollectBelow(lib, look, w, flats, str, paths, depth);
    if depth == 0 {
      RegistryKeptRefl(w, lib.compare);
    } else {
      var pom := lib.pomOf(DepPomPath(str));
      var e := ExpandPom(w.depMap, pom, lib.compare);
      var w1 := w.(depMap := e.depMap);
      ExpandPomKeepsRegistry(w, pom, lib.compare);
      assert r == CollectChildren(lib, look, w1, flats, e.exclusions, pom.deps, 0, paths, depth - 1);
      CollectChildrenKeepRegistry(lib, look, w1, flats, e.exclusions, pom.deps, 0, paths, depth - 1);
      RegistryKeptChain(w, w1, r.world, lib.compare);
    }
  }

  lemma {:induction false} CollectChildKeepsRegistry(lib: Collaborators, look: Lookup, w: World, flats: Flats, exclusions: set<string>,
                                                    c: Dependency, paths: seq<string>, depth: nat)
    requires w.Valid() && SoundLookup(look) && TransitiveUpgrade(lib.compare)
    ensures RegistryKept(w, CollectChild(lib, look, w, flats, exclusions, c, paths, depth).world, lib.compare)
    decreases depth, 2
  {
    if Followed(exclusions, c) {
      var res := look(w.fs, w.depPathMap, flats, CanonicalNode(w.depMap, c));
      var w1 := World(AfterMakeDep(w.depMap, c), res.cache, res.fs);
      MakeDepIsGetOrInsert(w.depMap, c, lib.compare);
      if res.path.Some? {
        CollectKeepsRegistry(lib, look, w1, flats, res.path.value, paths, depth);
        NoDowngradeTransitive(w.depMap, w1.depMap, CollectChild(lib, look, w, flats, exclusions, c, paths, depth).world.depMap, lib.compare);
      }
    }
  }

  lemma {:induction false} CollectChildrenKeepRegistry(lib: Collaborators, look: Lookup, w: World, flats: Flats, exclusions: set<string>,
                                                      children: seq<Dependency>, from: nat, paths: seq<string>, depth: nat)
    requires w.Valid() && SoundLookup(look) && TransitiveUpgrade(lib.compare)
    ensures RegistryKept(w, CollectChildren(lib, look, w, flats, exclusions, children, from, paths, depth).world, lib.compare)
    decreases depth, |children| - from + 3
  {
    if from < |children| {
      var step := CollectChild(lib, look, w, flats, exclusions, children[from], paths, depth);
      CollectChildKeepsRegistry(lib, look, w, flats, exclusions, children[from], paths, depth);
      CollectChildrenKeepRegistry(lib, look, step.world, flats, exclusions, children, from + 1, step.out, depth);
      NoDowngradeTransitive(w.depMap, step.world.depMap,
                            CollectChildren(lib, look, w, flats, exclusions, children, from, paths, depth).world.depMap, lib.compare);
    }
  }

  /** `Ws(flats, depPath)`: no path gives an empty list, otherwise `QX` from an empty list, three levels deep. */
  function PathsOfTree(lib: Collaborators, look: Lookup, w: World, flats: Flats, depPath: Option<string>): (r: Walk<string>)
    requires w.Valid() && SoundLookup(look)
    requires depPath.Some? ==> |depPath.value| >= 4
    ensures r.world.Valid()
    ensures depPath.None? <==> r.out == []
  {
    if depPath.None? then Walk(w, [])
    else Collect(lib, look, w, flats, depPath.value, [], 3)
  }

  /**
   * The list `Ws` returns starts with its argument, holds no duplicates, and
   * every later entry is a well-formed path the lookup found and put on
   * record in the path cache `Ws` leaves, or exploded into a flat cache
   * directory.
   */
  lemma PathsOfTreeShape(lib: Collaborators, look: Lookup, w: World, flats: Flats, depPath: string)
    requires w.Valid() && SoundLookup(look) && RecordingLookup(look) && |depPath| >= 4
    ensures var r := PathsOfTree(lib, look, w, flats, Some(depPath));
            && r.out[0] == depPath && Distinct(r.out) && RecordedFrom(flats, r.world.depPathMap, r.out, 1)
            && CacheExtends(w.depPathMap, r.world.depPathMap)
  {
    CollectDistinct(lib, look, w, flats, depPath, [], 3);
    CollectAppendsRecordedPaths(lib, look, w, flats, depPath, [], 3);
  }

  /** Below a listed path, with depth left, the walk is the loop over the dependencies of the pom next to it. */
  lemma CollectBelowUnfold(lib: Collaborators, look: Lookup, w: World, flats: Flats, str: string, paths: seq<string>, depth: nat,
                           pom: Pom, exclusions: set<string>, w': World)
    requires w.Valid() && SoundLookup(look) && depth >= 1 && |str| >= 4
    requires pom == lib.pomOf(DepPomPath(str))
    requires var e := ExpandPom(w.depMap, pom, lib.compare);
             exclusions == e.exclusions && w' == w.(depMap := e.depMap)
    ensures CollectBelow(lib, look, w, flats, str, paths, depth)
            == CollectChildren(lib, look, w', flats, exclusions, pom.deps, 0, paths, depth - 1)
  {
  }

  // Fixture for `ExclusionIsPerNode`. Everything from here to that lemma
  // (the `Scenario` members and the unfolding steps `CollectUnfold`,
  // `CollectChildUnfold` and `CollectChildrenUnfold`) exists only to state
  // and prove it, and has no counterpart in the service. The concrete tree: the pom at `m/r.jar`
  // excludes `g:c` and depends on `g:b` and `g:c`; the pom of `g:b` depends on `g:c`.

  function ScenarioDep(artifactId: string, exclusions: set<string>): Dependency {
    Dependency("g", artifactId, "1", "jar", exclusions)
  }

  /** Collaborators that read the poms of that tree and find `g:b` and `g:c` at `m/b.jar` and `m/c.jar`. */
  ghost predicate ScenarioCollaborators(lib: Collaborators, look: Lookup) {
    && SoundLookup(look)
    && lib.pomOf(DepPomPath("m/r.jar")) == Pom(ScenarioDep("r", {"g:c"}), [ScenarioDep("b", {}), ScenarioDep("c", {})], [])
    && lib.pomOf(DepPomPath("m/b.jar")) == Pom(ScenarioDep("b", {}), [ScenarioDep("c", {})], [])
    && lib.pomOf(DepPomPath("m/c.jar")) == Pom(ScenarioDep("c", {}), [], [])
    && (forall fs: FsState, cache: map<string, string>, flats: Flats ::
          look(fs, cache, flats, ScenarioDep("b", {})) == Resolution(Some("m/b.jar"), cache, fs))
    && (forall fs: FsState, cache: map<string, string>, flats: Flats ::
          look(fs, cache, flats, ScenarioDep("c", {})) == Resolution(Some("m/c.jar"), cache, fs))
  }

  function ScenarioPom(pomPath: string): Pom {
    if |pomPath| > 2 && pomPath[2] == 'r' then
      Pom(ScenarioDep("r", {"g:c"}), [ScenarioDep("b", {}), ScenarioDep("c", {})], [])
    else if |pomPath| > 2 && pomPath[2] == 'b' then Pom(ScenarioDep("b", {}), [ScenarioDep("c", {})], [])
    else Pom(ScenarioDep("c", {}), [], [])
  }

  function ScenarioLib(): Collaborators {
    Collaborators(ScenarioPom, (p, q) => None, (l, q) => None, (a, b) => false, (a, b) => 0, (d: Dependency) => d.artifactId)
  }

  /** Every artifact `a` is found at `m/<a>.jar`; nothing else changes. */
  function ScenarioLookup(): Lookup {
    (fs: FsState, cache: map<string, string>, flats: Flats, d: Dependency) => Resolution(Some("m/" + d.artifactId + ".jar"), cache, fs)
  }

  lemma ScenarioLookupSound()
    ensures SoundLookup(ScenarioLookup())
  {
    forall d: Dependency
      ensures WellFormedPath("m/" + d.artifactId + ".jar")
    {
      var p := "m/" + d.artifactId + ".jar";
      assert p[1] == '/' && p[|p| - 1] == 'r';
    }
  }

  lemma ScenarioPoms()
    ensures ScenarioLib().pomOf(DepPomPath("m/r.jar")) == Pom(ScenarioDep("r", {"g:c"}), [ScenarioDep("b", {}), ScenarioDep("c", {})], [])
    ensures ScenarioLib().pomOf(DepPomPath("m/b.jar")) == Pom(ScenarioDep("b", {}), [ScenarioDep("c", {})], [])
    ensures ScenarioLib().pomOf(DepPomPath("m/c.jar")) == Pom(ScenarioDep("c", {}), [], [])
  {
    assert DepPomPath("m/r.jar") == "m/r.pom" && DepPomPath("m/b.jar") == "m/b.pom" && DepPomPath("m/c.jar") == "m/c.pom";
  }

  lemma ScenarioFinds(fs: FsState, cache: map<string, string>, flats: Flats)
    ensures ScenarioLookup()(fs, cache, flats, ScenarioDep("b", {})) == Resolution(Some("m/b.jar"), cache, fs)
    ensures ScenarioLookup()(fs, cache, flats, ScenarioDep("c", {})) == Resolution(Some("m/c.jar"), cache, fs)
  {
    assert "m/" + "b" + ".jar" == "m/b.jar" && "m/" + "c" + ".jar" == "m/c.jar";
  }

  /** Such collaborators exist. */
  lemma ScenarioCollaboratorsExist()
    ensures ScenarioCollaborators(ScenarioLib(), ScenarioLookup())
  {
    ScenarioLookupSound();
    ScenarioPoms();
    forall fs: FsState, cache: map<string, string>, flats: Flats
      ensures ScenarioLookup()(fs, cache, flats, ScenarioDep("b", {})) == Resolution(Some("m/b.jar"), cache, fs)
      ensures ScenarioLookup()(fs, cache, flats, ScenarioDep("c", {})) == Resolution(Some("m/c.jar"), cache, fs)
    {
      ScenarioFinds(fs, cache, flats);
    }
  }

  /** The keys of the tree's nodes, all distinct and none android-all, and its paths, all distinct. */
  lemma ScenarioKeys()
    ensures GroupIdArtifactId(ScenarioDep("b", {})) == "g:b" && GroupIdArtifactId(ScenarioDep("c", {})) == "g:c"
    ensures GroupIdArtifactId(ScenarioDep("r", {"g:c"})) == "g:r" && "g:r" != "g:b" && "g:r" != "g:c" && "g:b" != "g:c"
    ensures !IsAndroidAll(ScenarioDep("b", {})) && !IsAndroidAll(ScenarioDep("c", {}))
    ensures "m/b.jar" != "m/r.jar" && "m/c.jar" != "m/r.jar" && "m/c.jar" != "m/b.jar"
  {
    assert "g:b"[2] != "g:c"[2] && "g:r"[2] != "g:b"[2] && "g:r"[2] != "g:c"[2];
    assert "m/b.jar"[2] != "m/r.jar"[2] && "m/c.jar"[2] != "m/r.jar"[2] && "m/c.jar"[2] != "m/b.jar"[2];
  }

  /** A path not yet listed is appended, and the walk goes on below it with the pom next to it. */
  lemma CollectUnfold(lib: Collaborators, look: Lookup, w: World, flats: Flats, str: string, paths: seq<string>, depth: nat,
                      pom: Pom, exclusions: set<string>, w': World, paths': seq<string>)
    requires w.Valid() && SoundLookup(look) && depth >= 1 && |str| >= 4 && str !in paths
    requires pom == lib.pomOf(DepPomPath(str)) && paths' == paths + [str]
    requires var e := ExpandPom(w.depMap, pom, lib.compare);
             exclusions == e.exclusions && w' == w.(depMap := e.depMap)
    ensures Collect(lib, look, w, flats, str, paths, depth)
            == CollectChildren(lib, look, w', flats, exclusions, pom.deps, 0, paths', depth - 1)
  {
  }

  /** A followed dependency found at `p` is registered and collected from `p`. */
  lemma CollectChildUnfold(lib: Collaborators, look: Lookup, w: World, flats: Flats, exclusions: set<string>,
                           c: Dependency, paths: seq<string>, depth: nat, p: string, w': World)
    requires w.Valid() && SoundLookup(look) && Followed(exclusions, c)
    requires look(w.fs, w.depPathMap, flats, CanonicalNode(w.depMap, c)) == Resolution(Some(p), w.depPathMap, w.fs)
    requires w' == w.(depMap := AfterMakeDep(w.depMap, c))
    ensures CollectChild(lib, look, w, flats, exclusions, c, paths, depth) == Collect(lib, look, w', flats, p, paths, depth)
  {
  }

  /** A dependency that is not followed changes nothing. */
  lemma CollectChildSkip(lib: Collaborators, look: Lookup, w: World, flats: Flats, exclusions: set<string>,
                         c: Dependency, paths: seq<string>, depth: nat)
    requires w.Valid() && SoundLookup(look) && !Followed(exclusions, c)
    ensures CollectChild(lib, look, w, flats, exclusions, c, paths, depth) == Walk(w, paths)
  {
  }

  /** `QX`'s loop: one dependency, then the rest; nothing once they are exhausted. */
  lemma CollectChildrenUnfold(lib: Collaborators, look: Lookup, w: World, flats: Flats, exclusions: set<string>,
                              children: seq<Dependency>, from: nat, paths: seq<string>, depth: nat)
    requires w.Valid() && SoundLookup(look)
    ensures from >= |children| ==> CollectChildren(lib, look, w, flats, exclusions, children, from, paths, depth) == Walk(w, paths)
    ensures from < |children| ==>
              var step := CollectChild(lib, look, w, flats, exclusions, children[from], paths, depth);
              CollectChildren(lib, look, w, flats, exclusions, children, from, paths, depth)
              == CollectChildren(lib, look, step.world, flats, exclusions, children, from + 1, step.out, depth)
  {
  }

  /** `g:c`, followed, is found at `m/c.jar` and listed; its pom has no dependencies. */
  lemma ScenarioLeaf(lib: Collaborators, look: Lookup, w: World, exclusions: set<string>, paths: seq<string>)
    requires ScenarioCollaborators(lib, look)
    requires w.Valid() && "g:c" !in w.depMap && "g:c" !in exclusions && "m/c.jar" !in paths
    ensures CollectChild(lib, look, w, None, exclusions, ScenarioDep("c", {}), paths, 1).out == paths + ["m/c.jar"]
  {
    ScenarioKeys();
    var c := ScenarioDep("c", {});
    var w1 := w.(depMap := AfterMakeDep(w.depMap, c));
    CollectChildUnfold(lib, look, w, None, exclusions, c, paths, 1, "m/c.jar", w1);
    var pom := lib.pomOf(DepPomPath("m/c.jar"));
    var e := ExpandPom(w1.depMap, pom, lib.compare);
    var w2 := w1.(depMap := e.depMap);
    var paths' := paths + ["m/c.jar"];
    CollectUnfold(lib, look, w1, None, "m/c.jar", paths, 1, pom, e.exclusions, w2, paths');
    CollectChildrenUnfold(lib, look, w2, None, e.exclusions, pom.deps, 0, paths', 0);
  }

  /** `g:b`'s pom, read while `g:c` is unregistered, excludes nothing and leaves `g:c` unregistered. */
  lemma ScenarioPomB(lib: Collaborators, look: Lookup, w: World)
    requires ScenarioCollaborators(lib, look)
    requires "g:c" !in w.depMap
    requires "g:b" in w.depMap ==> w.depMap["g:b"].exclusions == {}
    ensures var e := ExpandPom(w.depMap, lib.pomOf(DepPomPath("m/b.jar")), lib.compare);
            e.exclusions == {} && "g:c" !in e.depMap
  {
    ScenarioKeys();
  }

  /** `g:b`, at depth 2, lists itself and then `g:c`, which its own pom does not exclude. */
  lemma ScenarioSibling(lib: Collaborators, look: Lookup, w: World)
    requires ScenarioCollaborators(lib, look)
    requires w.Valid() && "g:c" !in w.depMap
    requires "g:b" in w.depMap ==> w.depMap["g:b"].exclusions == {}
    ensures Collect(lib, look, w, None, "m/b.jar", ["m/r.jar"], 2).out == ["m/r.jar", "m/b.jar", "m/c.jar"]
  {
    ScenarioKeys();
    ScenarioPomB(lib, look, w);
    var paths := ["m/r.jar"] + ["m/b.jar"];
    var pom := lib.pomOf(DepPomPath("m/b.jar"));
    var kids := pom.deps;
    var e := ExpandPom(w.depMap, pom, lib.compare);
    var w1 := w.(depMap := e.depMap);
    CollectUnfold(lib, look, w, None, "m/b.jar", ["m/r.jar"], 2, pom, e.exclusions, w1, paths);
    ScenarioLeaf(lib, look, w1, e.exclusions, paths);
    var step := CollectChild(lib, look, w1, None, e.exclusions, kids[0], paths, 1);
    CollectChildrenUnfold(lib, look, w1, None, e.exclusions, kids, 0, paths, 1);
    CollectChildrenUnfold(lib, look, step.world, None, e.exclusions, kids, 1, step.out, 1);
  }

  /**
   * Exclusions apply to the children of the node that declares them, not to
   * the tree below it: `g:c`, excluded by the root pom, is still collected
   * through the root's other dependency `g:b`, whatever the disk and the
   * path cache hold.
   */
  lemma ExclusionIsPerNode(lib: Collaborators, look: Lookup, w: World)
    requires ScenarioCollaborators(lib, look)
    requires w.Valid() && w.depMap == map[]
    ensures ExpandPom(w.depMap, lib.pomOf(DepPomPath("m/r.jar")), lib.compare).exclusions == {"g:c"}
    ensures Collect(lib, look, w, None, "m/r.jar", [], 3).out == ["m/r.jar", "m/b.jar", "m/c.jar"]
  {
    ScenarioKeys();
    var b := ScenarioDep("b", {});
    var c := ScenarioDep("c", {});
    var pom := lib.pomOf(DepPomPath("m/r.jar"));
    var kids := pom.deps;
    var e := ExpandPom(w.depMap, pom, lib.compare);
    var excluded := {"g:c"};
    assert e.exclusions == excluded;
    var w1 := w.(depMap := e.depMap);
    assert w1.depMap.Keys == {"g:r"};
    var p1 := ["m/r.jar"];
    CollectUnfold(lib, look, w, None, "m/r.jar", [], 3, pom, excluded, w1, p1);
    var wb := w1.(depMap := AfterMakeDep(w1.depMap, b));
    assert wb.depMap == w1.depMap["g:b" := b];
    assert "g:c" !in wb.depMap && wb.depMap["g:b"].exclusions == {};
    CollectChildUnfold(lib, look, w1, None, excluded, b, p1, 2, "m/b.jar", wb);
    ScenarioSibling(lib, look, wb);
    var stepB := CollectChild(lib, look, w1, None, excluded, kids[0], p1, 2);
    CollectChildrenUnfold(lib, look, w1, None, excluded, kids, 0, p1, 2);
    CollectChildSkip(lib, look, stepB.world, None, excluded, kids[1], stepB.out, 2);
    CollectChildrenUnfold(lib, look, stepB.world, None, excluded, kids, 1, stepB.out, 2);
    CollectChildrenUnfold(lib, look, stepB.world, None, excluded, kids, 2, stepB.out, 2);
  }

  /**
   * `resolveFullDependencyTree(flats, dep)`: `Ws` applied to the path of the
   * node `makeDep(dep)` registers. Every path of the tree, its root
   * included, is well formed and on record in the path cache left behind or
   * in a flat cache directory.
   */
  function FullDependencyTree(lib: Collaborators, look: Lookup, w: World, flats: Flats, dep: Dependency): (r: Walk<string>)
    requires w.Valid() && SoundLookup(look) && RecordingLookup(look)
    ensures r.world.Valid()
    ensures RecordedFrom(flats, r.world.depPathMap, r.out, 0)
  {
    var res := look(w.fs, w.depPathMap, flats, CanonicalNode(w.depMap, dep));
    var w1 := World(AfterMakeDep(w.depMap, dep), res.cache, res.fs);
    if res.path.Some? then
      var r := PathsOfTree(lib, look, w1, flats, res.path);
      PathsOfTreeShape(lib, look, w1, flats, res.path.value);
      RecordedKept(flats, res.cache, r.world.depPathMap, res.path.value);
      r
    else PathsOfTree(lib, look, w1, flats, res.path)
  }

  // ---------------------------------------------------------------------------
  // yS: the dependencies missing from every local repository
  // ---------------------------------------------------------------------------

  /**
   * `yS(flats, dep, list, depth)`: `dep` is registered and its node resolved;
   * an unresolvable `dep` is appended to the list, otherwise, while depth
   * remains, the followed dependencies of its pom are checked one level down.
   */
  function Missing(lib: Collaborators, look: Lookup, w: World, flats: Flats, dep: Dependency,
                   list: seq<Dependency>, depth: nat): (r: Walk<Dependency>)
    requires w.Valid() && SoundLookup(look)
    ensures r.world.Valid()
    ensures list <= r.out
    ensures depth == 0 ==> && r.world.depMap == AfterMakeDep(w.depMap, dep)
                           && r.out == (if look(w.fs, w.depPathMap, flats, CanonicalNode(w.depMap, dep)).path.None?
                                        then list + [dep] else list)
    decreases depth, 1
  {
    var res := look(w.fs, w.depPathMap, flats, CanonicalNode(w.depMap, dep));
    var w1 := World(AfterMakeDep(w.depMap, dep), res.cache, res.fs);
    if res.path.None? then Walk(w1, list + [dep])
    else MissingBelow(lib, look, w1, flats, res.path.value, list, depth)
  }

  /** `yS` below a dependency found at `path`: while depth remains, the followed dependencies of its pom, one level down. */
  function MissingBelow(lib: Collaborators, look: Lookup, w: World, flats: Flats, path: string,
                        list: seq<Dependency>, depth: nat): (r: Walk<Dependency>)
    requires w.Valid() && SoundLookup(look) && WellFormedPath(path)
    ensures r.world.Valid()
    ensures list <= r.out
    ensures depth == 0 ==> r == Walk(w, list)
    decreases depth, 0
  {
    if depth == 0 then Walk(w, list)
    else
      var pom := lib.pomOf(DepPomPath(path));
      var e := ExpandPom(w.depMap, pom, lib.compare);
      MissingChildren(lib, look, w.(depMap := e.depMap), flats, e.exclusions, pom.deps, 0, list, depth - 1)
  }

  /** One iteration of `yS`'s loop: a followed dependency is checked. */
  function MissingChild(lib: Collaborators, look: Lookup, w: World, flats: Flats, exclusions: set<string>,
                        c: Dependency, list: seq<Dependency>, depth: nat): (r: Walk<Dependency>)
    requires w.Valid() && SoundLookup(look)
    ensures r.world.Valid()
    ensures list <= r.out
    decreases depth, 2
  {
    if !Followed(exclusions, c) then Walk(w, list)
    else Missing(lib, look, w, flats, c, list, depth)
  }

  /** `yS`'s loop over a pom's dependencies, from index `from` on. */
  function MissingChildren(lib: Collaborators, look: Lookup, w: World, flats: Flats, exclusions: set<string>,
                           children: seq<Dependency>, from: nat, list: seq<Dependency>, depth: nat): (r: Walk<Dependency>)
    requires w.Valid() && SoundLookup(look)
    ensures r.world.Valid()
    ensures list <= r.out
    decreases depth, |children| - from + 3
  {
    if from >= |children| then Walk(w, list)
    else
      var step := MissingChild(lib, look, w, flats, exclusions, children[from], list, depth);
      MissingChildren(lib, look, step.world, flats, exclusions, children, from + 1, step.out, depth)
  }

  /** `yS`'s loop from index `from` on is the loop over the dependencies from index `k` on, started `k` places earlier. */
  lemma {:induction false} MissingChildrenShift(lib: Collaborators, look: Lookup, w: World, flats: Flats, exclusions: set<string>,
                                               children: seq<Dependency>, from: nat, k: nat, list: seq<Dependency>, depth: nat)
    requires w.Valid() && SoundLookup(look) && k <= from <= |children|
    ensures MissingChildren(lib, look, w, flats, exclusions, children, from, list, depth)
            == MissingChildren(lib, look, w, flats, exclusions, children[k..], from - k, list, depth)
    decreases |children| - from
  {
    if from < |children| {
      assert children[k..][from - k] == children[from];
      var step := MissingChild(lib, look, w, flats, exclusions, children[from], list, depth);
      MissingChildrenShift(lib, look, step.world, flats, exclusions, children, from + 1, k, step.out, depth);
    }
  }

  /**
   * Exclusion in `yS`: the loop over a pom's dependencies is the loop over the
   * followed ones alone. An excluded or android-all dependency is never
   * registered, looked up or reported, and changes nothing.
   */
  lemma {:induction false} MissingSkipsExcluded(lib: Collaborators, look: Lookup, w: World, flats: Flats, exclusions: set<string>,
                                               children: seq<Dependency>, list: seq<Dependency>, depth: nat)
    requires w.Valid() && SoundLookup(look)
    ensures MissingChildren(lib, look, w, flats, exclusions, children, 0, list, depth)
            == MissingChildren(lib, look, w, flats, exclusions, FollowedOnly(exclusions, children), 0, list, depth)
    decreases |children|
  {
    if children != [] {
      var c := children[0];
      var rest := FollowedOnly(exclusions, children[1..]);
      var step := MissingChild(lib, look, w, flats, exclusions, c, list, depth);
      MissingChildrenFirst(lib, look, w, flats, exclusions, children, list, depth);
      MissingSkipsExcluded(lib, look, step.world, flats, exclusions, children[1..], step.out, depth);
      if Followed(exclusions, c) {
        var kept := [c] + rest;
        assert FollowedOnly(exclusions, children) == kept;
        assert kept[0] == c && kept[1..] == rest;
        MissingChildrenFirst(lib, look, w, flats, exclusions, kept, list, depth);
      } else {
        assert step == Walk(w, list);
        assert FollowedOnly(exclusions, children) == rest;
      }
    }
  }

  /** `yS`'s loop over a pom's dependencies: the first one, then the loop over the others. */
  lemma MissingChildrenFirst(lib: Collaborators, look: Lookup, w: World, flats: Flats, exclusions: set<string>,
                             children: seq<Dependency>, list: seq<Dependency>, depth: nat)
    requires w.Valid() && SoundLookup(look) && children != []
    ensures var step := MissingChild(lib, look, w, flats, exclusions, children[0], list, depth);
            MissingChildren(lib, look, w, flats, exclusions, children, 0, list, depth)
            == MissingChildren(lib, look, step.world, flats, exclusions, children[1..], 0, step.out, depth)
  {
    var step := MissingChild(lib, look, w, flats, exclusions, children[0], list, depth);
    MissingChildrenShift(lib, look, step.world, flats, exclusions, children, 1, 1, step.out, depth);
  }

  /** Every entry from index `from` on is one of `children`, and followed. */
  predicate FollowedFrom(exclusions: set<string>, children: seq<Dependency>, s: seq<Dependency>, from: nat) {
    forall i :: from <= i < |s| ==> s[i] in children && Followed(exclusions, s[i])
  }

  /**
   * One level below the last expanded pom (depth 0), everything `yS` reports
   * is a dependency of that pom that it follows.
   */
  lemma {:induction false} MissingChildrenAtDepthZero(lib: Collaborators, look: Lookup, w: World, flats: Flats, exclusions: set<string>,
                                                     children: seq<Dependency>, from: nat, list: seq<Dependency>)
    requires w.Valid() && SoundLookup(look)
    ensures FollowedFrom(exclusions, children, MissingChildren(lib, look, w, flats, exclusions, children, from, list, 0).out, |list|)
    decreases |children| - from
  {
    if from < |children| {
      var c := children[from];
      var step := MissingChild(lib, look, w, flats, exclusions, c, list, 0);
      assert step.out == list || (step.out == list + [c] && Followed(exclusions, c));
      MissingChildrenAtDepthZero(lib, look, step.world, flats, exclusions, children, from + 1, step.out);
      var r := MissingChildren(lib, look, w, flats, exclusions, children, from, list, 0);
      forall i | |list| <= i < |r.out|
        ensures r.out[i] in children && Followed(exclusions, r.out[i])
      {
        if i < |step.out| {
          assert r.out[i] == step.out[i] == c;
        }
      }
    }
  }

  /** No entry from index `from` on is an android-all artifact. */
  predicate NoAndroidAllFrom(s: seq<Dependency>, from: nat) {
    forall i :: from <= i < |s| ==> !IsAndroidAll(s[i])
  }

  /**
   * `yS` reports an unresolvable `dep` and nothing else; below a `dep` that
   * resolves it never reports an android-all artifact.
   */
  lemma {:induction false} MissingReportsFollowed(lib: Collaborators, look: Lookup, w: World, flats: Flats, dep: Dependency,
                                                 list: seq<Dependency>, depth: nat)
    requires w.Valid() && SoundLookup(look)
    ensures var res := look(w.fs, w.depPathMap, flats, CanonicalNode(w.depMap, dep));
            var r := Missing(lib, look, w, flats, dep, list, depth);
            && (res.path.None? ==> r.out == list + [dep])
            && (res.path.Some? ==> NoAndroidAllFrom(r.out, |list|))
    decreases depth, 1
  {
    var res := look(w.fs, w.depPathMap, flats, CanonicalNode(w.depMap, dep));
    var w1 := World(AfterMakeDep(w.depMap, dep), res.cache, res.fs);
    if res.path.Some? && depth > 0 {
      var pom := lib.pomOf(DepPomPath(res.path.value));
      var e := ExpandPom(w1.depMap, pom, lib.compare);
      MissingChildrenReportFollowed(lib, look, w1.(depMap := e.depMap), flats, e.exclusions, pom.deps, 0, list, depth - 1);
    }
  }

  lemma {:induction false} MissingChildReportsFollowed(lib: Collaborators, look: Lookup, w: World, flats: Flats, exclusions: set<string>,
                                                      c: Dependency, list: seq<Dependency>, depth: nat)
    requires w.Valid() && SoundLookup(look)
    ensures NoAndroidAllFrom(MissingChild(lib, look, w, flats, exclusions, c, list, depth).out, |list|)
    decreases depth, 2
  {
    if Followed(exclusions, c) {
      MissingReportsFollowed(lib, look, w, flats, c, list, depth);
    }
  }

  lemma {:induction false} MissingChildrenReportFollowed(lib: Collaborators, look: Lookup, w: World, flats: Flats, exclusions: set<string>,
                                                        children: seq<Dependency>, from: nat, list: seq<Dependency>, depth: nat)
    requires w.Valid() && SoundLookup(look)
    ensures NoAndroidAllFrom(MissingChildren(lib, look, w, flats, exclusions, children, from, list, depth).out, |list|)
    decreases depth, |children| - from + 3
  {
    if from < |children| {
      var step := MissingChild(lib, look, w, flats, exclusions, children[from], list, depth);
      MissingChildReportsFollowed(lib, look, w, flats, exclusions, children[from], list, depth);
      MissingChildrenReportFollowed(lib, look, step.world, flats, exclusions, children, from + 1, step.out, depth);
      var r := MissingChildren(lib, look, w, flats, exclusions, children, from, list, depth);
      forall i | |list| <= i < |r.out|
        ensures !IsAndroidAll(r.out[i])
      {
        if i < |step.out| {
          assert r.out[i] == step.out[i];
        }
      }
    }
  }

  /** `yS` registers `dep`, never downgrades a registered node and never forgets a cached path. */
  lemma {:induction false} MissingKeepsRegistry(lib: Collaborators, look: Lookup, w: World, flats: Flats, dep: Dependency,
                                               list: seq<Dependency>, depth: nat)
    requires w.Valid() && SoundLookup(look) && TransitiveUpgrade(lib.compare)
    ensures var r := Missing(lib, look, w, flats, dep, list, depth);
            && GroupIdArtifactId(dep) in r.world.depMap
            && NoDowngrade(w.depMap, r.world.depMap, lib.compare)
            && CacheExtends(w.depPathMap, r.world.depPathMap)
    decreases depth, 1
  {
    var res := look(w.fs, w.depPathMap, flats, CanonicalNode(w.depMap, dep));
    var w1 := World(AfterMakeDep(w.depMap, dep), res.cache, res.fs);
    MakeDepIsGetOrInsert(w.depMap, dep, lib.compare);
    if res.path.Some? {
      MissingBelowKeepsRegistry(lib, look, w1, flats, res.path.value, list, depth);
      NoDowngradeTransitive(w.depMap, w1.depMap, Missing(lib, look, w, flats, dep, list, depth).world.depMap, lib.compare);
    }
  }

  lemma {:induction false} MissingBelowKeepsRegistry(lib: Collaborators, look: Lookup, w: World, flats: Flats, path: string,
                                                    list: seq<Dependency>, depth: nat)
    requires w.Valid() && SoundLookup(look) && WellFormedPath(path) && TransitiveUpgrade(lib.compare)
    ensures RegistryKept(w, MissingBelow(lib, look, w, flats, path, list, depth).world, lib.compare)
    decreases depth, 0
  {
    var r := MissingBelow(lib, look, w, flats, path, list, depth);
    if depth == 0 {
      RegistryKeptRefl(w, lib.compare);
    } else {
      var pom := lib.pomOf(DepPomPath(path));
      var e := ExpandPom(w.depMap, pom, lib.compare);
      var w1 := w.(depMap := e.depMap);
      ExpandPomKeepsRegistry(w, pom, lib.compare);
      assert r == MissingChildren(lib, look, w1, flats, e.exclusions, pom.deps, 0, list, depth - 1);
      MissingChildrenKeepRegistry(lib, look, w1, flats, e.exclusions, pom.deps, 0, list, depth - 1);
      RegistryKeptChain(w, w1, r.world, lib.compare);
    }
  }

  lemma {:induction false} MissingChildKeepsRegistry(lib: Collaborators, look: Lookup, w: World, flats: Flats, exclusions: set<string>,
                                                    c: Dependency, list: seq<Dependency>, depth: nat)
    requires w.Valid() && SoundLookup(look) && TransitiveUpgrade(lib.compare)
    ensures RegistryKept(w, MissingChild(lib, look, w, flats, exclusions, c, list, depth).world, lib.compare)
    decreases depth, 2
  {
    if Followed(exclusions, c) {
      MissingKeepsRegistry(lib, look, w, flats, c, list, depth);
    }
  }

  lemma {:induction false} MissingChildrenKeepRegistry(lib: Collaborators, look: Lookup, w: World, flats: Flats, exclusions: set<string>,
                                                      children: seq<Dependency>, from: nat, list: seq<Dependency>, depth: nat)
    requires w.Valid() && SoundLookup(look) && TransitiveUpgrade(lib.compare)
    ensures RegistryKept(w, MissingChildren(lib, look, w, flats, exclusions, children, from, list, depth).world, lib.compare)
    decreases depth, |children| - from + 3
  {
    if from < |children| {
      var step := MissingChild(lib, look, w, flats, exclusions, children[from], list, depth);
      MissingChildKeepsRegistry(lib, look, w, flats, exclusions, children[from], list, depth);
      MissingChildrenKeepRegistry(lib, look, step.world, flats, exclusions, children, from + 1, step.out, depth);
      NoDowngradeTransitive(w.depMap, step.world.depMap,
                            MissingChildren(lib, look, w, flats, exclusions, children, from, list, depth).world.depMap, lib.compare);
    }
  }

  /** `getNoDownloadDeps(flats, dep)`: `yS` from an empty list, three levels deep. */
  function NoDownloadDeps(lib: Collaborators, look: Lookup, w: World, flats: Flats, dep: Dependency): (r: Walk<Dependency>)
    requires w.Valid() && SoundLookup(look)
    ensures r.world.Valid()
  {
    Missing(lib, look, w, flats, dep, [], 3)
  }

  // ---------------------------------------------------------------------------
  // Zo: registering the versions found on disk
  // ---------------------------------------------------------------------------

  /**
   * `Zo(dep, depth)`: resolve `dep` itself without flat repositories; when it
   * resolves, register the version its path names under `Zo`'s rule and, while
   * depth remains, walk the followed dependencies of its pom.
   */
  function Register(lib: Collaborators, look: Lookup, w: World, dep: Dependency, depth: nat): (r: World)
    requires w.Valid() && SoundLookup(look)
    ensures r.Valid()
    ensures depth == 0 ==> r.depMap - {GroupIdArtifactId(dep)} == w.depMap - {GroupIdArtifactId(dep)}
    decreases depth, 1
  {
    var res := look(w.fs, w.depPathMap, None, dep);
    var w1 := w.(depPathMap := res.cache, fs := res.fs);
    if res.path.None? then w1
    else
      var p := res.path.value;
      WellFormedHasVersion(p);
      RegisterBelow(lib, look, w1.(depMap := RegisterVersion(w1.depMap, dep, VersionOfPath(p), lib.compare)), p, depth)
  }

  /** `Zo` once the version of the dependency found at `path` is registered: while depth remains, the followed dependencies of its pom, one level down. */
  function RegisterBelow(lib: Collaborators, look: Lookup, w: World, path: string, depth: nat): (r: World)
    requires w.Valid() && SoundLookup(look) && WellFormedPath(path)
    ensures r.Valid()
    ensures depth == 0 ==> r == w
    decreases depth, 0
  {
    if depth == 0 then w
    else
      var pom := lib.pomOf(DepPomPath(path));
      var e := ExpandPom(w.depMap, pom, lib.compare);
      RegisterChildren(lib, look, w.(depMap := e.depMap), e.exclusions, pom.deps, 0, depth - 1)
  }

  /** One iteration of `Zo`'s loop. */
  function RegisterChild(lib: Collaborators, look: Lookup, w: World, exclusions: set<string>, c: Dependency, depth: nat): (r: World)
    requires w.Valid() && SoundLookup(look)
    ensures r.Valid()
    decreases depth, 2
  {
    if !Followed(exclusions, c) then w else Register(lib, look, w, c, depth)
  }

  /** `Zo`'s loop over a pom's dependencies, from index `from` on. */
  function RegisterChildren(lib: Collaborators, look: Lookup, w: World, exclusions: set<string>,
                            children: seq<Dependency>, from: nat, depth: nat): (r: World)
    requires w.Valid() && SoundLookup(look)
    ensures r.Valid()
    decreases depth, |children| - from + 3
  {
    if from >= |children| then w
    else RegisterChildren(lib, look, RegisterChild(lib, look, w, exclusions, children[from], depth), exclusions, children, from + 1, depth)
  }

  /** `Zo`'s loop from index `from` on is the loop over the dependencies from index `k` on, started `k` places earlier. */
  lemma {:induction false} RegisterChildrenShift(lib: Collaborators, look: Lookup, w: World, exclusions: set<string>,
                                                children: seq<Dependency>, from: nat, k: nat, depth: nat)
    requires w.Valid() && SoundLookup(look) && k <= from <= |children|
    ensures RegisterChildren(lib, look, w, exclusions, children, from, depth)
            == RegisterChildren(lib, look, w, exclusions, children[k..], from - k, depth)
    decreases |children| - from
  {
    if from < |children| {
      assert children[k..][from - k] == children[from];
      var w1 := RegisterChild(lib, look, w, exclusions, children[from], depth);
      RegisterChildrenShift(lib, look, w1, exclusions, children, from + 1, k, depth);
    }
  }

  /**
   * Exclusion in `Zo`: the loop over a pom's dependencies is the loop over the
   * followed ones alone. An excluded or android-all dependency is never
   * looked up or registered, and changes nothing.
   */
  lemma {:induction false} RegisterSkipsExcluded(lib: Collaborators, look: Lookup, w: World, exclusions: set<string>,
                                                children: seq<Dependency>, depth: nat)
    requires w.Valid() && SoundLookup(look)
    ensures RegisterChildren(lib, look, w, exclusions, children, 0, depth)
            == RegisterChildren(lib, look, w, exclusions, FollowedOnly(exclusions, children), 0, depth)
    decreases |children|
  {
    if children != [] {
      var c := children[0];
      var rest := FollowedOnly(exclusions, children[1..]);
      var w1 := RegisterChild(lib, look, w, exclusions, c, depth);
      RegisterChildrenFirst(lib, look, w, exclusions, children, depth);
      RegisterSkipsExcluded(lib, look, w1, exclusions, children[1..], depth);
      if Followed(exclusions, c) {
        var kept := [c] + rest;
        assert FollowedOnly(exclusions, children) == kept;
        assert kept[0] == c && kept[1..] == rest;
        RegisterChildrenFirst(lib, look, w, exclusions, kept, depth);
      } else {
        assert w1 == w;
        assert FollowedOnly(exclusions, children) == rest;
      }
    }
  }

  /** `Zo`'s loop over a pom's dependencies: the first one, then the loop over the others. */
  lemma RegisterChildrenFirst(lib: Collaborators, look: Lookup, w: World, exclusions: set<string>,
                              children: seq<Dependency>, depth: nat)
    requires w.Valid() && SoundLookup(look) && children != []
    ensures RegisterChildren(lib, look, w, exclusions, children, 0, depth)
            == RegisterChildren(lib, look, RegisterChild(lib, look, w, exclusions, children[0], depth), exclusions, children[1..], 0, depth)
  {
    RegisterChildrenShift(lib, look, RegisterChild(lib, look, w, exclusions, children[0], depth), exclusions, children, 1, 1, depth);
  }

  /** `Zo` never downgrades a registered node and never forgets a cached path. */
  lemma {:induction false} RegisterKeepsRegistry(lib: Collaborators, look: Lookup, w: World, dep: Dependency, depth: nat)
    requires w.Valid() && SoundLookup(look) && TransitiveUpgrade(lib.compare)
    ensures RegistryKept(w, Register(lib, look, w, dep, depth), lib.compare)
    decreases depth, 1
  {
    var res := look(w.fs, w.depPathMap, None, dep);
    if res.path.Some? {
      var p := res.path.value;
      WellFormedHasVersion(p);
      var m2 := RegisterVersion(w.depMap, dep, VersionOfPath(p), lib.compare);
      RegisterVersionUpgrades(w.depMap, dep, VersionOfPath(p), lib.compare);
      var w2 := w.(depPathMap := res.cache, fs := res.fs, depMap := m2);
      RegisterBelowKeepsRegistry(lib, look, w2, p, depth);
      NoDowngradeTransitive(w.depMap, m2, RegisterBelow(lib, look, w2, p, depth).depMap, lib.compare);
    }
  }

  lemma {:induction false} RegisterBelowKeepsRegistry(lib: Collaborators, look: Lookup, w: World, path: string, depth: nat)
    requires w.Valid() && SoundLookup(look) && WellFormedPath(path) && TransitiveUpgrade(lib.compare)
    ensures RegistryKept(w, RegisterBelow(lib, look, w, path, depth), lib.compare)
    decreases depth, 0
  {
    var r := RegisterBelow(lib, look, w, path, depth);
    if depth == 0 {
      RegistryKeptRefl(w, lib.compare);
    } else {
      var pom := lib.pomOf(DepPomPath(path));
      var e := ExpandPom(w.depMap, pom, lib.compare);
      var w1 := w.(depMap := e.depMap);
      ExpandPomKeepsRegistry(w, pom, lib.compare);
      assert r == RegisterChildren(lib, look, w1, e.exclusions, pom.deps, 0, depth - 1);
      RegisterChildrenKeepRegistry(lib, look, w1, e.exclusions, pom.deps, 0, depth - 1);
      RegistryKeptChain(w, w1, r, lib.compare);
    }
  }

  lemma {:induction false} RegisterChildKeepsRegistry(lib: Collaborators, look: Lookup, w: World, exclusions: set<string>,
                                                     c: Dependency, depth: nat)
    requires w.Valid() && SoundLookup(look) && TransitiveUpgrade(lib.compare)
    ensures RegistryKept(w, RegisterChild(lib, look, w, exclusions, c, depth), lib.compare)
    decreases depth, 2
  {
    if Followed(exclusions, c) {
      RegisterKeepsRegistry(lib, look, w, c, depth);
    }
  }

  lemma {:induction false} RegisterChildrenKeepRegistry(lib: Collaborators, look: Lookup, w: World, exclusions: set<string>,
                                                       children: seq<Dependency>, from: nat, depth: nat)
    requires w.Valid() && SoundLookup(look) && TransitiveUpgrade(lib.compare)
    ensures RegistryKept(w, RegisterChildren(lib, look, w, exclusions, children, from, depth), lib.compare)
    decreases depth, |children| - from + 3
  {
    if from < |children| {
      var w1 := RegisterChild(lib, look, w, exclusions, children[from], depth);
      RegisterChildKeepsRegistry(lib, look, w, exclusions, children[from], depth);
      RegisterChildrenKeepRegistry(lib, look, w1, exclusions, children, from + 1, depth);
      NoDowngradeTransitive(w.depMap, w1.depMap, RegisterChildren(lib, look, w, exclusions, children, from, depth).depMap, lib.compare);
    }
  }

  /**
   * After `Zo`, a dependency that resolves is registered with the version its
   * path names, or with one that compares strictly greater; the stored node
   * before the call is kept only when that version was not greater.
   */
  lemma RegisterRecordsPathVersion(lib: Collaborators, look: Lookup, w: World, dep: Dependency, depth: nat)
    requires w.Valid() && SoundLookup(look) && TransitiveUpgrade(lib.compare)
    requires look(w.fs, w.depPathMap, None, dep).path.Some?
    ensures var p := look(w.fs, w.depPathMap, None, dep).path.value;
            var k := GroupIdArtifactId(dep);
            var r := Register(lib, look, w, dep, depth);
            && |JavaSplit(p, '/')| >= 2
            && k in r.depMap
            && var stored := if k !in w.depMap || lib.compare(VersionOfPath(p), w.depMap[k].version) > 0
                             then dep.(version := VersionOfPath(p)) else w.depMap[k];
               r.depMap[k] == stored || lib.compare(r.depMap[k].version, stored.version) > 0
  {
    var res := look(w.fs, w.depPathMap, None, dep);
    var p := res.path.value;
    WellFormedHasVersion(p);
    var m2 := RegisterVersion(w.depMap, dep, VersionOfPath(p), lib.compare);
    var w2 := w.(depPathMap := res.cache, fs := res.fs, depMap := m2);
    RegisterBelowKeepsRegistry(lib, look, w2, p, depth);
  }
}
