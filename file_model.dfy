/**
 * The part of the file system the Maven resolver observes: which paths are
 * regular files or directories, what `File.listFiles` returns, last-modified
 * times, and which archives `FileSystem.u7` can unzip.
 */
module FileModel {
  import opened Wrappers

  datatype FsState = FsState(
    files: set<string>,                      // paths that are regular files
    dirs: map<string, Option<seq<string>>>,  // directories, with the child paths `listFiles` returns (None: it returns null)
    mtime: map<string, int>,                 // `lastModified`; a path absent here reports 0
    archives: map<string, seq<string>>,      // archives that unzip without an IOException, with their top-level entry names
    clock: int)                              // the time stamp given to freshly extracted files
  {
    predicate IsFile(p: string) { p in files }

    predicate IsDirectory(p: string) { p in dirs }

    predicate Exists(p: string) { p in files || p in dirs }

    function LastModified(p: string): int { if p in mtime then mtime[p] else 0 }

    function ListFiles(p: string): Option<seq<string>> { if p in dirs then dirs[p] else None }

    /** The clock is not before the epoch and no file is newer than it. */
    predicate Valid() { 0 <= clock && forall p :: p in mtime ==> mtime[p] <= clock }
  }

  /** The child paths an extraction into `outDir` creates. */
  function ExtractedChildren(outDir: string, names: seq<string>): (r: seq<string>)
    ensures |r| == |names|
    ensures forall i :: 0 <= i < |r| ==> r[i] == outDir + "/" + names[i]
  {
    seq(|names|, i requires 0 <= i < |names| => outDir + "/" + names[i])
  }

  /** The paths of `listing` that `written` does not name, in listing order. */
  function Untouched(listing: seq<string>, written: seq<string>): (r: seq<string>)
    ensures forall p :: p in r <==> p in listing && p !in written
  {
    if listing == [] then []
    else if listing[0] in written then Untouched(listing[1..], written)
    else [listing[0]] + Untouched(listing[1..], written)
  }

  /**
   * The effect of `FileSystem.u7(new FileInputStream(archive), outDir, true)`:
   * an archive that cannot be read (an IOException) changes nothing;
   * otherwise the archive's top-level entries are written into `outDir` as
   * regular files stamped with the clock. Whatever `outDir` already listed
   * and the archive does not overwrite stays, with its time.
   */
  function Unzipped(fs: FsState, archive: string, outDir: string): (fs': FsState)
    ensures fs.Valid() ==> fs'.Valid()
    ensures fs'.clock == fs.clock && fs'.archives == fs.archives
  {
    if archive !in fs.archives then fs
    else
      var children := ExtractedChildren(outDir, fs.archives[archive]);
      var before := if fs.ListFiles(outDir).Some? then fs.ListFiles(outDir).value else [];
      fs.(files := fs.files + (set c | c in children),
          dirs := fs.dirs[outDir := Some(Untouched(before, children) + children)],
          mtime := fs.mtime + (map c | c in children :: fs.clock))
  }

  /** The mutable file system. */
  class Disk {
    var state: FsState

    ghost predicate Valid()
      reads this
    {
      state.Valid()
    }

    constructor (initial: FsState)
      requires initial.Valid()
      ensures Valid() && state == initial
    {
      state := initial;
    }

    /** Unzips `archive` into `outDir`; `ok` is false where the source would see an IOException. */
    method Unzip(archive: string, outDir: string) returns (ok: bool)
      requires Valid()
      modifies this
      ensures Valid()
      ensures ok == (archive in old(state).archives)
      ensures state == Unzipped(old(state), archive, outDir)
    {
      ok := archive in state.archives;
      state := Unzipped(state, archive, outDir);
    }
  }
}
