/**
 * `Aapt.deleteResources(symbols)`: walks `res/`'s type directories, deletes
 * every resource file and then the directory, and returns the keys
 * `res/<dir>/<file>` of the files it selects. The file system is the
 * directory listing (a `listFiles()` that returns null is `None`) and a log
 * of the `File.delete()` calls made, in order.
 */
module AaptResources {
  import opened Wrappers
  import opened JavaStrings
  import opened RJava

  /** A type directory under `res/` and its `listFiles()`. */
  datatype TypeDir = TypeDir(name: string, files: Option<seq<string>>)

  /** One `File.delete()` call. */
  datatype Deletion = DeleteFile(dir: string, file: string) | DeleteDir(dir: string)

  /** `String.format("res%s%s%s%s", File.separator, dir, File.separator, file)` */
  function Key(dir: string, file: string): string {
    "res/" + dir + "/" + file
  }

  /** A key names its file: within one directory different files give different keys. */
  lemma KeyInjective(dir: string, f: string, g: string)
    requires Key(dir, f) == Key(dir, g)
    ensures f == g
  {
    var n := |"res/" + dir + "/"|;
    assert Key(dir, f)[n..] == f;
    assert Key(dir, g)[n..] == g;
  }

  /** `find(symbols.entries.values(), it -> typeDir.getName().startsWith(it.type.name)) != null` */
  function FindTypePrefix(symbols: seq<SymbolEntry>, dirName: string): (found: bool)
    ensures found <==> exists i :: 0 <= i < |symbols| && StartsWith(dirName, symbols[i].typeName)
  {
    if |symbols| == 0 then false
    else if StartsWith(dirName, symbols[0].typeName) then true
    else
      var found := FindTypePrefix(symbols[1..], dirName);
      assert forall i :: 0 < i < |symbols| ==> symbols[i] == symbols[1..][i - 1];
      found
  }

  /** `find(symbols.entries.values(), it -> entryFile.getName().startsWith(it.name + ".")) != null` */
  function FindNamePrefix(symbols: seq<SymbolEntry>, fileName: string): (found: bool)
    ensures found <==> exists i :: 0 <= i < |symbols| && StartsWith(fileName, symbols[i].name + ".")
  {
    if |symbols| == 0 then false
    else if StartsWith(fileName, symbols[0].name + ".") then true
    else
      var found := FindNamePrefix(symbols[1..], fileName);
      assert forall i :: 0 < i < |symbols| ==> symbols[i] == symbols[1..][i - 1];
      found
  }

  /** The keys recorded for the files of one directory, all of them unless the directory's type is known. */
  function Recorded(symbols: seq<SymbolEntry>, dir: string, files: seq<string>, typeKnown: bool): set<string> {
    if |files| == 0 then {}
    else
      var f := files[|files| - 1];
      Recorded(symbols, dir, files[..|files| - 1], typeKnown)
        + (if !typeKnown || FindNamePrefix(symbols, f) then {Key(dir, f)} else {})
  }

  /** The keys one type directory contributes. */
  function DirKeys(symbols: seq<SymbolEntry>, d: TypeDir): set<string> {
    match d.files
    case None => {}
    case Some(files) =>
      if |files| == 0 then {} else Recorded(symbols, d.name, files, FindTypePrefix(symbols, d.name))
  }

  function KeysOf(symbols: seq<SymbolEntry>, dirs: seq<TypeDir>): set<string> {
    if |dirs| == 0 then {} else KeysOf(symbols, dirs[..|dirs| - 1]) + DirKeys(symbols, dirs[|dirs| - 1])
  }

  /** The set `deleteResources` returns; nothing when `res/` cannot be listed. */
  function ResourceKeys(symbols: seq<SymbolEntry>, typeDirs: Option<seq<TypeDir>>): set<string> {
    match typeDirs
    case None => {}
    case Some(dirs) => KeysOf(symbols, dirs)
  }

  function FileDeletions(dir: string, files: seq<string>): seq<Deletion> {
    if |files| == 0 then [] else FileDeletions(dir, files[..|files| - 1]) + [DeleteFile(dir, files[|files| - 1])]
  }

  /** The deletions one type directory causes. */
  function DirDeletions(d: TypeDir): seq<Deletion> {
    match d.files
    case None => [DeleteDir(d.name)]
    case Some(files) => FileDeletions(d.name, files) + [DeleteDir(d.name)]
  }

  function DeletionsOf(dirs: seq<TypeDir>): seq<Deletion> {
    if |dirs| == 0 then [] else DeletionsOf(dirs[..|dirs| - 1]) + DirDeletions(dirs[|dirs| - 1])
  }

  function AllDeletions(typeDirs: Option<seq<TypeDir>>): seq<Deletion> {
    match typeDirs
    case None => []
    case Some(dirs) => DeletionsOf(dirs)
  }

  // ---------------------------------------------------------------------------
  // What is selected and what is deleted
  // ---------------------------------------------------------------------------

  /** A key is recorded exactly for the listed files that pass the filter. */
  lemma {:induction false} RecordedExactly(symbols: seq<SymbolEntry>, dir: string, files: seq<string>, typeKnown: bool, k: string)
    ensures k in Recorded(symbols, dir, files, typeKnown) <==>
            exists j :: 0 <= j < |files| && k == Key(dir, files[j]) && (!typeKnown || FindNamePrefix(symbols, files[j]))
  {
    if |files| > 0 {
      var init := files[..|files| - 1];
      RecordedExactly(symbols, dir, init, typeKnown, k);
      if exists j :: 0 <= j < |init| && k == Key(dir, init[j]) && (!typeKnown || FindNamePrefix(symbols, init[j])) {
        var j :| 0 <= j < |init| && k == Key(dir, init[j]) && (!typeKnown || FindNamePrefix(symbols, init[j]));
        assert files[j] == init[j];
      }
      if exists j :: 0 <= j < |files| && k == Key(dir, files[j]) && (!typeKnown || FindNamePrefix(symbols, files[j])) {
        var j :| 0 <= j < |files| && k == Key(dir, files[j]) && (!typeKnown || FindNamePrefix(symbols, files[j]));
        if j < |init| {
          assert init[j] == files[j];
        }
      }
    }
  }

  /** A type directory that cannot be listed or is empty is deleted and contributes no key. */
  lemma EmptyTypeDir(symbols: seq<SymbolEntry>, d: TypeDir)
    requires d.files.None? || d.files.value == []
    ensures DirKeys(symbols, d) == {} && DirDeletions(d) == [DeleteDir(d.name)]
  {
  }

  /**
   * When no symbol's type name is a prefix of the directory name, every
   * listed file is recorded; otherwise exactly the files whose name starts
   * with some symbol's name followed by '.'.
   */
  lemma TypeDirSelection(symbols: seq<SymbolEntry>, d: TypeDir, f: string)
    requires d.files.Some? && d.files.value != []
    ensures !(exists i :: 0 <= i < |symbols| && StartsWith(d.name, symbols[i].typeName)) ==>
              (Key(d.name, f) in DirKeys(symbols, d) <==> f in d.files.value)
    ensures (exists i :: 0 <= i < |symbols| && StartsWith(d.name, symbols[i].typeName)) ==>
              (Key(d.name, f) in DirKeys(symbols, d) <==>
                 f in d.files.value && exists i :: 0 <= i < |symbols| && StartsWith(f, symbols[i].name + "."))
  {
    var files := d.files.value;
    var typeKnown := FindTypePrefix(symbols, d.name);
    RecordedExactly(symbols, d.name, files, typeKnown, Key(d.name, f));
    if Key(d.name, f) in DirKeys(symbols, d) {
      var j :| 0 <= j < |files| && Key(d.name, f) == Key(d.name, files[j]) && (!typeKnown || FindNamePrefix(symbols, files[j]));
      KeyInjective(d.name, f, files[j]);
    }
    if f in files {
      var j :| 0 <= j < |files| && files[j] == f;
    }
  }

  lemma {:induction false} FileDeletionsAll(dir: string, files: seq<string>)
    ensures |FileDeletions(dir, files)| == |files|
    ensures forall j :: 0 <= j < |files| ==> FileDeletions(dir, files)[j] == DeleteFile(dir, files[j])
  {
    if |files| > 0 {
      FileDeletionsAll(dir, files[..|files| - 1]);
    }
  }

  /**
   * Every listed file is deleted, selected or not, in listing order, and the
   * directory's own deletion comes last.
   */
  lemma DirDeletionsOrder(d: TypeDir)
    requires d.files.Some?
    ensures var files := d.files.value;
            && |DirDeletions(d)| == |files| + 1
            && DirDeletions(d)[|files|] == DeleteDir(d.name)
            && forall j :: 0 <= j < |files| ==> DirDeletions(d)[j] == DeleteFile(d.name, files[j])
  {
    FileDeletionsAll(d.name, d.files.value);
  }

  /** Each key `deleteResources` returns names a file whose deletion it requested. */
  lemma {:induction false} KeysDeleted(symbols: seq<SymbolEntry>, dirs: seq<TypeDir>, k: string)
    requires k in KeysOf(symbols, dirs)
    ensures exists dir, f :: k == Key(dir, f) && DeleteFile(dir, f) in DeletionsOf(dirs)
  {
    var init := dirs[..|dirs| - 1];
    var d := dirs[|dirs| - 1];
    if k in KeysOf(symbols, init) {
      KeysDeleted(symbols, init, k);
      var dir, f :| k == Key(dir, f) && DeleteFile(dir, f) in DeletionsOf(init);
      assert DeleteFile(dir, f) in DeletionsOf(dirs);
    } else {
      var files := d.files.value;
      var typeKnown := FindTypePrefix(symbols, d.name);
      RecordedExactly(symbols, d.name, files, typeKnown, k);
      var j :| 0 <= j < |files| && k == Key(d.name, files[j]) && (!typeKnown || FindNamePrefix(symbols, files[j]));
      DirDeletionsOrder(d);
      assert DirDeletions(d)[j] == DeleteFile(d.name, files[j]);
      assert DeleteFile(d.name, files[j]) in DeletionsOf(dirs);
    }
  }

  // ---------------------------------------------------------------------------
  // The method
  // ---------------------------------------------------------------------------

  /** The `File.delete()` calls made, in order. */
  class DeletionLog {
    var log: seq<Deletion>

    constructor ()
      ensures log == []
    {
      log := [];
    }

    method Delete(d: Deletion)
      modifies this
      ensures log == old(log) + [d]
    {
      log := log + [d];
    }
  }

  /** The body of the loop over the type directories. */
  method DeleteTypeDir(symbols: seq<SymbolEntry>, d: TypeDir, fs: DeletionLog) returns (keys: set<string>)
    modifies fs
    ensures keys == DirKeys(symbols, d)
    ensures fs.log == old(fs.log) + DirDeletions(d)
  {
    keys := {};
    if d.files.None? || |d.files.value| == 0 {
      fs.Delete(DeleteDir(d.name));
      return;
    }
    var files := d.files.value;
    ghost var start := fs.log;
    var typeKnown := FindTypePrefix(symbols, d.name);
    if !typeKnown {
      for j := 0 to |files|
        invariant keys == Recorded(symbols, d.name, files[..j], typeKnown)
        invariant fs.log == start + FileDeletions(d.name, files[..j])
      {
        assert files[..j + 1][..j] == files[..j];
        keys := keys + {Key(d.name, files[j])};
        fs.Delete(DeleteFile(d.name, files[j]));
        Assoc(start, FileDeletions(d.name, files[..j]), [DeleteFile(d.name, files[j])]);
      }
    } else {
      for j := 0 to |files|
        invariant keys == Recorded(symbols, d.name, files[..j], typeKnown)
        invariant fs.log == start + FileDeletions(d.name, files[..j])
      {
        assert files[..j + 1][..j] == files[..j];
        if FindNamePrefix(symbols, files[j]) {
          keys := keys + {Key(d.name, files[j])};
        }
        fs.Delete(DeleteFile(d.name, files[j]));
        Assoc(start, FileDeletions(d.name, files[..j]), [DeleteFile(d.name, files[j])]);
      }
    }
    assert files[..|files|] == files;
    fs.Delete(DeleteDir(d.name));
    Assoc(start, FileDeletions(d.name, files), [DeleteDir(d.name)]);
  }

  /** `deleteResources(symbols)`, with `res/`'s listing given as `typeDirs`. */
  method DeleteResources(symbols: seq<SymbolEntry>, typeDirs: Option<seq<TypeDir>>, fs: DeletionLog)
    returns (resources: set<string>)
    modifies fs
    ensures resources == ResourceKeys(symbols, typeDirs)
    ensures fs.log == old(fs.log) + AllDeletions(typeDirs)
  {
    resources := {};
    if typeDirs.Some? {
      var dirs := typeDirs.value;
      ghost var start := fs.log;
      for i := 0 to |dirs|
        invariant resources == KeysOf(symbols, dirs[..i])
        invariant fs.log == start + DeletionsOf(dirs[..i])
      {
        assert dirs[..i + 1][..i] == dirs[..i];
        var keys := DeleteTypeDir(symbols, dirs[i], fs);
        resources := resources + keys;
        Assoc(start, DeletionsOf(dirs[..i]), DirDeletions(dirs[i]));
      }
      assert dirs[..|dirs|] == dirs;
    }
  }
}
