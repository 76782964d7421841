/**
 * `ZeroAicyClassFilePreProcessor.J8(zipFilePath, listZipEntryName)`: the
 * immediate children of a directory inside a jar or zip, as the code model
 * sees them. The archive's entries are given as the sequence of their names
 * (a name ending in '/' is a directory entry); the result is a set, as the
 * source collects into a `HashSet`.
 */
module ZipListing {
  import opened Wrappers
  import opened JavaStrings

  /** The entry name with one trailing '/' removed. */
  function StripSlash(entry: string): (name: string)
    ensures EndsWith(entry, "/") ==> entry == name + "/"
    ensures !EndsWith(entry, "/") ==> name == entry
  {
    if EndsWith(entry, "/") then entry[..|entry| - 1] else entry
  }

  /** `name` lies strictly below `dir`: it extends `dir`, and (for a non-root `dir`) by a '/'. */
  predicate Below(dir: string, name: string) {
    && StartsWith(name, dir) && name != dir
    && (|dir| > 0 ==> name[|dir|] == '/')
  }

  /** Below `dir`, no further '/' follows the separator: `name` is an immediate child of `dir`. */
  predicate ImmediateChild(dir: string, name: string) {
    && Below(dir, name)
    && forall j :: |dir| < j < |name| ==> name[j] != '/'
  }

  /** The leaves `J8` keeps: directories, `.class` files of top-level classes, and `.java` files. */
  predicate KeptLeaf(entry: string, name: string) {
    || EndsWith(entry, "/")
    || (EndsWith(name, ".class") && IndexOfChar(name, '$', 0) < 0)
    || EndsWith(name, ".java")
  }

  /** What one entry adds to the listing: its immediate child of `dir`, or nothing. */
  function EntryListing(zip: string, dir: string, entry: string): (r: Option<string>)
  {
    var name := StripSlash(entry);
    if name == dir || !StartsWith(name, dir) then None
    else if |dir| > 0 && name[|dir|] != '/' then None
    else
      var idx := IndexOfChar(name, '/', |dir| + 1);
      if idx > 0 then Some(zip + "/" + name[..idx])
      else if KeptLeaf(entry, name) then Some(zip + "/" + name)
      else None
  }

  /** The listing built from `entries` in order. */
  function Listing(zip: string, dir: string, entries: seq<string>): (r: set<string>)
  {
    if |entries| == 0 then {}
    else
      var rest := Listing(zip, dir, entries[..|entries| - 1]);
      match EntryListing(zip, dir, entries[|entries| - 1])
      case None => rest
      case Some(x) => rest + {x}
  }

  /** `J8`: the loop over the archive's entries, adding into a set. */
  method ListDirectory(zip: string, dir: string, entries: seq<string>) returns (names: set<string>)
    ensures names == Listing(zip, dir, entries)
  {
    names := {};
    for i := 0 to |entries|
      invariant names == Listing(zip, dir, entries[..i])
    {
      assert entries[..i + 1][..i] == entries[..i];
      var name := entries[i];
      if EndsWith(name, "/") {
        name := name[..|name| - 1];
      }
      if name == dir || !StartsWith(name, dir) {
        continue;
      }
      if |dir| > 0 && name[|dir|] != '/' {
        continue;
      }
      var idx := IndexOfChar(name, '/', |dir| + 1);
      if idx > 0 {
        names := names + {zip + "/" + name[..idx]};
      } else if EndsWith(entries[i], "/") {
        names := names + {zip + "/" + name};
      } else if (EndsWith(name, ".class") && IndexOfChar(name, '$', 0) < 0) || EndsWith(name, ".java") {
        names := names + {zip + "/" + name};
      }
    }
    assert entries[..|entries|] == entries;
  }

  /** An entry lists `zip + "/"` followed by an immediate child of `dir`. */
  lemma EntryListingShape(zip: string, dir: string, entry: string)
    requires EntryListing(zip, dir, entry).Some?
    ensures var x := EntryListing(zip, dir, entry).value;
            StartsWith(x, zip + "/") && ImmediateChild(dir, x[|zip| + 1..])
  {
    var name := StripSlash(entry);
    var x := EntryListing(zip, dir, entry).value;
    var idx := IndexOfChar(name, '/', |dir| + 1);
    var n := if idx > 0 then name[..idx] else name;
    assert x == zip + "/" + n;
    assert x[|zip| + 1..] == n;
    assert n[..|dir|] == name[..|dir|];
  }

  /**
   * Everything `J8` lists starts with `zipFilePath + "/"` and names an
   * immediate child of the directory: listing `foo` never yields `foobar`,
   * and never a grandchild.
   */
  lemma {:induction false} ListingShape(zip: string, dir: string, entries: seq<string>)
    ensures forall x :: x in Listing(zip, dir, entries) ==>
              StartsWith(x, zip + "/") && ImmediateChild(dir, x[|zip| + 1..])
  {
    if |entries| > 0 {
      ListingShape(zip, dir, entries[..|entries| - 1]);
      if EntryListing(zip, dir, entries[|entries| - 1]).Some? {
        EntryListingShape(zip, dir, entries[|entries| - 1]);
      }
    }
  }

  /** What an entry contributes stays in the listing of every longer sequence of entries. */
  lemma {:induction false} ListingContains(zip: string, dir: string, entries: seq<string>, i: nat)
    requires i < |entries| && EntryListing(zip, dir, entries[i]).Some?
    ensures EntryListing(zip, dir, entries[i]).value in Listing(zip, dir, entries)
    decreases |entries|
  {
    if i < |entries| - 1 {
      var prefix := entries[..|entries| - 1];
      assert prefix[i] == entries[i];
      ListingContains(zip, dir, prefix, i);
    }
  }

  /**
   * A deeper entry collapses to the immediate child it lies in: its name up
   * to the first '/' after the directory's separator.
   */
  lemma DeeperEntryCollapses(zip: string, dir: string, entries: seq<string>, i: nat, k: nat)
    requires i < |entries|
    requires var name := StripSlash(entries[i]);
             && Below(dir, name)
             && |dir| < k < |name| && name[k] == '/'
             && forall j :: |dir| < j < k ==> name[j] != '/'
    ensures zip + "/" + StripSlash(entries[i])[..k] in Listing(zip, dir, entries)
  {
    var name := StripSlash(entries[i]);
    assert IndexOfChar(name, '/', |dir| + 1) == k;
    ListingContains(zip, dir, entries, i);
  }

  /** An immediate child that is a directory, a top-level class or a Java source is listed. */
  lemma KeptLeafListed(zip: string, dir: string, entries: seq<string>, i: nat)
    requires i < |entries|
    requires var name := StripSlash(entries[i]);
             ImmediateChild(dir, name) && KeptLeaf(entries[i], name)
    ensures zip + "/" + StripSlash(entries[i]) in Listing(zip, dir, entries)
  {
    var name := StripSlash(entries[i]);
    assert IndexOfChar(name, '/', |dir| + 1) == -1;
    ListingContains(zip, dir, entries, i);
  }

  /**
   * Conversely, every listed name has a witness: an entry below it (the
   * name is a directory the entry collapsed to), or an entry that is that
   * very immediate child and is kept. So an immediate file that is neither a
   * top-level class nor a Java source, and has no entry below it, is dropped.
   */
  lemma {:induction false} ListedHasWitness(zip: string, dir: string, entries: seq<string>, x: string)
    requires x in Listing(zip, dir, entries)
    ensures |zip| + 1 <= |x|
    ensures exists i :: 0 <= i < |entries| && Witness(dir, entries[i], x[|zip| + 1..])
  {
    ListingShape(zip, dir, entries);
    var prefix := entries[..|entries| - 1];
    var last := entries[|entries| - 1];
    if x in Listing(zip, dir, prefix) {
      ListedHasWitness(zip, dir, prefix, x);
      var i :| 0 <= i < |prefix| && Witness(dir, prefix[i], x[|zip| + 1..]);
      assert entries[i] == prefix[i];
    } else {
      EntryWitness(zip, dir, last);
      assert Witness(dir, entries[|entries| - 1], x[|zip| + 1..]);
    }
  }

  /** `entry` accounts for the listed child `n`: `n` is a proper '/'-prefix of its name, or its name is `n` and it is kept. */
  predicate Witness(dir: string, entry: string, n: string) {
    var name := StripSlash(entry);
    || (|n| < |name| && name[..|n|] == n && name[|n|] == '/')
    || (name == n && KeptLeaf(entry, name))
  }

  lemma EntryWitness(zip: string, dir: string, entry: string)
    requires EntryListing(zip, dir, entry).Some?
    ensures var x := EntryListing(zip, dir, entry).value;
            |zip| + 1 <= |x| && Witness(dir, entry, x[|zip| + 1..])
  {
    var name := StripSlash(entry);
    var x := EntryListing(zip, dir, entry).value;
    var idx := IndexOfChar(name, '/', |dir| + 1);
    var n := if idx > 0 then name[..idx] else name;
    assert x == zip + "/" + n;
    assert x[|zip| + 1..] == n;
  }
}
