/**
 * `Aapt.generateR(OutputStream, pkg, symbols)`: groups the resource symbols
 * by type name in a `TreeMap` and prints `R.java`, one nested class per type
 * in ascending type-name order, each entry as an `int` constant or, for a
 * styleable, an array initialiser of `0x%08x` values.
 */
module RJava {

  /** A `Symbols.Entry`: a plain `int` symbol, or a `Symbols.Styleable` carrying a list of values. */
  datatype SymbolEntry =
    | Plain(typeName: string, vtype: string, name: string, value: int)
    | Styleable(typeName: string, vtype: string, name: string, values: seq<int>)

  // ---------------------------------------------------------------------------
  // The TreeMap's key order: String.compareTo
  // ---------------------------------------------------------------------------

  /** `a.compareTo(b) < 0`: the first differing character decides, and a proper prefix comes first. */
  predicate Less(a: string, b: string)
    decreases |a|
  {
    if |a| == 0 then |b| > 0
    else if |b| == 0 then false
    else if a[0] == b[0] then Less(a[1..], b[1..])
    else a[0] < b[0]
  }

  lemma {:induction false} LessIrreflexive(a: string)
    ensures !Less(a, a)
    decreases |a|
  {
    if |a| > 0 {
      LessIrreflexive(a[1..]);
    }
  }

  lemma {:induction false} LessTransitive(a: string, b: string, c: string)
    requires Less(a, b) && Less(b, c)
    ensures Less(a, c)
    decreases |a|
  {
    if |a| > 0 && a[0] == b[0] && b[0] == c[0] {
      LessTransitive(a[1..], b[1..], c[1..]);
    }
  }

  lemma {:induction false} LessTotal(a: string, b: string)
    ensures a == b || Less(a, b) || Less(b, a)
    decreases |a|
  {
    if |a| > 0 && |b| > 0 && a[0] == b[0] {
      LessTotal(a[1..], b[1..]);
      if a[1..] == b[1..] {
        assert a == [a[0]] + a[1..] && b == [b[0]] + b[1..];
      }
    }
  }

  // ---------------------------------------------------------------------------
  // Grouping
  // ---------------------------------------------------------------------------

  /** The `TreeMap<String, List<Symbols.Entry>>`, as its entries in key order. */
  type Groups = seq<(string, seq<SymbolEntry>)>

  /** Keys strictly ascending: the TreeMap's iteration order, each key once. */
  predicate Sorted(g: Groups) {
    forall i, j :: 0 <= i < j < |g| ==> Less(g[i].0, g[j].0)
  }

  /** `types.get(k)`, with the absent key read as an empty list. */
  function Lookup(g: Groups, k: string): seq<SymbolEntry> {
    if |g| == 0 then [] else if g[0].0 == k then g[0].1 else Lookup(g[1..], k)
  }

  /** The entries of type `k`, in iteration order: the reference for each nested class. */
  function OfType(entries: seq<SymbolEntry>, k: string): seq<SymbolEntry> {
    if |entries| == 0 then []
    else
      var last := entries[|entries| - 1];
      OfType(entries[..|entries| - 1], k) + (if last.typeName == k then [last] else [])
  }

  /** One iteration of the grouping loop: append `e` to its type's list, creating the list on first sight. */
  function Put(g: Groups, e: SymbolEntry): Groups {
    if |g| == 0 then [(e.typeName, [e])]
    else if g[0].0 == e.typeName then [(g[0].0, g[0].1 + [e])] + g[1..]
    else if Less(e.typeName, g[0].0) then [(e.typeName, [e])] + g
    else [g[0]] + Put(g[1..], e)
  }

  /** The TreeMap after the grouping loop over `entries`. */
  function Grouped(entries: seq<SymbolEntry>): Groups {
    if |entries| == 0 then [] else Put(Grouped(entries[..|entries| - 1]), entries[|entries| - 1])
  }

  /** `Put` only adds `e`'s type name to the keys. */
  lemma {:induction false} PutKeys(g: Groups, e: SymbolEntry)
    ensures forall i :: 0 <= i < |Put(g, e)| ==>
              Put(g, e)[i].0 == e.typeName || exists j :: 0 <= j < |g| && g[j].0 == Put(g, e)[i].0
    ensures exists i :: 0 <= i < |Put(g, e)| && Put(g, e)[i].0 == e.typeName
  {
    var r := Put(g, e);
    if |g| == 0 {
      assert r[0].0 == e.typeName;
    } else if g[0].0 == e.typeName {
      assert r[0].0 == e.typeName;
      assert forall i :: 0 <= i < |r| ==> r[i].0 == g[i].0;
    } else if Less(e.typeName, g[0].0) {
      assert r[0].0 == e.typeName;
      assert forall i :: 0 < i < |r| ==> r[i] == g[i - 1];
    } else {
      PutKeys(g[1..], e);
      forall i | 0 < i < |r|
        ensures r[i].0 == e.typeName || exists j :: 0 <= j < |g| && g[j].0 == r[i].0
      {
        assert r[i] == Put(g[1..], e)[i - 1];
        if r[i].0 != e.typeName {
          var j :| 0 <= j < |g[1..]| && g[1..][j].0 == r[i].0;
          assert g[j + 1].0 == r[i].0;
        }
      }
      var i :| 0 <= i < |Put(g[1..], e)| && Put(g[1..], e)[i].0 == e.typeName;
      assert r[i + 1].0 == e.typeName;
    }
  }

  /** Inserting keeps the keys strictly ascending. */
  lemma {:induction false} PutSorted(g: Groups, e: SymbolEntry)
    requires Sorted(g)
    ensures Sorted(Put(g, e))
  {
    if |g| > 0 {
      var r := Put(g, e);
      if g[0].0 == e.typeName {
        assert forall i :: 0 <= i < |r| ==> r[i].0 == g[i].0;
      } else if Less(e.typeName, g[0].0) {
        forall i, j | 0 <= i < j < |r|
          ensures Less(r[i].0, r[j].0)
        {
          if i == 0 && j > 1 {
            LessTransitive(e.typeName, g[0].0, g[j - 1].0);
          }
        }
      } else {
        PutSorted(g[1..], e);
        PutSortedAfterHead(g, e);
      }
    }
  }

  /** A group whose key sorts before every key of a sorted list can lead it. */
  lemma SortedCons(h: (string, seq<SymbolEntry>), rest: Groups)
    requires Sorted(rest) && forall x :: 0 <= x < |rest| ==> Less(h.0, rest[x].0)
    ensures Sorted([h] + rest)
  {
    var r := [h] + rest;
    forall i, j | 0 <= i < j < |r|
      ensures Less(r[i].0, r[j].0)
    {
      if i == 0 {
        assert r[j] == rest[j - 1];
      } else {
        assert r[i] == rest[i - 1] && r[j] == rest[j - 1];
      }
    }
  }

  /** An entry whose type sorts after the first key goes into the sorted rest, behind that key. */
  lemma PutSortedAfterHead(g: Groups, e: SymbolEntry)
    requires Sorted(g) && |g| > 0 && g[0].0 != e.typeName && !Less(e.typeName, g[0].0)
    requires Sorted(Put(g[1..], e))
    ensures Sorted(Put(g, e))
  {
    LessTotal(e.typeName, g[0].0);
    var rest := Put(g[1..], e);
    PutKeys(g[1..], e);
    forall x | 0 <= x < |rest|
      ensures Less(g[0].0, rest[x].0)
    {
      var k := rest[x].0;
      if k != e.typeName {
        var m :| 0 <= m < |g[1..]| && g[1..][m].0 == k;
        assert g[m + 1].0 == k;
      }
    }
    SortedCons(g[0], rest);
  }

  /** After `Put`, the list of `e`'s type has `e` appended, and every other list is as before. */
  lemma {:induction false} PutLookup(g: Groups, e: SymbolEntry, k: string)
    requires Sorted(g)
    ensures Lookup(Put(g, e), k) == Lookup(g, k) + (if k == e.typeName then [e] else [])
  {
    if |g| > 0 {
      if g[0].0 == e.typeName {
        assert Put(g, e)[1..] == g[1..];
      } else if Less(e.typeName, g[0].0) {
        assert Put(g, e)[1..] == g;
        if k == e.typeName {
          LookupAbsent(g, k);
        }
      } else {
        assert Put(g, e)[1..] == Put(g[1..], e);
        PutLookup(g[1..], e, k);
      }
    }
  }

  /** A key below the least key of a sorted map is absent. */
  lemma {:induction false} LookupAbsent(g: Groups, k: string)
    requires Sorted(g) && |g| > 0 && Less(k, g[0].0)
    ensures Lookup(g, k) == []
  {
    LessIrreflexive(k);
    if |g| > 1 {
      LessTransitive(k, g[0].0, g[1].0);
      LookupAbsent(g[1..], k);
    }
  }

  /** In a sorted map each key's own list is what `get` returns. */
  lemma {:induction false} LookupAt(g: Groups, i: nat)
    requires Sorted(g) && i < |g|
    ensures Lookup(g, g[i].0) == g[i].1
  {
    if i > 0 {
      LessIrreflexive(g[i].0);
      assert g[0].0 != g[i].0;
      LookupAt(g[1..], i - 1);
    }
  }

  /** Every list in the map holds at least one entry. */
  predicate NoEmptyList(g: Groups) {
    forall i :: 0 <= i < |g| ==> g[i].1 != []
  }

  lemma {:induction false} PutNoEmptyList(g: Groups, e: SymbolEntry)
    requires NoEmptyList(g)
    ensures NoEmptyList(Put(g, e))
  {
    if |g| > 0 && g[0].0 != e.typeName && !Less(e.typeName, g[0].0) {
      PutNoEmptyList(g[1..], e);
      assert forall i :: 0 < i < |Put(g, e)| ==> Put(g, e)[i] == Put(g[1..], e)[i - 1];
    }
  }

  /**
   * The map the grouping loop builds is sorted, holds no empty list, and
   * maps every type name to exactly the entries of that type, in iteration
   * order.
   */
  lemma {:induction false} GroupedRepresents(entries: seq<SymbolEntry>)
    ensures var g := Grouped(entries);
            && Sorted(g) && NoEmptyList(g)
            && forall k :: Lookup(g, k) == OfType(entries, k)
  {
    if |entries| > 0 {
      var prefix := entries[..|entries| - 1];
      var e := entries[|entries| - 1];
      GroupedRepresents(prefix);
      PutSorted(Grouped(prefix), e);
      PutNoEmptyList(Grouped(prefix), e);
      forall k
        ensures Lookup(Grouped(entries), k) == OfType(entries, k)
      {
        PutLookup(Grouped(prefix), e, k);
      }
    }
  }

  /**
   * `R.java` gets one nested class per distinct type name, in ascending
   * order, and the class for type `k` lists exactly the entries of type `k`
   * in the order `symbols.entries.values()` yields them.
   */
  lemma GroupedClasses(entries: seq<SymbolEntry>)
    ensures var g := Grouped(entries);
            && Sorted(g)
            && (forall i :: 0 <= i < |g| ==> g[i].1 == OfType(entries, g[i].0) && g[i].1 != [])
            && (forall e :: e in entries ==> exists i :: 0 <= i < |g| && g[i].0 == e.typeName)
  {
    var g := Grouped(entries);
    GroupedRepresents(entries);
    forall i | 0 <= i < |g|
      ensures g[i].1 == OfType(entries, g[i].0)
    {
      LookupAt(g, i);
    }
    forall e | e in entries
      ensures exists i :: 0 <= i < |g| && g[i].0 == e.typeName
    {
      OfTypeHas(entries, e);
      LookupPresent(g, e.typeName);
    }
  }

  lemma {:induction false} OfTypeHas(entries: seq<SymbolEntry>, e: SymbolEntry)
    requires e in entries
    ensures OfType(entries, e.typeName) != []
  {
    var prefix := entries[..|entries| - 1];
    if entries[|entries| - 1] != e {
      assert e in prefix;
      OfTypeHas(prefix, e);
    }
  }

  lemma {:induction false} LookupPresent(g: Groups, k: string)
    requires Lookup(g, k) != []
    ensures exists i :: 0 <= i < |g| && g[i].0 == k
  {
    if g[0].0 != k {
      LookupPresent(g[1..], k);
      var i :| 0 <= i < |g[1..]| && g[1..][i].0 == k;
      assert g[i + 1].0 == k;
    }
  }

  /** The grouping loop of `generateR`. */
  method GroupByType(entries: seq<SymbolEntry>) returns (types: Groups)
    ensures types == Grouped(entries)
  {
    types := [];
    for i := 0 to |entries|
      invariant types == Grouped(entries[..i])
    {
      assert entries[..i + 1][..i] == entries[..i];
      types := Put(types, entries[i]);
    }
    assert entries[..|entries|] == entries;
  }

  // ---------------------------------------------------------------------------
  // 0x%08x
  // ---------------------------------------------------------------------------

  predicate IsHexDigit(c: char) {
    '0' <= c <= '9' || 'a' <= c <= 'f'
  }

  function HexChar(d: nat): (c: char)
    requires d < 16
    ensures IsHexDigit(c)
  {
    if d < 10 then (48 + d) as char else (87 + d) as char
  }

  function DigitValue(c: char): (d: nat)
    requires IsHexDigit(c)
    ensures d < 16
  {
    if c <= '9' then c as int - 48 else c as int - 87
  }

  function Pow16(k: nat): (r: nat)
    ensures r > 0
  {
    if k == 0 then 1 else 16 * Pow16(k - 1)
  }

  /** The low `count` hexadecimal digits of `n`, most significant first. */
  function HexDigits(n: nat, count: nat): (s: string)
    ensures |s| == count && forall i :: 0 <= i < |s| ==> IsHexDigit(s[i])
  {
    if count == 0 then [] else HexDigits(n / 16, count - 1) + [HexChar(n % 16)]
  }

  /** `String.format("%08x", v)` for a Java `int`: eight lowercase digits of its 32-bit two's-complement pattern. */
  function Hex8(v: int): (s: string)
    ensures |s| == 8 && forall i :: 0 <= i < |s| ==> IsHexDigit(s[i])
  {
    HexDigits(v % 0x1_0000_0000, 8)
  }

  /** Reading hexadecimal digits back. */
  function ParseHex(s: string): nat
    requires forall i :: 0 <= i < |s| ==> IsHexDigit(s[i])
  {
    if |s| == 0 then 0 else 16 * ParseHex(s[..|s| - 1]) + DigitValue(s[|s| - 1])
  }

  lemma MulAtLeast(d: int, x: int)
    requires d > 0 && x > 0
    ensures d * x >= d
  {
    assert d * x == d * (x - 1) + d;
  }

  /** Euclidean division leaves a unique remainder. */
  lemma ModUnique(n: int, d: int, q: int, r: int)
    requires d > 0 && 0 <= r < d && n == d * q + r
    ensures n % d == r
  {
    var q', r' := n / d, n % d;
    var x := q - q';
    assert d * x == r' - r;
    if x > 0 {
      MulAtLeast(d, x);
    } else if x < 0 {
      MulAtLeast(d, -x);
    }
  }

  lemma ModSplit(n: nat, p: nat)
    requires p > 0
    ensures 16 * ((n / 16) % p) + n % 16 == n % (16 * p)
  {
    var q, r := n / 16, n % 16;
    var a, b := q / p, q % p;
    assert n == 16 * q + r;
    assert q == p * a + b;
    assert n == (16 * p) * a + (16 * b + r);
    ModUnique(n, 16 * p, a, 16 * b + r);
  }

  lemma {:induction false} ParseHexDigits(n: nat, count: nat)
    ensures ParseHex(HexDigits(n, count)) == n % Pow16(count)
  {
    if count > 0 {
      var s := HexDigits(n, count);
      assert s[..|s| - 1] == HexDigits(n / 16, count - 1);
      ParseHexDigits(n / 16, count - 1);
      ModSplit(n, Pow16(count - 1));
    }
  }

  /** `0x%08x` is exact: its eight digits read back as the value modulo 2^32 (negative values as their two's complement). */
  lemma Hex8RoundTrip(v: int)
    ensures ParseHex(Hex8(v)) == v % 0x1_0000_0000
    ensures -0x8000_0000 <= v < 0 ==> ParseHex(Hex8(v)) == v + 0x1_0000_0000
    ensures 0 <= v < 0x8000_0000 ==> ParseHex(Hex8(v)) == v
  {
    var m := v % 0x1_0000_0000;
    assert Pow16(8) == 0x1_0000_0000;
    ParseHexDigits(m, 8);
    ModUnique(m, 0x1_0000_0000, 0, m);
    if -0x8000_0000 <= v < 0 {
      ModUnique(v, 0x1_0000_0000, -1, v + 0x1_0000_0000);
    } else if 0 <= v < 0x8000_0000 {
      ModUnique(v, 0x1_0000_0000, 0, v);
    }
  }

  // ---------------------------------------------------------------------------
  // The text of R.java
  // ---------------------------------------------------------------------------

  /** The comment block, each `println` ending its line with `\n`. */
  const Header: string :=
    "/* AUTO-GENERATED FILE.  DO NOT MODIFY.\n"
    + " *\n"
    + " * This class was automatically generated by the\n"
    + " * aapt tool from the resource data it found.  It\n"
    + " * should not be modified by hand.\n"
    + " */\n"

  /** `0x%08x` */
  function HexLiteral(v: int): string {
    "0x" + Hex8(v)
  }

  /** `v1, v2, …` as `0x%08x` values joined by `, `. */
  function ValuesText(values: seq<int>): string {
    if |values| == 0 then ""
    else ValuesText(values[..|values| - 1]) + (if |values| > 1 then ", " else "") + HexLiteral(values[|values| - 1])
  }

  function StyleableOpen(vtype: string, name: string): string {
    "        public static " + vtype + " " + name + " = { "
  }

  function PlainLine(vtype: string, name: string, value: int): string {
    "        public static " + vtype + " " + name + " = " + HexLiteral(value) + ";\n"
  }

  function EntryLine(e: SymbolEntry): string {
    match e
    case Styleable(_, vtype, name, values) => StyleableOpen(vtype, name) + ValuesText(values) + " };\n"
    case Plain(_, vtype, name, value) => PlainLine(vtype, name, value)
  }

  function EntriesText(es: seq<SymbolEntry>): string {
    if |es| == 0 then "" else EntriesText(es[..|es| - 1]) + EntryLine(es[|es| - 1])
  }

  function ClassOpen(k: string): string {
    "    public static final class " + k + " {\n"
  }

  const ClassClose: string := "    }\n"

  function ClassText(k: string, es: seq<SymbolEntry>): string {
    ClassOpen(k) + EntriesText(es) + ClassClose
  }

  function ClassesText(g: Groups): string {
    if |g| == 0 then "" else ClassesText(g[..|g| - 1]) + ClassText(g[|g| - 1].0, g[|g| - 1].1)
  }

  function Preamble(pkg: string): string {
    Header + "package " + pkg + ";\r\n" + "\n" + "public final class R {\n"
  }

  /** The whole of `R.java` for the package and the grouped symbols. */
  function RText(pkg: string, g: Groups): string {
    Preamble(pkg) + ClassesText(g) + "}\n"
  }

  /** Concatenation regroups; text and logs are built by appending. */
  lemma Assoc<T>(a: seq<T>, b: seq<T>, c: seq<T>)
    ensures a + b + c == a + (b + c)
  {
  }

  /** Every group's class, with its entries, appears in the text, in the order of the groups. */
  lemma {:induction false} ClassesTextHasEachClass(g: Groups, i: nat)
    requires i < |g|
    ensures exists pre, post :: ClassesText(g) == pre + ClassText(g[i].0, g[i].1) + post
  {
    var init := g[..|g| - 1];
    var last := ClassText(g[|g| - 1].0, g[|g| - 1].1);
    if i == |g| - 1 {
      assert ClassesText(g) == ClassesText(init) + last + "";
    } else {
      assert init[i] == g[i];
      ClassesTextHasEachClass(init, i);
      var pre, post :| ClassesText(init) == pre + ClassText(g[i].0, g[i].1) + post;
      Assoc(pre + ClassText(g[i].0, g[i].1), post, last);
      assert ClassesText(g) == pre + ClassText(g[i].0, g[i].1) + (post + last);
    }
  }

  /** A styleable of `n` values prints `n` `0x` literals of eight digits, `, `-separated. */
  lemma {:induction false} ValuesTextLength(values: seq<int>)
    ensures |ValuesText(values)| == if |values| == 0 then 0 else 12 * |values| - 2
  {
    if |values| > 0 {
      ValuesTextLength(values[..|values| - 1]);
    }
  }

  /** The `PrintWriter` over the output stream, as the text written so far. */
  class PrintWriter {
    var text: string

    constructor ()
      ensures text == ""
    {
      text := "";
    }

    method Print(s: string)
      modifies this
      ensures text == old(text) + s
    {
      text := text + s;
    }
  }

  /** The values of one styleable. */
  method PrintValues(out: PrintWriter, values: seq<int>)
    modifies out
    ensures out.text == old(out.text) + ValuesText(values)
  {
    ghost var start := out.text;
    for i := 0 to |values|
      invariant out.text == start + ValuesText(values[..i])
    {
      assert values[..i + 1][..i] == values[..i];
      ghost var sep := if i > 0 then ", " else "";
      if i > 0 {
        out.Print(", ");
      }
      assert out.text == start + ValuesText(values[..i]) + sep;
      out.Print(HexLiteral(values[i]));
      Assoc(start, ValuesText(values[..i]), sep);
      Assoc(start, ValuesText(values[..i]) + sep, HexLiteral(values[i]));
    }
    assert values[..|values|] == values;
  }

  method PrintEntry(out: PrintWriter, e: SymbolEntry)
    modifies out
    ensures out.text == old(out.text) + EntryLine(e)
  {
    ghost var start := out.text;
    if e.Styleable? {
      out.Print(StyleableOpen(e.vtype, e.name));
      PrintValues(out, e.values);
      out.Print(" };\n");
      Assoc(start, StyleableOpen(e.vtype, e.name), ValuesText(e.values));
      Assoc(start, StyleableOpen(e.vtype, e.name) + ValuesText(e.values), " };\n");
    } else {
      out.Print(PlainLine(e.vtype, e.name, e.value));
    }
  }

  method PrintClass(out: PrintWriter, k: string, es: seq<SymbolEntry>)
    modifies out
    ensures out.text == old(out.text) + ClassText(k, es)
  {
    ghost var start := out.text;
    out.Print(ClassOpen(k));
    for i := 0 to |es|
      invariant out.text == start + ClassOpen(k) + EntriesText(es[..i])
    {
      assert es[..i + 1][..i] == es[..i];
      PrintEntry(out, es[i]);
      Assoc(start + ClassOpen(k), EntriesText(es[..i]), EntryLine(es[i]));
    }
    assert es[..|es|] == es;
    out.Print(ClassClose);
    Assoc(start, ClassOpen(k), EntriesText(es));
    Assoc(start, ClassOpen(k) + EntriesText(es), ClassClose);
  }

  /** `generateR(os, pkg, symbols)`, with `symbols.entries.values()` given in iteration order. */
  method GenerateR(out: PrintWriter, pkg: string, entries: seq<SymbolEntry>)
    modifies out
    ensures out.text == old(out.text) + RText(pkg, Grouped(entries))
  {
    ghost var start := out.text;
    var types := GroupByType(entries);
    out.Print(Preamble(pkg));
    for i := 0 to |types|
      invariant out.text == start + Preamble(pkg) + ClassesText(types[..i])
    {
      assert types[..i + 1][..i] == types[..i];
      PrintClass(out, types[i].0, types[i].1);
      Assoc(start + Preamble(pkg), ClassesText(types[..i]), ClassText(types[i].0, types[i].1));
    }
    assert types[..|types|] == types;
    out.Print("}\n");
    Assoc(start, Preamble(pkg), ClassesText(types));
    Assoc(start, Preamble(pkg) + ClassesText(types), "}\n");
  }
}
