/**
 * The few java.lang.String and java.io.File operations the modelled code
 * relies on, with their Java meaning (a string is a sequence of UTF-16
 * units, modelled as `char`).
 */
module JavaStrings {

  /** `s.startsWith(p)` */
  predicate StartsWith(s: string, p: string) {
    |p| <= |s| && s[..|p|] == p
  }

  /** `s.endsWith(p)` */
  predicate EndsWith(s: string, p: string) {
    |p| <= |s| && s[|s| - |p|..] == p
  }

  /** `t` occurs in `s` starting at index `i`. */
  predicate OccursAt(s: string, t: string, i: int) {
    0 <= i && i + |t| <= |s| && s[i..i + |t|] == t
  }

  /** `s.contains(t)` */
  predicate Contains(s: string, t: string) {
    exists i :: 0 <= i <= |s| && OccursAt(s, t, i)
  }

  /** The last occurrence of `t` in `s` at an index no larger than `i`, or -1. */
  function LastIndexAtOrBelow(s: string, t: string, i: int): (r: int)
    ensures r == -1 || 0 <= r <= i
    ensures r >= 0 ==> OccursAt(s, t, r)
    ensures forall j :: r < j <= i ==> !OccursAt(s, t, j)
    decreases i + 1
  {
    if i < 0 then -1
    else if OccursAt(s, t, i) then i
    else LastIndexAtOrBelow(s, t, i - 1)
  }

  /** `s.lastIndexOf(t)` */
  function LastIndexOf(s: string, t: string): (r: int)
    ensures -1 <= r <= |s|
    ensures r >= 0 ==> OccursAt(s, t, r)
    ensures forall j :: r < j ==> !OccursAt(s, t, j)
    ensures r == -1 <==> !Contains(s, t)
  {
    LastIndexAtOrBelow(s, t, |s|)
  }

  /** `s.indexOf(c, from)`: the first index at or after `from` holding `c`, or -1. */
  function IndexOfChar(s: string, c: char, from: int): (r: int)
    ensures r == -1 || (0 <= r < |s| && from <= r && s[r] == c)
    ensures r == -1 ==> forall j :: 0 <= j < |s| && from <= j ==> s[j] != c
    ensures r != -1 ==> forall j :: 0 <= j < r && from <= j ==> s[j] != c
    decreases |s| - from
  {
    if from < 0 then IndexOfChar(s, c, 0)
    else if from >= |s| then -1
    else if s[from] == c then from
    else IndexOfChar(s, c, from + 1)
  }

  /** The index of the last `c` in `s`, or -1. */
  function LastIndexOfChar(s: string, c: char): (r: int)
    ensures -1 <= r < |s|
    ensures r >= 0 ==> s[r] == c
    ensures forall j :: r < j < |s| ==> s[j] != c
  {
    if |s| == 0 then -1
    else if s[|s| - 1] == c then |s| - 1
    else LastIndexOfChar(s[..|s| - 1], c)
  }

  /** `File.getName()`: what follows the last '/'. */
  function LastSegment(p: string): (r: string)
    ensures '/' !in r
    ensures EndsWith(p, r)
  {
    p[LastIndexOfChar(p, '/') + 1..]
  }

  /** `s.replace('.', '/')` */
  function DotsToSlashes(s: string): (r: string)
    ensures |r| == |s|
    ensures forall i :: 0 <= i < |s| ==> r[i] == (if s[i] == '.' then '/' else s[i])
  {
    if |s| == 0 then "" else [if s[0] == '.' then '/' else s[0]] + DotsToSlashes(s[1..])
  }

  /**
   * `s.trim()`: drops leading and trailing characters up to U+0020. The
   * result is a slice of `s`, and only characters up to U+0020 lie outside it.
   */
  function Trim(s: string): (r: string)
    ensures |r| > 0 ==> r[0] > ' ' && r[|r| - 1] > ' '
    ensures exists k :: TrimmedAt(s, r, k)
  {
    TrimEndOfTrimStart(s);
    TrimEnd(TrimStart(s))
  }

  /** `r` is `s[k..k + |r|]`, and every character of `s` outside that slice is at most U+0020. */
  predicate TrimmedAt(s: string, r: string, k: int) {
    0 <= k <= |s| - |r| && r == s[k..k + |r|] && Blank(s[..k]) && Blank(s[k + |r|..])
  }

  /** Every character of `s` is at most U+0020, the characters `trim()` removes. */
  predicate Blank(s: string) {
    forall i :: 0 <= i < |s| ==> s[i] <= ' '
  }

  lemma TrimEndOfTrimStart(s: string)
    ensures TrimmedAt(s, TrimEnd(TrimStart(s)), |s| - |TrimStart(s)|)
  {
    var t := TrimStart(s);
    var r := TrimEnd(t);
    var k := |s| - |t|;
    assert t == s[k..];
    assert r == s[k..k + |r|];
    assert s[k + |r|..] == t[|r|..];
  }

  function TrimStart(s: string): (r: string)
    ensures |r| > 0 ==> r[0] > ' '
    ensures EndsWith(s, r)
    ensures Blank(s[..|s| - |r|])
  {
    if |s| > 0 && s[0] <= ' ' then
      var r := TrimStart(s[1..]);
      assert s[..|s| - |r|] == [s[0]] + s[1..][..|s| - 1 - |r|];
      r
    else s
  }

  function TrimEnd(s: string): (r: string)
    ensures |r| > 0 ==> r[|r| - 1] > ' '
    ensures StartsWith(s, r)
    ensures Blank(s[|r|..])
  {
    if |s| > 0 && s[|s| - 1] <= ' ' then
      var r := TrimEnd(s[..|s| - 1]);
      assert s[|r|..] == s[..|s| - 1][|r|..] + [s[|s| - 1]];
      r
    else s
  }

  /** Every piece of `s` between occurrences of `c`, empty pieces included. */
  function SplitAll(s: string, c: char): (r: seq<string>)
    ensures |r| >= 1
    ensures forall i :: 0 <= i < |r| ==> c !in r[i]
    decreases |s|
  {
    if |s| == 0 then [""]
    else if s[0] == c then [""] + SplitAll(s[1..], c)
    else var rest := SplitAll(s[1..], c); [[s[0]] + rest[0]] + rest[1..]
  }

  function DropTrailingEmpty(parts: seq<string>): (r: seq<string>)
    ensures |r| <= |parts| && r == parts[..|r|]
    ensures |r| > 0 ==> r[|r| - 1] != ""
    ensures forall i :: |r| <= i < |parts| ==> parts[i] == ""
  {
    if |parts| > 0 && parts[|parts| - 1] == "" then DropTrailingEmpty(parts[..|parts| - 1]) else parts
  }

  /**
   * `s.split(String.valueOf(c))` with limit 0: without a match the result is
   * `[s]`, otherwise every piece with the trailing empty ones removed.
   */
  function JavaSplit(s: string, c: char): (r: seq<string>)
    ensures forall i :: 0 <= i < |r| ==> c !in r[i]
    ensures c in s && |r| > 0 ==> r[|r| - 1] != ""
    ensures c !in s ==> r == [s]
    ensures c in s ==> r == DropTrailingEmpty(SplitAll(s, c))
  {
    if c !in s then [s] else DropTrailingEmpty(SplitAll(s, c))
  }

  lemma {:induction false} SplitAllConcat(x: string, c: char, y: string)
    ensures SplitAll(x + [c] + y, c) == SplitAll(x, c) + SplitAll(y, c)
    decreases |x|
  {
    if |x| == 0 {
      assert x + [c] + y == [c] + y;
      assert ([c] + y)[1..] == y;
    } else {
      var s := x + [c] + y;
      assert s[0] == x[0];
      assert s[1..] == x[1..] + [c] + y;
      SplitAllConcat(x[1..], c, y);
    }
  }

  lemma {:induction false} SplitAllNoSeparator(y: string, c: char)
    requires c !in y
    ensures SplitAll(y, c) == [y]
    decreases |y|
  {
    if |y| > 0 {
      SplitAllNoSeparator(y[1..], c);
      assert [y[0]] + y[1..] == y;
    }
  }

  /** With the separator present and a last character that is not the separator, no piece is dropped and there are at least two. */
  lemma {:induction false} SplitAllLastNonEmpty(s: string, c: char)
    requires |s| > 0 && s[|s| - 1] != c
    ensures SplitAll(s, c)[|SplitAll(s, c)| - 1] != ""
    ensures c in s ==> |SplitAll(s, c)| >= 2
    decreases |s|
  {
    var r := SplitAll(s, c);
    if s[0] == c {
      assert |s| > 1;
      SplitAllLastNonEmpty(s[1..], c);
    } else {
      var rest := SplitAll(s[1..], c);
      if |s| > 1 {
        assert s[1..][|s[1..]| - 1] == s[|s| - 1];
        SplitAllLastNonEmpty(s[1..], c);
        if c in s {
          assert c in s[1..];
        }
      } else {
        assert c !in s;
      }
    }
  }

  /** `s.split("/")` keeps at least two pieces when `s` holds a '/' and does not end with one. */
  lemma SplitKeepsTwo(s: string, c: char)
    requires c in s && s[|s| - 1] != c
    ensures |JavaSplit(s, c)| >= 2
    ensures JavaSplit(s, c) == SplitAll(s, c)
  {
    SplitAllLastNonEmpty(s, c);
  }

  lemma {:induction false} LastSegmentOfSuffix(s: string, t: string)
    requires EndsWith(s, t) && '/' !in t
    ensures EndsWith(LastSegment(s), t)
  {
  }
}
