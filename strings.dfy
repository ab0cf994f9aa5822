/** The few operations on Python `str` that the credential pipeline relies on:
    `strip`, `lower`, `find`, `count`, `replace(" ", "")`, `str(int)` and the
    final component of a path. */
module Strings {
  import opened Wrappers

  /** Python's `str.isspace` for one character: the ASCII controls TAB..CR and
      FS..US, SPACE, NEL, NO-BREAK SPACE and the Unicode space separators. */
  predicate IsSpace(c: char) {
    || c == ' '
    || ('\t' <= c <= '\r')
    || ('\U{1C}' <= c <= '\U{1F}')
    || c == '\U{85}' || c == '\U{A0}' || c == '\U{1680}'
    || ('\U{2000}' <= c <= '\U{200A}')
    || c == '\U{2028}' || c == '\U{2029}' || c == '\U{202F}' || c == '\U{205F}' || c == '\U{3000}'
  }

  predicate AllSpace(s: string) {
    forall i | 0 <= i < |s| :: IsSpace(s[i])
  }

  /** The first index at or after `i` that does not hold whitespace (or `|s|`). */
  function SkipSpace(s: string, i: nat): (j: nat)
    requires i <= |s|
    ensures i <= j <= |s|
    ensures forall k | i <= k < j :: IsSpace(s[k])
    ensures j < |s| ==> !IsSpace(s[j])
    decreases |s| - i
  {
    if i < |s| && IsSpace(s[i]) then SkipSpace(s, i + 1) else i
  }

  /** The end of `s[lo..hi]` once the whitespace at its right end is removed. */
  function TrimEnd(s: string, lo: nat, hi: nat): (j: nat)
    requires lo <= hi <= |s|
    ensures lo <= j <= hi
    ensures forall k | j <= k < hi :: IsSpace(s[k])
    ensures j > lo ==> !IsSpace(s[j - 1])
    decreases hi
  {
    if hi > lo && IsSpace(s[hi - 1]) then TrimEnd(s, lo, hi - 1) else hi
  }

  /** `s.strip()`: the slice of `s` left after removing whitespace at both ends. */
  function Strip(s: string): (r: string)
    ensures |r| <= |s|
    ensures r == [] || (!IsSpace(r[0]) && !IsSpace(r[|r| - 1]))
    ensures r == [] <==> AllSpace(s)
    ensures exists i, j | 0 <= i <= j <= |s| :: r == s[i..j] && AllSpace(s[..i]) && AllSpace(s[j..])
  {
    var i := SkipSpace(s, 0);
    var j := TrimEnd(s, i, |s|);
    assert j == i ==> AllSpace(s) by {
      if j == i {
        assert i == |s|;
      }
    }
    assert AllSpace(s[..i]) && AllSpace(s[j..]);
    s[i..j]
  }

  /** Stripping adds no character. */
  lemma StripKeepsOut(s: string, c: char)
    requires c !in s
    ensures c !in Strip(s)
  {
    var i := SkipSpace(s, 0);
    var j := TrimEnd(s, i, |s|);
    assert Strip(s) == s[i..j];
  }

  /** A string with no whitespace at either end is its own strip. */
  lemma StripStripped(s: string)
    requires s == [] || (!IsSpace(s[0]) && !IsSpace(s[|s| - 1]))
    ensures Strip(s) == s
  {
  }

  lemma StripIdempotent(s: string)
    ensures Strip(Strip(s)) == Strip(s)
  {
    StripStripped(Strip(s));
  }

  /** The strip is a slice of `s` starting at its first non-space character. */
  lemma StripStart(s: string)
    requires Strip(s) != []
    ensures SkipSpace(s, 0) < |s| && Strip(s)[0] == s[SkipSpace(s, 0)]
    ensures SkipSpace(s, 0) + |Strip(s)| <= |s|
    ensures Strip(s) == s[SkipSpace(s, 0)..SkipSpace(s, 0) + |Strip(s)|]
  {
  }

  /** Python's `str.lower` restricted to ASCII letters. */
  function LowerChar(c: char): char {
    if 'A' <= c <= 'Z' then (c as int + 32) as char else c
  }

  function Lower(s: string): (r: string)
    ensures |r| == |s|
  {
    if s == [] then [] else [LowerChar(s[0])] + Lower(s[1..])
  }

  /** Lowering maps every character on its own and leaves no upper-case ASCII letter,
      so lowering twice changes nothing more. */
  lemma {:induction false} LowerSpec(s: string)
    ensures forall i | 0 <= i < |s| :: Lower(s)[i] == LowerChar(s[i])
    ensures forall i | 0 <= i < |s| :: !('A' <= Lower(s)[i] <= 'Z')
    ensures Lower(Lower(s)) == Lower(s)
  {
    if s != [] {
      LowerSpec(s[1..]);
      var r := Lower(s);
      assert r == [LowerChar(s[0])] + Lower(s[1..]);
      forall i | 0 <= i < |s| ensures r[i] == LowerChar(s[i]) {
        if i > 0 {
          assert r[i] == Lower(s[1..])[i - 1];
        }
      }
      assert Lower(r) == [LowerChar(r[0])] + Lower(r[1..]);
      assert r[1..] == Lower(s[1..]);
    }
  }

  /** True when `pat` occurs in `s` starting at index `i`. */
  predicate OccursAt(s: string, pat: string, i: int) {
    0 <= i && i + |pat| <= |s| && s[i..i + |pat|] == pat
  }

  /** `s.find(pat, i)` with -1 written as `None`: the first occurrence at or after `i`. */
  function FindFrom(s: string, pat: string, i: nat): (r: Option<nat>)
    requires i <= |s|
    ensures r.Some? ==> i <= r.value && OccursAt(s, pat, r.value)
    ensures r.Some? ==> forall j | i <= j < r.value :: !OccursAt(s, pat, j)
    ensures r.None? ==> forall j | i <= j <= |s| :: !OccursAt(s, pat, j)
    decreases |s| - i
  {
    if i + |pat| > |s| then None
    else if s[i..i + |pat|] == pat then Some(i)
    else FindFrom(s, pat, i + 1)
  }

  /** `s.find(pat)`: the index of the first occurrence of `pat`, if any. */
  function Find(s: string, pat: string): (r: Option<nat>)
    ensures r.Some? ==> OccursAt(s, pat, r.value) && forall j | 0 <= j < r.value :: !OccursAt(s, pat, j)
    ensures r.None? ==> forall j | 0 <= j <= |s| :: !OccursAt(s, pat, j)
  {
    FindFrom(s, pat, 0)
  }

  /** `s.count(c)` for a one-character string `c`. */
  function Count(s: string, c: char): (n: nat)
    ensures n <= |s|
    ensures n == 0 <==> c !in s
  {
    if s == [] then 0 else (if s[0] == c then 1 else 0) + Count(s[1..], c)
  }

  /** The count is the number of occurrences: the multiplicity of `c` in `s`. */
  lemma {:induction false} CountOccurrences(s: string, c: char)
    ensures Count(s, c) == multiset(s)[c]
  {
    if s != [] {
      assert s == [s[0]] + s[1..];
      CountOccurrences(s[1..], c);
    }
  }

  /** `s.replace(" ", "")`. */
  function RemoveSpaces(s: string): (r: string)
    ensures ' ' !in r
    ensures forall c :: c != ' ' ==> (c in r <==> c in s)
  {
    if s == [] then []
    else (if s[0] == ' ' then [] else [s[0]]) + RemoveSpaces(s[1..])
  }

  /** The length drops by exactly the number of spaces. */
  lemma {:induction false} RemoveSpacesLength(s: string)
    ensures |RemoveSpaces(s)| == |s| - Count(s, ' ')
  {
    if s != [] {
      RemoveSpacesLength(s[1..]);
    }
  }

  lemma RemoveSpacesCons(x: char, t: string)
    ensures RemoveSpaces([x] + t) == (if x == ' ' then [] else [x]) + RemoveSpaces(t)
  {
    assert ([x] + t)[0] == x && ([x] + t)[1..] == t;
  }

  /** Removing spaces works piece by piece, so the characters kept stay in order. */
  lemma {:induction false} RemoveSpacesAppend(a: string, b: string)
    ensures RemoveSpaces(a + b) == RemoveSpaces(a) + RemoveSpaces(b)
  {
    if a == [] {
      assert a + b == b;
    } else {
      var x, t := a[0], a[1..];
      assert a == [x] + t && a + b == [x] + (t + b);
      RemoveSpacesCons(x, t + b);
      RemoveSpacesCons(x, t);
      RemoveSpacesAppend(t, b);
    }
  }

  /** `os.path.basename`: the text after the last '/' (empty after a trailing '/'). */
  function BaseName(path: string): (r: string)
    ensures |r| <= |path| && r == path[|path| - |r|..]
    ensures '/' !in r
    ensures |r| < |path| ==> path[|path| - |r| - 1] == '/'
  {
    if path == [] || path[|path| - 1] == '/' then []
    else
      var r := BaseName(path[..|path| - 1]);
      assert path[|path| - |r| - 1..] == path[..|path| - 1][|path| - 1 - |r|..] + [path[|path| - 1]];
      r + [path[|path| - 1]]
  }

  /** `PurePosixPath(path).name`: the last component once empty and "." components
      are dropped, as `pathlib` does when it parses the path; empty for "." and "/". */
  function PathName(path: string): (r: string)
    ensures '/' !in r && r != "."
    ensures |r| <= |path|
    decreases |path|
  {
    var last := BaseName(path);
    if |last| == |path| then
      if last == "." then [] else last
    else if last == [] || last == "." then PathName(path[..|path| - |last| - 1])
    else last
  }

  lemma OccursInPrefix(s: string, k: nat, pat: string, i: int)
    requires k <= |s| && OccursAt(s[..k], pat, i)
    ensures OccursAt(s, pat, i)
  {
    assert s[i..i + |pat|] == s[..k][i..i + |pat|];
  }

  /** Where a non-empty name sits in the path. */
  lemma {:induction false} PathNameAt(path: string) returns (i: int)
    ensures PathName(path) != [] ==> OccursAt(path, PathName(path), i)
    decreases |path|
  {
    var last := BaseName(path);
    i := |path| - |last|;
    if |last| < |path| && (last == [] || last == ".") {
      var dir := path[..|path| - |last| - 1];
      assert PathName(path) == PathName(dir);
      i := PathNameAt(dir);
      if PathName(dir) != [] {
        OccursInPrefix(path, |dir|, PathName(dir), i);
      }
    } else if PathName(path) != [] {
      assert PathName(path) == last;
      assert path[i..i + |last|] == last;
    }
  }

  /** A non-empty name is a piece of the path. */
  lemma PathNameOccurs(path: string)
    ensures PathName(path) != [] ==> exists i :: OccursAt(path, PathName(path), i)
  {
    var i := PathNameAt(path);
  }

  /** A path whose final component is a proper name has that name. */
  lemma PathNameOfName(path: string)
    requires BaseName(path) != [] && BaseName(path) != "."
    ensures PathName(path) == BaseName(path)
  {
  }

  /** The current directory has an empty name. */
  lemma PathNameCurrentDirectory()
    ensures PathName(".") == []
  {
    var dot := ['.'];
    assert dot[..0] == [] && BaseName([]) == [];
    assert BaseName(dot) == dot;
    assert PathName(dot) == [];
  }

  predicate IsDigit(c: char) {
    '0' <= c <= '9'
  }

  function DigitChar(d: nat): (c: char)
    requires d < 10
    ensures IsDigit(c)
  {
    ('0' as int + d) as char
  }

  function DigitValue(c: char): (d: nat)
    requires IsDigit(c)
    ensures d < 10
  {
    c as int - '0' as int
  }

  /** `str(n)` for a non-negative integer: its decimal digits, without leading zeros. */
  function NatToString(n: nat): (s: string)
    ensures |s| >= 1
    ensures forall i | 0 <= i < |s| :: IsDigit(s[i])
    ensures s[0] == '0' ==> n == 0
  {
    if n < 10 then [DigitChar(n)] else NatToString(n / 10) + [DigitChar(n % 10)]
  }

  /** The value of a string of decimal digits (the inverse reading of `NatToString`). */
  function DecimalValue(s: string): nat
    requires forall i | 0 <= i < |s| :: IsDigit(s[i])
  {
    if s == [] then 0 else 10 * DecimalValue(s[..|s| - 1]) + DigitValue(s[|s| - 1])
  }

  lemma {:induction false} DecimalRoundTrip(n: nat)
    ensures DecimalValue(NatToString(n)) == n
  {
    if n >= 10 {
      var s := NatToString(n);
      assert s[..|s| - 1] == NatToString(n / 10);
      DecimalRoundTrip(n / 10);
    }
  }

  /** Distinct numbers print differently, so numbered file names never collide. */
  lemma NatToStringInjective(m: nat, n: nat)
    requires NatToString(m) == NatToString(n)
    ensures m == n
  {
    DecimalRoundTrip(m);
    DecimalRoundTrip(n);
  }
}
