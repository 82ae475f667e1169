/** POSIX path manipulation as the file handler uses it: the last separator,
    the base name, the directory part, joining two components and splitting
    off an extension. Only '/' is a separator; there are no drive letters. */
module Paths {

  const Sep: char := '/'
  const ExtSep: char := '.'

  /** `s` does not contain `c`. */
  predicate Lacks(s: string, c: char) {
    forall i :: 0 <= i < |s| ==> s[i] != c
  }

  /** Index of the last occurrence of `c` in `s`, or -1 when there is none. */
  function RFind(s: string, c: char): (r: int)
    ensures -1 <= r < |s|
    ensures r >= 0 ==> s[r] == c
    ensures forall j :: r < j < |s| ==> s[j] != c
  {
    LastBefore(s, c, |s|)
  }

  /** Index of the last occurrence of `c` among the first `n` characters of `s`, or -1. */
  function LastBefore(s: string, c: char, n: nat): (r: int)
    requires n <= |s|
    ensures -1 <= r < n
    ensures r >= 0 ==> s[r] == c
    ensures forall j :: r < j < n ==> s[j] != c
  {
    if n == 0 then -1
    else if s[n - 1] == c then n - 1
    else LastBefore(s, c, n - 1)
  }

  /** The final path component: everything after the last separator. */
  function Basename(p: string): (b: string)
    ensures Lacks(b, Sep)
    ensures |b| <= |p| && b == p[|p| - |b|..]
    ensures |b| < |p| ==> p[|p| - |b| - 1] == Sep
  {
    p[RFind(p, Sep) + 1..]
  }

  /** Everything up to and including the last separator ("" when there is none). */
  function Head(p: string): (h: string)
    ensures h + Basename(p) == p
    ensures h == [] || h[|h| - 1] == Sep
  {
    p[..RFind(p, Sep) + 1]
  }

  /** Splitting a path into a directory part that is empty or ends in a
      separator, followed by a separator-free name, can be done in one way
      only, and Head and Basename find it. */
  lemma SplitUnique(p: string, h: string, b: string)
    requires p == h + b
    requires h == [] || h[|h| - 1] == Sep
    requires Lacks(b, Sep)
    ensures Basename(p) == b
    ensures Head(p) == h
  {
    var r := RFind(p, Sep);
    assert forall j :: |h| <= j < |p| ==> p[j] == b[j - |h|];
    if h != [] {
      assert p[|h| - 1] == Sep;
    }
    assert r == |h| - 1;
    assert p[r + 1..] == b;
  }

  /** A base name is its own base name. */
  lemma BasenameIdempotent(p: string)
    ensures Basename(Basename(p)) == Basename(p)
  {
    var b := Basename(p);
    assert [] + b == b;
    SplitUnique(b, [], b);
  }

  /** Joins a directory and a name the way POSIX join does for two
      components: an absolute second component replaces the first, and a
      separator is inserted only when the first is non-empty and does not
      already end in one. */
  function Join(a: string, b: string): (r: string)
    ensures |b| > 0 && b[0] == Sep ==> r == b
    ensures !(|b| > 0 && b[0] == Sep) ==> |r| >= |a| + |b| && r[..|a|] == a && r[|r| - |b|..] == b
    ensures |r| <= |a| + |b| + 1
  {
    if |b| > 0 && b[0] == Sep then b
    else if a == [] || a[|a| - 1] == Sep then a + b
    else a + [Sep] + b
  }

  /** Joining a directory with a separator-free name gives a path whose base
      name is that name and whose directory part is the directory, with one
      separator appended unless it is empty or already ends in one. */
  lemma JoinThenSplit(a: string, b: string)
    requires Lacks(b, Sep)
    ensures Basename(Join(a, b)) == b
    ensures (a == [] || a[|a| - 1] == Sep) ==> Head(Join(a, b)) == a
    ensures (a != [] && a[|a| - 1] != Sep) ==> Head(Join(a, b)) == a + [Sep]
  {
    if a == [] || a[|a| - 1] == Sep {
      SplitUnique(a + b, a, b);
    } else {
      var h := a + [Sep];
      assert h[|h| - 1] == Sep;
      assert Join(a, b) == h + b;
      SplitUnique(h + b, h, b);
    }
  }

  /** True when some character of `s` between `lo` (inclusive) and `hi`
      (exclusive) is not the extension separator. */
  predicate NonDotIn(s: string, lo: int, hi: int)
    requires 0 <= lo <= hi <= |s|
  {
    exists i :: lo <= i < hi && s[i] != ExtSep
  }

  /** `e` starts with the extension separator and holds no other one. */
  predicate DotLed(e: string) {
    |e| > 0 && e[0] == ExtSep && forall i :: 0 < i < |e| ==> e[i] != ExtSep
  }

  /** Splits a path into (root, extension). The extension starts at the last
      dot of the path, provided that dot lies in the final component and some
      non-dot character of that component precedes it; otherwise the
      extension is empty. Leading dots of a name therefore never start an
      extension: ".bashrc" and "..a" have none. */
  function SplitExt(p: string): (r: (string, string))
    ensures r.0 + r.1 == p
    ensures r.1 == [] || DotLed(r.1)
    ensures Lacks(r.1, Sep)
  {
    var sepIndex := RFind(p, Sep);
    var dotIndex := RFind(p, ExtSep);
    if dotIndex > sepIndex && NonDotIn(p, sepIndex + 1, dotIndex) then
      TailFromLastDot(p, sepIndex, dotIndex);
      (p[..dotIndex], p[dotIndex..])
    else
      (p, [])
  }

  /** The suffix of `p` from its last dot, when that dot follows the last
      separator, starts with the dot and holds no other dot and no separator. */
  lemma TailFromLastDot(p: string, s: int, d: int)
    requires -1 <= s < d < |p|
    requires p[d] == ExtSep
    requires forall j :: d < j < |p| ==> p[j] != ExtSep
    requires forall j :: s < j < |p| ==> p[j] != Sep
    ensures DotLed(p[d..])
    ensures Lacks(p[d..], Sep)
  {
    assert forall i :: 0 <= i < |p| - d ==> p[d..][i] == p[d + i];
  }

  /** The extension of a path: the second half of SplitExt. It is empty, or
      a suffix of the path that starts with a dot and holds no other dot and
      no separator. */
  function Extension(p: string): (e: string)
    ensures |e| <= |p| && e == p[|p| - |e|..]
    ensures e == [] || DotLed(e)
    ensures Lacks(e, Sep)
  {
    SplitExt(p).1
  }

  /** A name has an extension when one of its dots comes after a non-dot character. */
  ghost predicate DotAfterStem(b: string) {
    exists i, j :: 0 <= i < j < |b| && b[i] != ExtSep && b[j] == ExtSep
  }

  /** The extension is non-empty exactly when the base name has a dot after a
      non-dot character. */
  lemma {:induction false} ExtensionExists(p: string)
    ensures Extension(p) != [] <==> DotAfterStem(Basename(p))
  {
    if Extension(p) != [] {
      ExtensionHasStem(p);
    }
    if DotAfterStem(Basename(p)) {
      StemGivesExtension(p);
    }
  }

  lemma {:induction false} ExtensionHasStem(p: string)
    requires Extension(p) != []
    ensures DotAfterStem(Basename(p))
  {
    var s := RFind(p, Sep);
    var d := RFind(p, ExtSep);
    var b := Basename(p);
    assert b == p[s + 1..];
    assert d > s && NonDotIn(p, s + 1, d) by {
      assert Extension(p) == SplitExt(p).1;
    }
    var i :| s + 1 <= i < d && p[i] != ExtSep;
    assert b[i - s - 1] != ExtSep && b[d - s - 1] == ExtSep;
  }

  lemma {:induction false} StemGivesExtension(p: string)
    requires DotAfterStem(Basename(p))
    ensures Extension(p) != []
  {
    var s := RFind(p, Sep);
    var d := RFind(p, ExtSep);
    var b := p[s + 1..];
    assert b == Basename(p);
    var i, j :| 0 <= i < j < |b| && b[i] != ExtSep && b[j] == ExtSep;
    assert p[s + 1 + j] == ExtSep;
    assert p[s + 1 + i] != ExtSep;
    assert NonDotIn(p, s + 1, d);
  }

  /** A non-empty extension is a proper suffix of the base name; what
      precedes it in the base name is never empty. */
  lemma {:induction false} ExtensionIsSuffixOfBasename(p: string)
    requires Extension(p) != []
    ensures |Extension(p)| < |Basename(p)|
    ensures Extension(p) == Basename(p)[|Basename(p)| - |Extension(p)|..]
  {
    var s := RFind(p, Sep);
    var d := RFind(p, ExtSep);
    assert d > s && NonDotIn(p, s + 1, d);
    assert Extension(p) == p[d..];
    assert Basename(p) == p[s + 1..];
  }

  /** Two suffixes of a name that each start at a dot and contain no further
      dot are the same suffix. */
  lemma LastDotSuffixUnique(b: string, e: string, e': string)
    requires |e| <= |b| && |e'| <= |b|
    requires e == b[|b| - |e|..] && e' == b[|b| - |e'|..]
    requires DotLed(e) && DotLed(e')
    ensures e == e'
  {
  }

  /** Only the final component decides the extension: dots in directory names
      are irrelevant. */
  lemma {:induction false} ExtensionIgnoresDirectories(p: string)
    ensures Extension(p) == Extension(Basename(p))
  {
    var b := Basename(p);
    var e, e' := Extension(p), Extension(b);
    assert e == [] <==> e' == [] by {
      BasenameIdempotent(p);
      ExtensionExists(p);
      ExtensionExists(b);
    }
    if e != [] {
      assert |e| <= |b| && e == b[|b| - |e|..] by {
        ExtensionIsSuffixOfBasename(p);
      }
      assert |e'| <= |b| && e' == b[|b| - |e'|..] by {
        BasenameIdempotent(p);
        ExtensionIsSuffixOfBasename(b);
      }
      LastDotSuffixUnique(b, e, e');
    }
  }

  /** The extension described without reference to how it is computed: for
      a path made of a directory part and a separator-free name, a suffix of
      the name that starts at a dot, has no further dot and has a non-dot
      character somewhere before it is the extension. */
  lemma ExtensionFromSuffix(h: string, b: string, e: string)
    requires h == [] || h[|h| - 1] == Sep
    requires Lacks(b, Sep)
    requires |e| < |b| && e == b[|b| - |e|..] && DotLed(e)
    requires NonDotIn(b, 0, |b| - |e|)
    ensures Extension(h + b) == e
  {
    var p := h + b;
    var d := |p| - |e|;
    assert RFind(p, Sep) == |h| - 1 by {
      SplitUnique(p, h, b);
    }
    assert RFind(p, ExtSep) == d by {
      assert forall j :: d <= j < |p| ==> p[j] == e[j - d];
      assert p[d] == ExtSep;
      assert forall j :: d < j < |p| ==> p[j] != ExtSep;
    }
    assert NonDotIn(p, |h|, d) by {
      var i :| 0 <= i < |b| - |e| && b[i] != ExtSep;
      assert p[|h| + i] == b[i];
    }
    assert p[d..] == e;
  }

  /** A name in which no dot follows a non-dot character has no extension,
      whatever directory part precedes it. */
  lemma NoExtensionWithoutStem(h: string, b: string)
    requires h == [] || h[|h| - 1] == Sep
    requires Lacks(b, Sep)
    requires !DotAfterStem(b)
    ensures Extension(h + b) == []
  {
    SplitUnique(h + b, h, b);
    ExtensionExists(h + b);
  }

}
