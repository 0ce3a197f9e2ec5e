/** `posixpath.splitext` and the path facts the handlers rely on. */
module Paths {

  /** `s.rfind(c)`: the index of the last `c` in `s`, or -1. */
  function LastIndex(s: string, c: char): (i: int)
    ensures -1 <= i < |s|
    ensures 0 <= i ==> s[i] == c
    ensures forall j :: i < j < |s| ==> s[j] != c
  {
    if s == [] then -1
    else if s[|s| - 1] == c then |s| - 1
    else LastIndex(s[..|s| - 1], c)
  }

  /** Appending text without `c` leaves the last `c` where it was. */
  lemma {:induction false} LastIndexAppend(a: string, b: string, c: char)
    requires forall j :: 0 <= j < |b| ==> b[j] != c
    ensures LastIndex(a + b, c) == LastIndex(a, c)
    decreases |b|
  {
    if b != [] {
      var b' := b[..|b| - 1];
      assert (a + b)[..|a + b| - 1] == a + b';
      LastIndexAppend(a, b', c);
    } else {
      assert a + b == a;
    }
  }

  /** The extension of `p` starts at index `k`: `p[k]` is the last dot, no
      separator follows it, and the last path component has a character
      other than a dot before it (so `.bashrc` and `..` have no extension). */
  predicate SplitsAt(p: string, k: int) {
    && 0 <= k < |p|
    && p[k] == '.'
    && (forall j :: k < j < |p| ==> p[j] != '.' && p[j] != '/')
    && (exists m :: 0 <= m < k && p[m] != '.' && forall j :: m <= j < k ==> p[j] != '/')
  }

  /** A split point is the last dot, after the last separator, with a
      non-dot character between them. */
  lemma SplitsAtLastDot(p: string, k: int)
    requires SplitsAt(p, k)
    ensures k == LastIndex(p, '.') && LastIndex(p, '/') < k
    ensures exists m :: LastIndex(p, '/') < m < k && p[m] != '.'
  {
    var m :| 0 <= m < k && p[m] != '.' && forall j :: m <= j < k ==> p[j] != '/';
    assert LastIndex(p, '/') < m;
  }

  /** The scan `splitext` makes over the characters after the last
      separator and before the last dot: is any of `p[lo..hi]` not a dot? */
  function HasNonDot(p: string, lo: int, hi: int): bool
    requires 0 <= lo && hi <= |p|
    decreases hi - lo
  {
    if lo >= hi then false else p[lo] != '.' || HasNonDot(p, lo + 1, hi)
  }

  lemma {:induction false} HasNonDotIff(p: string, lo: int, hi: int)
    requires 0 <= lo && hi <= |p|
    ensures HasNonDot(p, lo, hi) <==> exists m :: lo <= m < hi && p[m] != '.'
    decreases hi - lo
  {
    if lo < hi {
      HasNonDotIff(p, lo + 1, hi);
      if HasNonDot(p, lo + 1, hi) {
        var m :| lo + 1 <= m < hi && p[m] != '.';
        assert lo <= m < hi && p[m] != '.';
      }
    }
  }

  /** `posixpath.splitext(p)`: `(root, ext)` with `root + ext == p`. */
  function SplitExt(p: string): (r: (string, string))
    ensures r.0 + r.1 == p
  {
    var sep := LastIndex(p, '/');
    var dot := LastIndex(p, '.');
    if dot > sep && HasNonDot(p, sep + 1, dot) then
      assert p[..dot] + p[dot..] == p;
      (p[..dot], p[dot..])
    else
      assert p + [] == p;
      (p, [])
  }

  /** The extension is empty exactly when `p` has none, and otherwise starts
      at the split point. */
  lemma SplitExtSpec(p: string)
    ensures SplitExt(p).1 != [] ==> SplitsAt(p, |SplitExt(p).0|)
    ensures SplitExt(p).1 == [] ==> forall k :: !SplitsAt(p, k)
  {
    var sep := LastIndex(p, '/');
    var dot := LastIndex(p, '.');
    if dot > sep && HasNonDot(p, sep + 1, dot) {
      HasNonDotIff(p, sep + 1, dot);
      var m :| sep + 1 <= m < dot && p[m] != '.';
      assert forall j :: m <= j < dot ==> p[j] != '/';
      assert SplitExt(p) == (p[..dot], p[dot..]);
      assert SplitsAt(p, dot);
    } else {
      assert SplitExt(p) == (p, []);
      forall k | SplitsAt(p, k) ensures false {
        SplitsAtLastDot(p, k);
        HasNonDotIff(p, sep + 1, dot);
      }
    }
  }

  /** The last path component of `stem` holds a character other than a dot. */
  predicate NamedBase(stem: string) {
    exists m :: 0 <= m < |stem| && stem[m] != '.' && forall j :: m <= j < |stem| ==> stem[j] != '/'
  }

  /** Appending a name that does not start with a dot and has no separator
      gives a last component that is not all dots. */
  lemma NamedBaseAppend(a: string, b: string)
    requires b != [] && b[0] != '.'
    requires forall j :: 0 <= j < |b| ==> b[j] != '/'
    ensures NamedBase(a + b)
  {
    var p := a + b;
    assert p[|a|] == b[0];
    assert forall j :: |a| <= j < |p| ==> p[j] == b[j - |a|];
  }

  /** A name whose last component is not all dots, followed by a dot and a
      word without dots or separators, splits exactly at that dot. */
  lemma SplitExtOf(stem: string, word: string)
    requires NamedBase(stem)
    requires forall j :: 0 <= j < |word| ==> word[j] != '.' && word[j] != '/'
    ensures SplitExt(stem + "." + word) == (stem, "." + word)
  {
    var p := stem + "." + word;
    var m :| 0 <= m < |stem| && stem[m] != '.' && forall j :: m <= j < |stem| ==> stem[j] != '/';
    assert p[m] == stem[m];
    assert forall j :: m <= j < |stem| ==> p[j] == stem[j];
    assert forall j :: |stem| < j < |p| ==> p[j] == word[j - |stem| - 1];
    assert SplitsAt(p, |stem|);
    SplitExtSpec(p);
    var r := SplitExt(p);
    assert r.1 != [];
    assert |r.0| == |stem|;
    assert r.0 == p[..|stem|] == stem;
    assert r.1 == p[|stem|..] == "." + word;
  }

  /** The directory part of `p`: everything up to and including the last `/`. */
  function Directory(p: string): string {
    p[..LastIndex(p, '/') + 1]
  }

  /** Appending a name without separators keeps the directory. */
  lemma DirectoryAppend(a: string, b: string)
    requires forall j :: 0 <= j < |b| ==> b[j] != '/'
    ensures Directory(a + b) == Directory(a)
  {
    LastIndexAppend(a, b, '/');
    var k := LastIndex(a, '/') + 1;
    assert (a + b)[..k] == a[..k];
  }
}
