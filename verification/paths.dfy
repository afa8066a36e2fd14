/** POSIX path handling used by the frame extractor: `os.path.basename`,
    `os.path.splitext` (its root part) and `os.path.join`, on plain strings. */
module Paths {

  predicate IsPrefix(a: string, b: string) {
    |a| <= |b| && a == b[..|a|]
  }

  predicate IsSuffix(a: string, b: string) {
    |a| <= |b| && a == b[|b| - |a|..]
  }

  lemma PrefixTrans(a: string, b: string, c: string)
    requires IsPrefix(a, b) && IsPrefix(b, c)
    ensures IsPrefix(a, c)
  {
    assert c[..|b|][..|a|] == c[..|a|];
  }

  predicate AllDots(s: string) {
    forall i :: 0 <= i < |s| ==> s[i] == '.'
  }

  /** Index of the last occurrence of `c` in `s`, or -1 when there is none
      (Python's `str.rfind`). */
  function LastIndexOf(s: string, c: char): (r: int)
    ensures -1 <= r < |s|
    ensures r >= 0 ==> s[r] == c
    ensures forall j :: r < j < |s| ==> s[j] != c
    decreases |s|
  {
    if |s| == 0 then -1
    else if s[|s| - 1] == c then |s| - 1
    else LastIndexOf(s[..|s| - 1], c)
  }

  /** Appending text free of `c` does not move the last `c`. */
  lemma {:induction false} LastIndexOfAppend(a: string, b: string, c: char)
    requires c !in b
    ensures LastIndexOf(a + b, c) == LastIndexOf(a, c)
    decreases |b|
  {
    if |b| == 0 {
      assert a + b == a;
    } else {
      var ab := a + b;
      assert ab[|ab| - 1] == b[|b| - 1];
      assert ab[..|ab| - 1] == a + b[..|b| - 1];
      LastIndexOfAppend(a, b[..|b| - 1], c);
    }
  }

  /** `os.path.basename`: everything after the last '/'. */
  function Basename(p: string): string {
    p[LastIndexOf(p, '/') + 1..]
  }

  /** The base name is the part of the path after its last '/'. */
  lemma BasenameSpec(p: string)
    ensures '/' !in Basename(p)
    ensures IsSuffix(Basename(p), p)
    ensures |Basename(p)| < |p| ==> p[|p| - |Basename(p)| - 1] == '/'
  {}

  /** `d` is where `os.path.splitext` cuts the extension off `p`: the last '.',
      with no '/' after it, and at least one character other than '.' between
      the last '/' and it (so ".bashrc" has no extension). */
  predicate IsExtensionAt(p: string, d: int) {
    && 0 <= d < |p|
    && p[d] == '.'
    && '.' !in p[d + 1..]
    && '/' !in p[d + 1..]
    && LastIndexOf(p, '/') < d
    && !AllDots(p[LastIndexOf(p, '/') + 1..d])
  }

  /** The only candidate cut point is the last '.'. */
  lemma ExtensionAtLastDot(p: string, d: int)
    requires IsExtensionAt(p, d)
    ensures d == LastIndexOf(p, '.')
  {
    var dot := LastIndexOf(p, '.');
    assert d <= dot;
  }

  /** The root part of `os.path.splitext(p)`: `p` with its extension removed,
      or `p` itself when it has none. */
  function Stem(p: string): string {
    var sep := LastIndexOf(p, '/');
    var dot := LastIndexOf(p, '.');
    if dot > sep && !AllDots(p[sep + 1..dot]) then p[..dot] else p
  }

  /** `Stem` cuts exactly at the extension when there is one and keeps the
      whole path otherwise. */
  lemma StemSpec(p: string)
    ensures IsPrefix(Stem(p), p)
    ensures |Stem(p)| < |p| ==> IsExtensionAt(p, |Stem(p)|)
    ensures forall d :: IsExtensionAt(p, d) ==> Stem(p) == p[..d]
  {
    StemCases(p);
  }

  lemma StemCases(p: string)
    ensures var sep := LastIndexOf(p, '/');
            var dot := LastIndexOf(p, '.');
            (dot > sep && !AllDots(p[sep + 1..dot])) <==> (dot >= 0 && IsExtensionAt(p, dot))
    ensures forall d :: IsExtensionAt(p, d) ==> d == LastIndexOf(p, '.')
  {
    var sep := LastIndexOf(p, '/');
    var dot := LastIndexOf(p, '.');
    if dot > sep && !AllDots(p[sep + 1..dot]) {
      LastDotIsExtension(p, sep, dot);
    }
    forall d | IsExtensionAt(p, d)
      ensures d == dot
    {
      ExtensionAtLastDot(p, d);
    }
  }

  lemma LastDotIsExtension(p: string, sep: int, dot: int)
    requires sep == LastIndexOf(p, '/') && dot == LastIndexOf(p, '.')
    requires dot > sep && !AllDots(p[sep + 1..dot])
    ensures IsExtensionAt(p, dot)
  {
    var tail := p[dot + 1..];
    forall i | 0 <= i < |tail|
      ensures tail[i] != '.' && tail[i] != '/'
    {
      assert tail[i] == p[dot + 1 + i];
    }
  }

  /** A character that does not occur has no last occurrence. */
  lemma LastIndexOfAbsent(s: string, c: char)
    requires c !in s
    ensures LastIndexOf(s, c) == -1
  {
    LastIndexOfAppend([], s, c);
    assert [] + s == s;
  }

  /** The '.' between a name and a dot-free extension is the last one. */
  lemma LastDotBeforeExtension(root: string, ext: string)
    requires '.' !in ext
    ensures LastIndexOf(root + "." + ext, '.') == |root|
  {
    LastIndexOfAppend(root + ".", ext, '.');
    assert (root + ".")[|root|] == '.';
  }

  /** A separator-free name with a one-part extension: `splitext` cuts the
      extension off and leaves the name. */
  lemma StemOfExtension(root: string, ext: string)
    requires '/' !in root && '/' !in ext && '.' !in ext
    requires !AllDots(root)
    ensures Stem(root + "." + ext) == root
  {
    var p := root + "." + ext;
    LastIndexOfAbsent(p, '/');
    LastDotBeforeExtension(root, ext);
    assert p[0..|root|] == root;
    assert p[..|root|] == root;
  }

  /** Cutting off the extension introduces no character. */
  lemma StemWithout(p: string, c: char)
    requires c !in p
    ensures c !in Stem(p)
  {
    var dot := LastIndexOf(p, '.');
    if Stem(p) != p {
      assert p == p[..dot] + p[dot..];
    }
  }

  /** `os.path.join(a, b)` for two components: an absolute `b` replaces `a`;
      otherwise a '/' is inserted unless `a` is empty or already ends in one. */
  function Join(a: string, b: string): string {
    if |b| > 0 && b[0] == '/' then b
    else if |a| == 0 || a[|a| - 1] == '/' then a + b
    else a + "/" + b
  }

  /** A relative `b` is appended below `a`, with at most one separator
      between them; an absolute `b` replaces `a`. */
  lemma JoinSpec(a: string, b: string)
    ensures |b| > 0 && b[0] == '/' ==> Join(a, b) == b
    ensures !(|b| > 0 && b[0] == '/') ==>
      var r := Join(a, b);
      IsPrefix(a, r) && IsSuffix(b, r) && |a| + |b| <= |r| <= |a| + |b| + 1
    ensures !(|b| > 0 && b[0] == '/') ==>
      (|Join(a, b)| == |a| + |b| + 1 <==> |a| > 0 && a[|a| - 1] != '/')
    ensures |Join(a, b)| == |a| + |b| + 1 ==> Join(a, b)[|a|] == '/'
  {}

  /** Joining a plain file name onto a folder: the base name of the result is
      that file name. */
  lemma BasenameOfJoin(a: string, b: string)
    requires '/' !in b
    ensures Basename(Join(a, b)) == b
  {
    if |a| == 0 {
      LastIndexOfAppend(a, b, '/');
      assert a + b == b;
    } else if a[|a| - 1] == '/' {
      LastIndexOfAppend(a, b, '/');
    } else {
      LastIndexOfAppend(a + "/", b, '/');
      assert a + "/" + b == (a + "/") + b;
    }
  }
}
