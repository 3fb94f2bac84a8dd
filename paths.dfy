/** Absolute, cleaned file-system paths as the launcher sees them (the walk
    hands out cleaned paths below an absolute root), and the pieces of Go's
    `path/filepath` it uses: Base, Dir, Rel, and the depth count built on
    Rel. A path is the list of its segments below "/"; the root "/" is []. */
module Paths {
  import Strings

  type Path = seq<string>

  /** A cleaned absolute path: no empty, "." or ".." segment, no '/' inside one. */
  predicate Clean(p: Path) {
    forall i :: 0 <= i < |p| ==> p[i] != "" && p[i] != "." && p[i] != ".." && '/' !in p[i]
  }

  /** The path as text: "/" for the root, otherwise "/a/b". */
  function ToString(p: Path): (s: string)
    ensures |s| >= 1 && s[0] == '/'
  {
    "/" + Strings.Join(p, '/')
  }

  /** filepath.Base: the last segment, "/" for the root. */
  function Base(p: Path): (b: string)
    ensures p == [] ==> b == "/"
    ensures p != [] ==> b == p[|p| - 1]
  {
    if p == [] then "/" else p[|p| - 1]
  }

  /** filepath.Dir: everything but the last segment; the root is its own Dir. */
  function Dir(p: Path): (d: Path)
    ensures p == [] ==> d == []
    ensures p != [] ==> d + [Base(p)] == p
  {
    if p == [] then [] else p[..|p| - 1]
  }

  /** Dir and Base split a path that is not the root. */
  lemma DirBase(p: Path, name: string)
    ensures Dir(p + [name]) == p && Base(p + [name]) == name
  {
  }

  /** The number of leading segments two paths share. */
  function CommonPrefix(a: Path, b: Path): (c: nat)
    ensures c <= |a| && c <= |b| && a[..c] == b[..c]
    ensures c < |a| && c < |b| ==> a[c] != b[c]
    decreases |a|
  {
    if a != [] && b != [] && a[0] == b[0] then
      var c := 1 + CommonPrefix(a[1..], b[1..]);
      assert a[..c] == [a[0]] + a[1..][..c - 1];
      assert b[..c] == [b[0]] + b[1..][..c - 1];
      c
    else 0
  }

  function Repeat(s: string, n: nat): (r: seq<string>)
    ensures |r| == n && forall i :: 0 <= i < n ==> r[i] == s
  {
    if n == 0 then [] else [s] + Repeat(s, n - 1)
  }

  /** The segments of filepath.Rel(root, path) for two absolute paths: one ".."
      per segment of `root` past the shared prefix, then the rest of `path`. */
  function RelSegments(root: Path, path: Path): seq<string> {
    var c := CommonPrefix(root, path);
    Repeat("..", |root| - c) + path[c..]
  }

  /** filepath.Rel as text: "." when the paths are equal. */
  function Rel(root: Path, path: Path): string {
    var segs := RelSegments(root, path);
    if segs == [] then "." else Strings.Join(segs, '/')
  }

  /** depthFrom: 0 when Rel is ".", otherwise the number of pieces of Rel
      split at '/'. (Rel cannot fail here: both paths are absolute.) */
  function DepthFrom(root: Path, path: Path): int {
    var rel := Rel(root, path);
    if rel == "." then 0 else |Strings.Split(rel, '/')|
  }

  /** The depth is the number of steps between the two paths through their
      shared prefix. */
  lemma DepthFromSteps(root: Path, path: Path)
    requires Clean(root) && Clean(path)
    ensures DepthFrom(root, path) == (|root| - CommonPrefix(root, path)) + (|path| - CommonPrefix(root, path))
  {
    var c := CommonPrefix(root, path);
    var segs := RelSegments(root, path);
    assert |segs| == (|root| - c) + (|path| - c);
    if segs != [] {
      RelSegmentsPlain(root, path);
      Strings.SplitJoin(segs, '/');
      assert Strings.Join(segs, '/') != "." by {
        Strings.SplitNoSep(".", '/');
      }
    }
  }

  /** The segments of Rel between two clean paths are ".." or segments of
      `path`: none holds '/' and none is ".". */
  lemma RelSegmentsPlain(root: Path, path: Path)
    requires Clean(path)
    ensures var segs := RelSegments(root, path);
      forall i :: 0 <= i < |segs| ==> '/' !in segs[i] && segs[i] != "."
  {
    var c := CommonPrefix(root, path);
    var segs := RelSegments(root, path);
    forall i | 0 <= i < |segs| ensures '/' !in segs[i] && segs[i] != "." {
      if i >= |root| - c {
        assert segs[i] == path[c + i - (|root| - c)];
      }
    }
  }

  /** The depth is zero exactly when the two paths are the same. */
  lemma DepthFromZero(root: Path, path: Path)
    requires Clean(root) && Clean(path)
    ensures DepthFrom(root, path) == 0 <==> root == path
  {
    DepthFromSteps(root, path);
    var c := CommonPrefix(root, path);
    if c == |root| && c == |path| {
      assert root == root[..c] && path == path[..c];
    }
  }

  /** For a path below the root, the depth is how many segments it adds. */
  lemma DepthFromBelow(root: Path, rest: Path)
    requires Clean(root + rest)
    ensures DepthFrom(root, root + rest) == |rest|
  {
    var path := root + rest;
    assert Clean(root) by {
      forall i | 0 <= i < |root| ensures root[i] != "" && root[i] != "." && root[i] != ".." && '/' !in root[i] {
        assert root[i] == path[i];
      }
    }
    DepthFromSteps(root, path);
  }

  /** The depth does not depend on which path is the root. */
  lemma DepthFromSymmetric(a: Path, b: Path)
    requires Clean(a) && Clean(b)
    ensures DepthFrom(a, b) == DepthFrom(b, a)
  {
    DepthFromSteps(a, b);
    DepthFromSteps(b, a);
    CommonPrefixSymmetric(a, b);
  }

  lemma {:induction false} CommonPrefixSymmetric(a: Path, b: Path)
    ensures CommonPrefix(a, b) == CommonPrefix(b, a)
    decreases |a|
  {
    if a != [] && b != [] && a[0] == b[0] {
      CommonPrefixSymmetric(a[1..], b[1..]);
    }
  }

  /** A path is at depth 0 from itself. */
  lemma DepthFromSelf(p: Path)
    ensures DepthFrom(p, p) == 0
  {
    CommonPrefixSelf(p);
  }

  lemma {:induction false} CommonPrefixSelf(p: Path)
    ensures CommonPrefix(p, p) == |p|
    decreases |p|
  {
    if p != [] {
      CommonPrefixSelf(p[1..]);
    }
  }

  /** Every prefix of a clean path is clean. */
  lemma CleanPrefix(p: Path, n: nat)
    requires Clean(p) && n <= |p|
    ensures Clean(p[..n])
  {
    assert forall i :: 0 <= i < n ==> p[..n][i] == p[i];
  }

  /** Distinct clean paths have distinct texts. */
  lemma ToStringInjective(a: Path, b: Path)
    requires Clean(a) && Clean(b)
    ensures ToString(a) == ToString(b) <==> a == b
  {
    if ToString(a) == ToString(b) {
      assert ToString(a)[1..] == Strings.Join(a, '/');
      assert ToString(b)[1..] == Strings.Join(b, '/');
      if a != [] {
        Strings.SplitJoin(a, '/');
      }
      if b != [] {
        Strings.SplitJoin(b, '/');
      }
    }
  }

  /** A clean path extended by a proper segment is clean. */
  lemma CleanSnoc(p: Path, name: string)
    requires Clean(p) && name != "" && name != "." && name != ".." && '/' !in name
    ensures Clean(p + [name])
  {
    assert forall i :: 0 <= i < |p| ==> (p + [name])[i] == p[i];
  }
}
