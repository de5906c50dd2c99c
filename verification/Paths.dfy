/** Cleaned absolute virtual paths, as sequences of names: "/" is [], "/a/b" is ["a", "b"]. */
module Paths {
  type Path = seq<string>

  /** The parent directory; the root is its own parent. */
  function Dir(p: Path): Path
  {
    if p == [] then p else p[..|p| - 1]
  }

  /** True if one of the two directories is the other one or lies inside it. */
  predicate IsDirOverlapped(d: Path, e: Path)
  {
    d <= e || e <= d
  }

  /** One path is the other, or leads to it. */
  lemma OverlapMeans(d: Path, e: Path)
    ensures IsDirOverlapped(d, e) <==> if |d| <= |e| then e[..|d|] == d else d[..|e|] == e
  {
  }

  /** The directories of a path, deepest first, ending with the root. */
  method GetDirsForVirtualPath(p: Path) returns (dirs: seq<Path>)
    ensures |dirs| == |p| + 1
    ensures forall i :: 0 <= i < |dirs| ==> dirs[i] == p[..|p| - i]
  {
    var current := p;
    dirs := [p];
    while current != []
      invariant |current| <= |p| && current == p[..|current|]
      invariant |dirs| == |p| - |current| + 1
      invariant forall i :: 0 <= i < |dirs| ==> dirs[i] == p[..|p| - i]
      decreases |current|
    {
      current := Dir(current);
      dirs := dirs + [current];
    }
  }

  /** A proper ancestor of p is also an ancestor of its parent. */
  lemma PrefixOfDir(q: Path, p: Path)
    requires q < p
    ensures q <= Dir(p)
  {
  }
}

module Options {
  datatype Option<+T> = None | Some(value: T)
}
