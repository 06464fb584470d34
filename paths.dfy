/** The `pathlib` operations the core uses, on paths that are already resolved and
    written as their list of components. */
module Paths {
  import opened Wrappers
  import opened Sequences
  import opened Strings

  /** A resolved filesystem path, as its components (`/a/b/c.png` is `["a", "b", "c.png"]`). */
  type Path = seq<string>

  /** A component of a resolved path: not empty, not `.`, and free of `/`. */
  predicate IsName(c: string)
  {
    c != "" && c != "." && '/' !in c
  }

  /** `path.relative_to(root)`: the components after `root`, or `None` where Python
      raises `ValueError` because `path` does not lie under `root`. */
  function RelativeTo(path: Path, root: Path): (rel: Option<Path>)
    ensures rel.Some? <==> root <= path
    ensures rel.Some? ==> root + rel.value == path
  {
    if root <= path then Some(path[|root|..]) else None
  }

  /** `PurePath.as_posix()` of a relative path: the components joined by `/`; the empty
      relative path prints as `.`. */
  function AsPosix(rel: Path): (s: string)
    ensures rel != [] && (forall k :: 0 <= k < |rel| ==> '/' !in rel[k]) ==> SplitOn(s, '/') == rel
  {
    if rel == [] then "."
    else
      PosixSplit(rel);
      JoinWith(rel, "/")
  }

  /** The components of a printed relative path are read back by splitting at `/`. */
  lemma PosixSplit(rel: Path)
    requires rel != []
    ensures (forall k :: 0 <= k < |rel| ==> '/' !in rel[k]) ==> SplitOn(JoinWith(rel, "/"), '/') == rel
  {
    if forall k :: 0 <= k < |rel| ==> '/' !in rel[k] {
      SplitOnJoin(rel, '/');
    }
  }

  /** Two relative paths made of names print differently unless they are equal. */
  lemma AsPosixInjective(r1: Path, r2: Path)
    requires forall k :: 0 <= k < |r1| ==> IsName(r1[k])
    requires forall k :: 0 <= k < |r2| ==> IsName(r2[k])
    requires AsPosix(r1) == AsPosix(r2)
    ensures r1 == r2
  {
    if r1 != [] {
      SplitOnJoin(r1, '/');
    }
    if r2 != [] {
      SplitOnJoin(r2, '/');
    }
    if r1 == [] || r2 == [] {
      assert forall i :: 0 <= i < |"."| ==> !Is('/')("."[i]);
      SplitNoSeparator(".", Is('/'));
    }
  }
}
