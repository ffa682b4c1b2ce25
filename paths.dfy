/**
 * Paths as the program builds them: os.walk hands out `os.path.join(root, file)`
 * for every file under a chosen folder, so a path is the sequence of names from
 * the filesystem root, and "/home/u/a.txt" is ["home", "u", "a.txt"].
 */
module Paths {

  type Name = string
  type Path = seq<Name>

  /** `root` is a prefix of `p` (p is root itself or something inside it). */
  predicate Within(root: Path, p: Path) {
    |root| <= |p| && p[..|root|] == root
  }

  /** `p` lies strictly inside `root`, as every file os.walk(root) yields does. */
  predicate Below(root: Path, p: Path) {
    |root| < |p| && p[..|root|] == root
  }

  /** Neither folder contains the other. */
  predicate Apart(a: Path, b: Path) {
    !Within(a, b) && !Within(b, a)
  }

  /** os.path.relpath(p, root) for a path inside root: the names after root. */
  function RelPath(p: Path, root: Path): (r: Path)
    requires Below(root, p)
    ensures r != [] && root + r == p
  {
    p[|root|..]
  }

  /** os.path.dirname: the folder that holds `p`. */
  function DirName(p: Path): (d: Path)
    requires p != []
    ensures Below(d, p) && |p| == |d| + 1
  {
    p[..|p| - 1]
  }

  /** Every folder os.makedirs(d) makes sure exists: `d` and all its ancestors. */
  function Lineage(d: Path): (s: set<Path>)
    ensures d in s
    ensures forall k :: 0 <= k <= |d| ==> d[..k] in s
    ensures forall q :: q in s ==> Within(q, d)
  {
    assert d[..|d|] == d;
    set k | 0 <= k <= |d| :: d[..k]
  }

  /** The string Python holds for a path: each name preceded by "/". */
  function Render(p: Path): (r: string)
    ensures r == "" <==> p == []
    ensures |r| >= |p|
    ensures p != [] ==> r[0] == '/' && |r| > |p[|p| - 1]| && r[|r| - |p[|p| - 1]|..] == p[|p| - 1]
  {
    if p == [] then "" else Render(p[..|p| - 1]) + "/" + p[|p| - 1]
  }

  /** A path whose names contain no line break renders to a string without one. */
  lemma {:induction false} RenderSingleLine(p: Path)
    requires forall n <- p :: '\n' !in n
    ensures '\n' !in Render(p)
  {
    if p != [] {
      var q := p[..|p| - 1];
      assert forall n <- q :: n in p;
      RenderSingleLine(q);
      assert Render(p) == Render(q) + "/" + p[|p| - 1];
    }
  }

  /** A path inside one of two apart folders is never a path inside the other. */
  lemma ApartBelowDistinct(a: Path, b: Path, s: Path, t: Path)
    requires Apart(a, b) && Below(a, s) && Below(b, t)
    ensures s != t
  {
  }
}
