/** Paths as sequences of components, and the prefix order that locks and stage graphs rest on. */
module Paths {

  type Path = seq<string>

  predicate IsIn(p: Path, q: Path) {
    |q| < |p| && p[..|q|] == q
  }

  predicate IsInOrEq(p: Path, q: Path) {
    p == q || IsIn(p, q)
  }

  predicate Overlaps(p: Path, q: Path) {
    IsInOrEq(p, q) || IsIn(q, p)
  }

  lemma OverlapIsPrefix(p: Path, q: Path)
    ensures Overlaps(p, q) <==> p <= q || q <= p
    ensures IsInOrEq(p, q) <==> q <= p
    ensures Overlaps(p, q) == Overlaps(q, p)
  {
  }

  /** Two paths overlap exactly when some path (say, a file) lies in both. */
  lemma OverlapIsCommonDescendant(p: Path, q: Path)
    ensures Overlaps(p, q) <==> exists f: Path :: IsInOrEq(f, p) && IsInOrEq(f, q)
  {
    if Overlaps(p, q) {
      var f := if |p| < |q| then q else p;
      assert IsInOrEq(f, p) && IsInOrEq(f, q);
    }
    if f: Path :| IsInOrEq(f, p) && IsInOrEq(f, q) {
      assert p == f[..|p|] && q == f[..|q|];
      if |p| <= |q| {
        assert q[..|p|] == f[..|p|];
      } else {
        assert p[..|q|] == f[..|q|];
      }
    }
  }

  lemma CommonFileOverlaps(f: Path, p: Path, q: Path)
    requires p <= f && q <= f
    ensures Overlaps(p, q)
  {
    OverlapIsPrefix(f, p);
    OverlapIsPrefix(f, q);
    OverlapIsCommonDescendant(p, q);
  }
}
