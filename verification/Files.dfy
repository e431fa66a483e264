/** Workspaces as maps from file paths to bytes.  What a declared path holds is the map of the
    files under it, relative to it; hashes are taken to be injective, so this map also stands
    for the hash of the path.  A path exists when it holds some file. */
module Files {
  import opened Paths

  type Files = map<Path, string>

  predicate InAny(f: Path, paths: set<Path>) {
    exists p :: p in paths && p <= f
  }

  function Strip(ws: Files, paths: set<Path>): Files {
    map f | f in ws && !InAny(f, paths) :: ws[f]
  }

  function Under(ws: Files, paths: set<Path>): Files {
    map f | f in ws && InAny(f, paths) :: ws[f]
  }

  function Content(ws: Files, p: Path): (c: Files)
    ensures forall f :: f in ws && p <= f ==> f[|p|..] in c && c[f[|p|..]] == ws[f]
    ensures forall r :: r in c ==> p + r in ws && c[r] == ws[p + r]
  {
    var rel := set f | f in ws && p <= f :: f[|p|..];
    assert forall f :: f in ws && p <= f ==> p + f[|p|..] == f;
    map r | r in rel :: ws[p + r]
  }

  predicate Exists(ws: Files, p: Path) {
    Content(ws, p) != map[]
  }

  /** The workspace after `p` has been replaced by `c`. */
  function Checkout(ws: Files, p: Path, c: Files): Files {
    Strip(ws, {p}) + Place(p, c)
  }

  function Place(p: Path, c: Files): (m: Files)
    ensures forall r :: r in c ==> p + r in m && m[p + r] == c[r]
    ensures forall f :: f in m ==> p <= f && f[|p|..] in c && m[f] == c[f[|p|..]]
  {
    var full := set r | r in c :: p + r;
    assert forall r :: r in c ==> (p + r)[|p|..] == r;
    map f | f in full :: c[f[|p|..]]
  }

  /** Equal content means equal files. */
  lemma ContentDetermines(a: Files, b: Files, p: Path, f: Path)
    requires Content(a, p) == Content(b, p) && p <= f
    ensures f in a <==> f in b
    ensures f in a ==> a[f] == b[f]
  {
    assert p + f[|p|..] == f;
  }

  lemma FilesDetermine(a: Files, b: Files, p: Path)
    requires forall f :: p <= f ==> (f in a <==> f in b) && (f in a ==> a[f] == b[f])
    ensures Content(a, p) == Content(b, p)
  {
    forall r
      ensures r in Content(a, p) <==> r in Content(b, p)
      ensures r in Content(a, p) ==> Content(a, p)[r] == Content(b, p)[r]
    {
      assert p <= p + r && (p + r)[|p|..] == r;
    }
  }

  /** Stripping leaves alone every path that overlaps none of the stripped ones. */
  lemma StripKeepsContent(ws: Files, paths: set<Path>, p: Path)
    requires forall q :: q in paths ==> !Overlaps(p, q)
    ensures Content(Strip(ws, paths), p) == Content(ws, p)
  {
    forall f | p <= f
      ensures !InAny(f, paths)
    {
      if InAny(f, paths) {
        var q :| q in paths && q <= f;
        CommonFileOverlaps(f, p, q);
      }
    }
    FilesDetermine(Strip(ws, paths), ws, p);
  }

  lemma StripTwice(ws: Files, a: set<Path>, b: set<Path>)
    ensures Strip(Strip(ws, a), b) == Strip(ws, a + b)
  {
    forall f
      ensures InAny(f, a + b) <==> InAny(f, a) || InAny(f, b)
    {
      InAnyUnion(f, a, b);
    }
  }

  lemma InAnyUnion(f: Path, a: set<Path>, b: set<Path>)
    ensures InAny(f, a + b) <==> InAny(f, a) || InAny(f, b)
  {
    if InAny(f, a) {
      var p :| p in a && p <= f;
      assert p in a + b;
    }
    if InAny(f, b) {
      var p :| p in b && p <= f;
      assert p in a + b;
    }
  }

  /** No path of `a` overlaps one of `b`. */
  ghost predicate Apart(a: set<Path>, b: set<Path>) {
    forall p, q :: p in a && q in b ==> !Overlaps(p, q)
  }

  lemma ApartFiles(a: set<Path>, b: set<Path>, f: Path)
    requires Apart(a, b)
    ensures !(InAny(f, a) && InAny(f, b))
  {
    if InAny(f, a) && InAny(f, b) {
      var p :| p in a && p <= f;
      var q :| q in b && q <= f;
      CommonFileOverlaps(f, p, q);
    }
  }

  /** Replacing the files under `outs` commutes with stripping paths apart from `outs`. */
  lemma ReplaceThenStrip(ws: Files, m: Files, outs: set<Path>, later: set<Path>)
    requires Apart(outs, later)
    ensures Strip(Strip(ws, outs) + Under(m, outs), later)
      == Strip(Strip(ws, outs + later), outs) + Under(m, outs)
  {
    var a := Strip(Strip(ws, outs) + Under(m, outs), later);
    var b := Strip(Strip(ws, outs + later), outs) + Under(m, outs);
    forall f
      ensures f in a <==> f in b
      ensures f in a ==> a[f] == b[f]
    {
      ApartFiles(outs, later, f);
      InAnyUnion(f, outs, later);
    }
  }

  lemma UnderMany(a: Files, b: Files, paths: set<Path>)
    requires forall p :: p in paths ==> Content(a, p) == Content(b, p)
    ensures Under(a, paths) == Under(b, paths)
  {
    forall f | InAny(f, paths)
      ensures f in a <==> f in b
      ensures f in a ==> a[f] == b[f]
    {
      var p :| p in paths && p <= f;
      ContentDetermines(a, b, p, f);
    }
  }

  lemma SplitAt(ws: Files, paths: set<Path>)
    ensures Strip(ws, paths) + Under(ws, paths) == ws
  {
  }

  lemma UnderContent(ws: Files, m: Files, paths: set<Path>, p: Path)
    requires p in paths
    ensures Content(Strip(ws, paths) + Under(m, paths), p) == Content(m, p)
  {
    var r := Strip(ws, paths) + Under(m, paths);
    forall f | p <= f
      ensures (f in r <==> f in m) && (f in r ==> r[f] == m[f])
    {
      assert InAny(f, paths);
    }
    FilesDetermine(r, m, p);
  }

  lemma PlacedContent(p: Path, c: Files)
    ensures Content(Place(p, c), p) == c
  {
    forall x
      ensures x in Content(Place(p, c), p) <==> x in c
      ensures x in c ==> Content(Place(p, c), p)[x] == c[x]
    {
      assert (p + x)[|p|..] == x && p <= p + x;
    }
  }

  lemma CheckoutContent(ws: Files, p: Path, c: Files)
    ensures Content(Checkout(ws, p, c), p) == c
  {
    var r := Checkout(ws, p, c);
    forall f | p <= f
      ensures (f in r <==> f in Place(p, c)) && (f in r ==> r[f] == Place(p, c)[f])
    {
      assert p in {p};
    }
    FilesDetermine(r, Place(p, c), p);
    PlacedContent(p, c);
  }

  lemma CheckoutElsewhere(ws: Files, p: Path, c: Files, q: Path)
    requires !Overlaps(q, p)
    ensures Content(Checkout(ws, p, c), q) == Content(ws, q)
  {
    var r := Checkout(ws, p, c);
    forall f | q <= f
      ensures (f in r <==> f in ws) && (f in r ==> r[f] == ws[f])
    {
      if p <= f {
        CommonFileOverlaps(f, q, p);
      }
    }
    FilesDetermine(r, ws, q);
  }

  lemma CheckoutStripped(ws: Files, p: Path, c: Files, outs: set<Path>)
    requires p in outs
    ensures Strip(Checkout(ws, p, c), outs) == Strip(ws, outs)
  {
    var r := Checkout(ws, p, c);
    forall f | !InAny(f, outs)
      ensures (f in r <==> f in ws) && (f in ws ==> r[f] == ws[f])
    {
      assert !(p <= f);
      assert f !in Place(p, c);
      assert !InAny(f, {p});
    }
    assert forall f :: f in Strip(r, outs) <==> f in r && !InAny(f, outs);
    assert forall f :: f in Strip(ws, outs) <==> f in ws && !InAny(f, outs);
  }
}
