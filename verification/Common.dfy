/** Small datatypes and sequence facts shared by the other modules. */
module Common {

  datatype Option<+T> = None | Some(value: T)

  datatype Result<+T, +E> = Ok(value: T) | Err(error: E)

  ghost predicate NoDup<T>(s: seq<T>) {
    forall i, j :: 0 <= i < j < |s| ==> s[i] != s[j]
  }

  function ToSet<T>(s: seq<T>): set<T> {
    set x | x in s
  }

  lemma ToSetConcat<T>(a: seq<T>, b: seq<T>)
    ensures ToSet(a + b) == ToSet(a) + ToSet(b)
  {
  }

  lemma NoDupConcat<T>(a: seq<T>, b: seq<T>)
    requires NoDup(a) && NoDup(b) && ToSet(a) !! ToSet(b)
    ensures NoDup(a + b)
  {
    forall i, j | 0 <= i < j < |a + b|
      ensures (a + b)[i] != (a + b)[j]
    {
      if i < |a| <= j {
        assert a[i] in ToSet(a);
        assert b[j - |a|] in ToSet(b);
      }
    }
  }

  /** The elements of a set in some order. */
  method SetToSeq<T(==)>(s: set<T>) returns (r: seq<T>)
    ensures NoDup(r) && ToSet(r) == s
    ensures forall x :: x in r <==> x in s
  {
    r := [];
    var rest := s;
    while rest != {}
      invariant NoDup(r) && rest <= s && ToSet(r) == s - rest
      decreases |rest|
    {
      var x :| x in rest;
      NoDupConcat(r, [x]);
      ToSetConcat(r, [x]);
      r, rest := r + [x], rest - {x};
    }
    assert forall x :: x in r <==> x in ToSet(r);
  }

  lemma {:induction false} NoDupSize<T>(s: seq<T>)
    requires NoDup(s)
    ensures |ToSet(s)| == |s|
  {
    if s != [] {
      NoDupSize(s[1..]);
      assert ToSet(s) == {s[0]} + ToSet(s[1..]);
    }
  }
}
