/** Lists of stages that come in the order of another list. */
module Orders {
  import opened Stages

  ghost predicate Precedes(s: seq<Stage>, x: Stage, y: Stage) {
    exists i, j :: 0 <= i < j < |s| && s[i] == x && s[j] == y
  }

  /** The stages of `sub` are stages of `s`, in the order in which they come there. */
  ghost predicate InOrder(sub: seq<Stage>, s: seq<Stage>) {
    && (forall x :: x in sub ==> x in s)
    && (forall a, b :: 0 <= a < b < |sub| ==> Precedes(s, sub[a], sub[b]))
  }

  lemma PrecedesAppend(s: seq<Stage>, x: Stage, y: Stage, z: Stage)
    ensures Precedes(s, x, y) ==> Precedes(s + [z], x, y)
    ensures x in s ==> Precedes(s + [z], x, z)
  {
    var all := s + [z];
    if Precedes(s, x, y) {
      var i, j :| 0 <= i < j < |s| && s[i] == x && s[j] == y;
      assert all[i] == x && all[j] == y;
    }
    if x in s {
      var i :| 0 <= i < |s| && s[i] == x;
      assert all[i] == x && all[|s|] == z;
    }
  }

  lemma InOrderAppend(sub: seq<Stage>, s: seq<Stage>, x: Stage)
    requires InOrder(sub, s)
    ensures InOrder(sub + [x], s + [x]) && InOrder(sub, s + [x])
  {
    forall a, b | 0 <= a < b < |sub|
      ensures Precedes(s + [x], sub[a], sub[b])
    {
      PrecedesAppend(s, sub[a], sub[b], x);
    }
    forall a | 0 <= a < |sub|
      ensures Precedes(s + [x], sub[a], x)
    {
      PrecedesAppend(s, sub[a], x, x);
    }
  }

  lemma InOrderCons(sub: seq<Stage>, s: seq<Stage>, x: Stage)
    requires InOrder(sub, s)
    ensures InOrder([x] + sub, [x] + s) && InOrder(sub, [x] + s)
  {
    forall y, z | Precedes(s, y, z)
      ensures Precedes([x] + s, y, z)
    {
      var i, j :| 0 <= i < j < |s| && s[i] == y && s[j] == z;
      assert ([x] + s)[i + 1] == y && ([x] + s)[j + 1] == z;
    }
    forall y | y in s
      ensures Precedes([x] + s, x, y)
    {
      var i :| 0 <= i < |s| && s[i] == y;
      assert ([x] + s)[0] == x && ([x] + s)[i + 1] == y;
    }
  }
}
