/** Small things about optional values and lists that several modules share. */
module Lists {

  datatype Option<+T> = None | Some(value: T)

  ghost predicate NoRepeats<T>(s: seq<T>) {
    forall i, j | 0 <= i < j < |s| :: s[i] != s[j]
  }

  /** The list without its `i`-th entry, whose place the last entry takes. */
  function Drawn<T>(s: seq<T>, i: nat): (r: seq<T>)
    requires i < |s|
    ensures |r| == |s| - 1
  {
    s[i := s[|s| - 1]][..|s| - 1]
  }

  lemma DropLast<T>(s: seq<T>)
    requires |s| > 0
    ensures multiset(s[..|s| - 1]) + multiset{s[|s| - 1]} == multiset(s)
  {
    assert s == s[..|s| - 1] + [s[|s| - 1]];
  }

  /** Filling a gap with the last entry takes just the one entry away. */
  lemma DrawnRest<T>(s: seq<T>, i: nat)
    requires i < |s|
    ensures multiset(Drawn(s, i)) + multiset{s[i]} == multiset(s)
  {
    var n := |s| - 1;
    var u := s[i := s[n]];
    DropLast(u);
    DropLast(s);
    if i < n { assert u[..n] == s[..n][i := s[n]]; }
  }

  lemma JoinNoRepeats<T>(a: seq<T>, b: seq<T>)
    requires NoRepeats(a) && NoRepeats(b) && forall x | x in a :: x !in b
    ensures NoRepeats(a + b)
  {
    forall i, j | 0 <= i < |a| && 0 <= j < |b| ensures a[i] != b[j] {
      assert a[i] in a && b[j] in b;
    }
  }
}
