/** Folding a finite set with an operation that does not care about the order of its elements. */
module Folds {

  ghost predicate Commuting<T(!new), W(!new)>(f: (W, T) -> W) {
    forall w, x, y :: f(f(w, x), y) == f(f(w, y), x)
  }

  ghost function Fold<T, W>(f: (W, T) -> W, s: set<T>, w: W): W {
    if s == {} then w
    else
      var x :| x in s;
      f(Fold(f, s - {x}, w), x)
  }

  /** Any element may be folded in last. */
  lemma {:induction false} FoldLast<T(!new), W(!new)>(f: (W, T) -> W, s: set<T>, w: W, y: T)
    requires Commuting(f) && y in s
    ensures Fold(f, s, w) == f(Fold(f, s - {y}, w), y)
    decreases s
  {
    var x :| x in s && Fold(f, s, w) == f(Fold(f, s - {x}, w), x);
    if x != y {
      FoldLast(f, s - {x}, w, y);
      FoldLast(f, s - {y}, w, x);
      assert s - {x} - {y} == s - {y} - {x};
    }
  }

  lemma FoldAdd<T(!new), W(!new)>(f: (W, T) -> W, s: set<T>, w: W, y: T)
    requires Commuting(f) && y !in s
    ensures Fold(f, s + {y}, w) == f(Fold(f, s, w), y)
  {
    FoldLast(f, s + {y}, w, y);
    assert s + {y} - {y} == s;
  }

  /** A further element may as well be folded in first. */
  lemma {:induction false} FoldFirst<T(!new), W(!new)>(f: (W, T) -> W, s: set<T>, w: W, y: T)
    requires Commuting(f)
    ensures Fold(f, s, f(w, y)) == f(Fold(f, s, w), y)
    decreases s
  {
    if s != {} {
      var x :| x in s;
      FoldLast(f, s, w, x);
      FoldLast(f, s, f(w, y), x);
      FoldFirst(f, s - {x}, w, y);
    }
  }
}
