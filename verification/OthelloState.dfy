/** The Othello state object. */
module OthelloState {
  import opened TurnGames
  import opened OthelloRules

  class State {
    var board: Board
    var justMoved: Turn
    const size: nat

    ghost predicate Valid()
      reads this
    {
      IsBoard(board, size)
    }

    /** The position that the object holds. */
    ghost function Value(): Othello
      requires Valid()
      reads this
    {
      Position(board, size, justMoved)
    }

    /** An empty board with two counters of each player crosswise in the middle. */
    constructor (sz: nat)
      requires sz % 2 == 0 && sz > 0
      ensures Valid() && size == sz && justMoved == 2
      ensures var h := sz / 2;
              forall x, y | 0 <= x < sz && 0 <= y < sz ::
                At(board, x, y) == if (x != h && x != h - 1) || (y != h && y != h - 1) then 0
                                   else if x == y then 1 else 2
      ensures Count(board, 1) == 2 && Count(board, 2) == 2 && Count(board, 0) == sz * sz - 4
    {
      justMoved, size := 2, sz;
      var b := EmptyBoard(sz);
      var h := sz / 2;
      b := Place(b, sz, (h, h), 1);
      b := Place(b, sz, (h - 1, h - 1), 1);
      b := Place(b, sz, (h, h - 1), 2);
      b := Place(b, sz, (h - 1, h), 2);
      board := b;
      CountsAddUp(b, sz);
    }

    /** `IsOnBoard`. */
    predicate IsOnBoard(x: int, y: int) {
      0 <= x < size && 0 <= y < size
    }

    method AdjacentEnemyDirections(x: int, y: int) returns (es: seq<Square>)
      requires Valid()
      ensures es == Adjacent(board, justMoved, x, y, DIRECTIONS)
    {
      hide Adjacent, IsBoard;
      BoardSize(board, size);
      es := [];
      NoneAdjacent(board, justMoved, x, y);
      for i := 0 to |DIRECTIONS|
        invariant es == Adjacent(board, justMoved, x, y, DIRECTIONS[..i])
      {
        var d := DIRECTIONS[i];
        AdjacentStep(board, justMoved, x, y, DIRECTIONS, i);
        if IsOnBoard(x + d.0, y + d.1) && board[x + d.0][y + d.1] == justMoved {
          es := es + [d];
        }
      }
      assert DIRECTIONS[..|DIRECTIONS|] == DIRECTIONS;
    }

    method SandwichedCounters(x: int, y: int, d: Square) returns (r: seq<Square>)
      requires Valid() && IsOnBoard(x, y) && IsDirection(d)
      ensures r == Sandwiched(board, justMoved, x, y, d)
    {
      hide RunLength, RayCells, IsBoard;
      BoardSize(board, size);
      NoCells(x, y, d);
      var cx, cy := x + d.0, y + d.1;
      r := [];
      ghost var k := 0;
      while IsOnBoard(cx, cy) && board[cx][cy] == justMoved
        invariant 0 <= k <= |board| && cx == Along(x, d.0, k + 1) && cy == Along(y, d.1, k + 1)
        invariant r == RayCells(x, y, d, k)
        invariant RunLength(board, justMoved, x, y, d, 0) == RunLength(board, justMoved, x, y, d, k)
        decreases |board| - k
      {
        if k == |board| { OffBoardAfter(board, size, x, y, d, k + 1); }
        RunStep(board, justMoved, x, y, d, k);
        RayStep(x, y, d, k);
        r := r + [(cx, cy)];
        cx, cy := cx + d.0, cy + d.1;
        k := k + 1;
      }
      RunEnd(board, justMoved, x, y, d, k);
      if !(IsOnBoard(cx, cy) && board[cx][cy] == 3 - justMoved) {
        r := [];
      }
    }

    method GetAllSandwichedCounters(x: int, y: int) returns (r: seq<Square>)
      requires Valid() && IsOnBoard(x, y)
      ensures r == AllSandwiched(board, justMoved, x, y)
    {
      hide Sandwiched, Adjacent, IsBoard;
      r := [];
      var es := AdjacentEnemyDirections(x, y);
      AdjacentExact(board, justMoved, x, y);
      for i := 0 to |es|
        invariant r == SandwichedIn(board, justMoved, x, y, es[..i])
      {
        assert es[i] in es;
        var more := SandwichedCounters(x, y, es[i]);
        assert es[..i + 1][..i] == es[..i];
        r := r + more;
      }
      assert es[..|es|] == es;
    }

    method ExistsSandwichedCounter(x: int, y: int) returns (r: bool)
      requires Valid() && IsOnBoard(x, y)
      ensures r <==> AllSandwiched(board, justMoved, x, y) != []
    {
      hide Sandwiched, Adjacent, IsBoard;
      var es := AdjacentEnemyDirections(x, y);
      AdjacentExact(board, justMoved, x, y);
      for i := 0 to |es|
        invariant SandwichedIn(board, justMoved, x, y, es[..i]) == []
      {
        assert es[i] in es;
        var found := SandwichedCounters(x, y, es[i]);
        if |found| > 0 {
          assert found[0] in found;
          InMember(board, justMoved, x, y, es, found[0]);
          return true;
        }
        assert es[..i + 1][..i] == es[..i];
      }
      assert es[..|es|] == es;
      return false;
    }

    method GetMoves() returns (r: seq<Square>)
      requires Valid()
      ensures r == Moves(Value())
    {
      hide AllSandwiched, IsBoard, RowMoves, MovesTo;
      BoardSize(board, size);
      NoMoves(board, justMoved, size);
      r := [];
      for x := 0 to size
        invariant r == MovesTo(board, justMoved, x, size)
      {
        ghost var r0 := r;
        NoRowMoves(board, justMoved, x);
        for y := 0 to size
          invariant r == r0 + RowMoves(board, justMoved, x, y)
        {
          RowStep(board, justMoved, x, y);
          if board[x][y] == 0 {
            var ok := ExistsSandwichedCounter(x, y);
            if ok { r := r + [(x, y)]; }
          }
        }
        NextRow(board, justMoved, x, size);
      }
    }

    /** The square must be empty, as the original asserts. */
    method DoMove(x: int, y: int)
      requires Valid() && IsOnBoard(x, y) && board[x][y] == 0
      modifies this
      ensures Valid() && Value() == Play(old(Value()), (x, y))
    {
      hide AllSandwiched, IsBoard, Flipped, PutAll, Count;
      BoardSize(board, size);
      MoveExact(board, size, justMoved, x, y);
      var m := GetAllSandwichedCounters(x, y);
      ghost var b, jm := board, justMoved;
      justMoved := 3 - justMoved;
      board := Put(board, (x, y), justMoved);
      PutNone(board, justMoved);
      for i := 0 to |m|
        invariant board == PutAll(Put(b, (x, y), 3 - jm), m[..i], 3 - jm) && justMoved == 3 - jm
      {
        PutNext(Put(b, (x, y), 3 - jm), m, i, 3 - jm);
        board := Put(board, m[i], justMoved);
      }
      assert m[..|m|] == m;
    }
  }

  lemma NoneAdjacent(b: Board, jm: Turn, x: int, y: int)
    ensures Adjacent(b, jm, x, y, []) == []
  {
  }

  lemma AdjacentStep(b: Board, jm: Turn, x: int, y: int, ds: seq<Square>, i: nat)
    requires i < |ds|
    ensures Adjacent(b, jm, x, y, ds[..i + 1])
         == Adjacent(b, jm, x, y, ds[..i]) + if Neighbour(b, x, y, ds[i]) == jm then [ds[i]] else []
  {
    assert ds[..i + 1][..i] == ds[..i];
  }

  lemma RunStep(b: Board, jm: Turn, x: int, y: int, d: Square, k: nat)
    requires k < |b| && At(b, Along(x, d.0, k + 1), Along(y, d.1, k + 1)) == jm
    ensures RunLength(b, jm, x, y, d, k) == RunLength(b, jm, x, y, d, k + 1)
  {
  }

  lemma RunEnd(b: Board, jm: Turn, x: int, y: int, d: Square, k: nat)
    requires k >= |b| || At(b, Along(x, d.0, k + 1), Along(y, d.1, k + 1)) != jm
    ensures RunLength(b, jm, x, y, d, k) == k
  {
  }

  lemma NoCells(x: int, y: int, d: Square)
    ensures RayCells(x, y, d, 0) == []
  {
  }

  lemma RayStep(x: int, y: int, d: Square, k: nat)
    ensures RayCells(x, y, d, k + 1) == RayCells(x, y, d, k) + [(Along(x, d.0, k + 1), Along(y, d.1, k + 1))]
  {
  }

  lemma NoMoves(b: Board, jm: Turn, n: nat)
    ensures MovesTo(b, jm, 0, n) == []
  {
  }

  lemma NextRow(b: Board, jm: Turn, x: nat, n: nat)
    ensures MovesTo(b, jm, x + 1, n) == MovesTo(b, jm, x, n) + RowMoves(b, jm, x, n)
  {
  }

  lemma NoRowMoves(b: Board, jm: Turn, x: int)
    ensures RowMoves(b, jm, x, 0) == []
  {
  }

  lemma RowStep(b: Board, jm: Turn, x: int, y: nat)
    ensures RowMoves(b, jm, x, y + 1) == RowMoves(b, jm, x, y) + if Legal(b, jm, x, y) then [(x, y)] else []
  {
  }

  lemma PutNone(b: Board, v: int)
    ensures PutAll(b, [], v) == b
  {
  }

  lemma PutNext(b: Board, ss: seq<Square>, i: nat, v: int)
    requires i < |ss|
    ensures PutAll(b, ss[..i + 1], v) == Put(PutAll(b, ss[..i], v), ss[i], v)
  {
    assert ss[..i + 1][..i] == ss[..i];
  }

  lemma BoardSize(b: Board, n: nat)
    requires IsBoard(b, n)
    ensures |b| == n && forall x | 0 <= x < n :: |b[x]| == n
  {
  }

  lemma EmptyRow(b: Board, n: nat)
    ensures Count(b + [seq(n, i => 0)], 1) == Count(b, 1) && Count(b + [seq(n, i => 0)], 2) == Count(b, 2)
  {
    var c := b + [seq(n, i => 0)];
    assert c[..|b|] == b;
  }

  method EmptyBoard(n: nat) returns (b: Board)
    ensures IsBoard(b, n) && Count(b, 1) == 0 && Count(b, 2) == 0
    ensures forall x, y | 0 <= x < n && 0 <= y < n :: At(b, x, y) == 0
  {
    b := [];
    for y := 0 to n
      invariant |b| == y && forall x | 0 <= x < y :: b[x] == seq(n, i => 0)
      invariant Count(b, 1) == 0 && Count(b, 2) == 0
    {
      EmptyRow(b, n);
      b := b + [seq(n, i => 0)];
    }
  }

  /** Sets one cell of a fresh board. */
  method Place(b: Board, n: nat, s: Square, v: int) returns (b': Board)
    requires IsBoard(b, n) && At(b, s.0, s.1) == 0 && 1 <= v <= 2
    ensures IsBoard(b', n) && forall x, y :: At(b', x, y) == if (x, y) == s then v else At(b, x, y)
    ensures forall w | 1 <= w <= 2 :: Count(b', w) == Count(b, w) + if w == v then 1 else 0
  {
    hide Count;
    b' := b[s.0 := b[s.0][s.1 := v]];
    CountPut(b, s, v, 1);
    CountPut(b, s, v, 2);
  }
}
