/** Othello on a square board: which counters a move flips, and what a move does to the counts. */
module OthelloRules {
  import opened Lists
  import opened TurnGames

  /** Rows of cells: 0 is empty, 1 and 2 are the players. */
  type Board = seq<seq<int>>

  type Square = (int, int)

  ghost predicate IsBoard(b: Board, n: nat) {
    |b| == n && forall x | 0 <= x < n :: |b[x]| == n && forall y | 0 <= y < n :: 0 <= b[x][y] <= 2
  }

  /** The cell at a square, or -1 off the board. */
  function At(b: Board, x: int, y: int): int {
    if 0 <= x < |b| && 0 <= y < |b[x]| then b[x][y] else -1
  }

  /** `c` after `k` steps of `d`. */
  function Along(c: int, d: int, k: int): int {
    if d == 0 then c else if d > 0 then c + k else c - k
  }

  const DIRECTIONS: seq<Square> := [(0, 1), (1, 1), (1, 0), (1, -1), (0, -1), (-1, -1), (-1, 0), (-1, 1)]

  ghost predicate IsDirection(d: Square) {
    -1 <= d.0 <= 1 && -1 <= d.1 <= 1 && d != (0, 0)
  }

  /** The eight directions are listed, each once. */
  lemma DirectionsComplete(d: Square)
    ensures d in DIRECTIONS <==> IsDirection(d)
    ensures forall i, j | 0 <= i < j < |DIRECTIONS| :: DIRECTIONS[i] != DIRECTIONS[j]
  {
    if IsDirection(d) {
      assert d == DIRECTIONS[0] || d == DIRECTIONS[1] || d == DIRECTIONS[2] || d == DIRECTIONS[3]
          || d == DIRECTIONS[4] || d == DIRECTIONS[5] || d == DIRECTIONS[6] || d == DIRECTIONS[7];
    }
  }

  // ----- The rule: bracketed runs in all eight directions

  /** `l` counters of the player who just moved, then one of the player to move. */
  ghost predicate Bracket(b: Board, jm: Turn, x: int, y: int, d: Square, l: int) {
    && l >= 1 && (forall i | 1 <= i <= l :: At(b, Along(x, d.0, i), Along(y, d.1, i)) == jm)
    && At(b, Along(x, d.0, l + 1), Along(y, d.1, l + 1)) == 3 - jm
  }

  ghost predicate OnRay(x: int, y: int, d: Square, l: int, s: Square) {
    exists i :: 1 <= i <= l && s == (Along(x, d.0, i), Along(y, d.1, i))
  }

  /** Square `s` is flipped by a move to `(x, y)`. */
  ghost predicate Flipped(b: Board, jm: Turn, x: int, y: int, s: Square) {
    exists d, l :: IsDirection(d) && Bracket(b, jm, x, y, d, l) && OnRay(x, y, d, l, s)
  }

  /** A square determines the direction and the distance in which it lies. */
  lemma RaysAreDisjoint(x: int, y: int, d: Square, e: Square, i: int, j: int)
    requires IsDirection(d) && IsDirection(e) && i >= 1 && j >= 1
    requires Along(x, d.0, i) == Along(x, e.0, j) && Along(y, d.1, i) == Along(y, e.1, j)
    ensures d == e && i == j
  {
  }

  // ----- What the program computes

  function Neighbour(b: Board, x: int, y: int, d: Square): int {
    At(b, x + d.0, y + d.1)
  }

  /** `AdjacentEnemyDirections` among the given directions. */
  function Adjacent(b: Board, jm: Turn, x: int, y: int, ds: seq<Square>): seq<Square> {
    if ds == [] then [] else
      var d := ds[|ds| - 1];
      Adjacent(b, jm, x, y, ds[..|ds| - 1]) + if Neighbour(b, x, y, d) == jm then [d] else []
  }

  lemma {:induction false} AdjacentOnes(b: Board, jm: Turn, x: int, y: int, ds: seq<Square>)
    requires NoRepeats(ds)
    ensures forall d :: d in Adjacent(b, jm, x, y, ds) <==> d in ds && Neighbour(b, x, y, d) == jm
    ensures NoRepeats(Adjacent(b, jm, x, y, ds))
  {
    if ds != [] {
      var rest, d := ds[..|ds| - 1], ds[|ds| - 1];
      assert ds == rest + [d];
      AdjacentOnes(b, jm, x, y, rest);
    }
  }

  /** How far the counters of the player who just moved go, from step `k` on. */
  function RunLength(b: Board, jm: Turn, x: int, y: int, d: Square, k: nat): (l: nat)
    ensures l >= k && forall i | k < i <= l :: At(b, Along(x, d.0, i), Along(y, d.1, i)) == jm
    ensures k <= |b| ==> l <= |b|
    ensures l < |b| ==> At(b, Along(x, d.0, l + 1), Along(y, d.1, l + 1)) != jm
    decreases |b| - k
  {
    if k < |b| && At(b, Along(x, d.0, k + 1), Along(y, d.1, k + 1)) == jm then RunLength(b, jm, x, y, d, k + 1) else k
  }

  function RayCells(x: int, y: int, d: Square, l: nat): (r: seq<Square>)
    ensures |r| == l
  {
    seq(l, i => (Along(x, d.0, i + 1), Along(y, d.1, i + 1)))
  }

  /** `SandwichedCounters`. */
  function Sandwiched(b: Board, jm: Turn, x: int, y: int, d: Square): seq<Square> {
    var l := RunLength(b, jm, x, y, d, 0);
    if At(b, Along(x, d.0, l + 1), Along(y, d.1, l + 1)) == 3 - jm then RayCells(x, y, d, l) else []
  }

  function SandwichedIn(b: Board, jm: Turn, x: int, y: int, ds: seq<Square>): seq<Square> {
    if ds == [] then [] else SandwichedIn(b, jm, x, y, ds[..|ds| - 1]) + Sandwiched(b, jm, x, y, ds[|ds| - 1])
  }

  /** `GetAllSandwichedCounters`: only directions with an enemy next door are looked at. */
  function AllSandwiched(b: Board, jm: Turn, x: int, y: int): seq<Square> {
    SandwichedIn(b, jm, x, y, Adjacent(b, jm, x, y, DIRECTIONS))
  }

  // ----- The two agree

  lemma OffBoardAfter(b: Board, n: nat, x: int, y: int, d: Square, k: int)
    requires IsBoard(b, n) && 0 <= x < n && 0 <= y < n && IsDirection(d) && k >= n
    ensures At(b, Along(x, d.0, k), Along(y, d.1, k)) == -1
  {
  }

  /** There is a bracketed run exactly where the program finds one, and it is of that length. */
  lemma SandwichedExact(b: Board, n: nat, jm: Turn, x: int, y: int, d: Square, l: nat)
    requires IsBoard(b, n) && 0 <= x < n && 0 <= y < n && IsDirection(d)
    ensures Bracket(b, jm, x, y, d, l) <==> l >= 1 && Sandwiched(b, jm, x, y, d) == RayCells(x, y, d, l)
  {
    var r := RunLength(b, jm, x, y, d, 0);
    if r >= n { OffBoardAfter(b, n, x, y, d, r); }
    if Bracket(b, jm, x, y, d, l) {
      assert r < l ==> At(b, Along(x, d.0, r + 1), Along(y, d.1, r + 1)) == jm;
      assert l < r ==> At(b, Along(x, d.0, l + 1), Along(y, d.1, l + 1)) == jm;
    }
  }

  lemma RayMember(x: int, y: int, d: Square, l: nat, s: Square)
    ensures s in RayCells(x, y, d, l) <==> OnRay(x, y, d, l, s)
  {
    if OnRay(x, y, d, l, s) {
      var i :| 1 <= i <= l && s == (Along(x, d.0, i), Along(y, d.1, i));
      assert RayCells(x, y, d, l)[i - 1] == s;
    }
  }

  lemma SandwichedMember(b: Board, n: nat, jm: Turn, x: int, y: int, d: Square, s: Square)
    requires IsBoard(b, n) && 0 <= x < n && 0 <= y < n && IsDirection(d)
    ensures s in Sandwiched(b, jm, x, y, d) <==> exists l :: Bracket(b, jm, x, y, d, l) && OnRay(x, y, d, l, s)
  {
    hide Bracket, OnRay, RunLength, RayCells;
    if s in Sandwiched(b, jm, x, y, d) {
      var l := RunLength(b, jm, x, y, d, 0);
      assert |RayCells(x, y, d, l)| > 0;
      SandwichedExact(b, n, jm, x, y, d, l);
      RayMember(x, y, d, l, s);
    }
    if l :| Bracket(b, jm, x, y, d, l) && OnRay(x, y, d, l, s) {
      BracketLength(b, jm, x, y, d, l);
      SandwichedExact(b, n, jm, x, y, d, l);
      RayMember(x, y, d, l, s);
    }
  }

  lemma BracketLength(b: Board, jm: Turn, x: int, y: int, d: Square, l: int)
    requires Bracket(b, jm, x, y, d, l)
    ensures l >= 1
  {
  }

  lemma {:induction false} InMember(b: Board, jm: Turn, x: int, y: int, ds: seq<Square>, s: Square)
    ensures s in SandwichedIn(b, jm, x, y, ds) <==> exists d :: d in ds && s in Sandwiched(b, jm, x, y, d)
  {
    hide Sandwiched;
    if ds != [] {
      var rest := ds[..|ds| - 1];
      assert ds == rest + [ds[|ds| - 1]];
      InMember(b, jm, x, y, rest, s);
      assert forall d :: d in ds <==> d in rest || d == ds[|ds| - 1];
    }
  }

  /** Where a run is bracketed, its first counter lies next door. */
  lemma BracketStartsNextDoor(b: Board, jm: Turn, x: int, y: int, d: Square, l: int)
    requires IsDirection(d) && Bracket(b, jm, x, y, d, l)
    ensures Neighbour(b, x, y, d) == jm
  {
    assert At(b, Along(x, d.0, 1), Along(y, d.1, 1)) == jm;
  }

  /** The prefilter loses nothing: the program finds the counters bracketed in any direction. */
  lemma AllSandwichedExact(b: Board, n: nat, jm: Turn, x: int, y: int, s: Square)
    requires IsBoard(b, n) && 0 <= x < n && 0 <= y < n
    ensures s in AllSandwiched(b, jm, x, y) <==> Flipped(b, jm, x, y, s)
  {
    hide Sandwiched, Bracket, OnRay, Adjacent;
    var ds := Adjacent(b, jm, x, y, DIRECTIONS);
    AdjacentExact(b, jm, x, y);
    InMember(b, jm, x, y, ds, s);
    if s in AllSandwiched(b, jm, x, y) {
      var d :| d in ds && s in Sandwiched(b, jm, x, y, d);
      SandwichedMember(b, n, jm, x, y, d, s);
    }
    if d, l :| IsDirection(d) && Bracket(b, jm, x, y, d, l) && OnRay(x, y, d, l, s) {
      BracketStartsNextDoor(b, jm, x, y, d, l);
      SandwichedMember(b, n, jm, x, y, d, s);
    }
  }

  lemma AdjacentExact(b: Board, jm: Turn, x: int, y: int)
    ensures forall d :: d in Adjacent(b, jm, x, y, DIRECTIONS) <==> IsDirection(d) && Neighbour(b, x, y, d) == jm
    ensures NoRepeats(Adjacent(b, jm, x, y, DIRECTIONS))
  {
    forall d ensures d in DIRECTIONS <==> IsDirection(d) { DirectionsComplete(d); }
    DirectionsComplete((0, 1));
    AdjacentOnes(b, jm, x, y, DIRECTIONS);
  }

  lemma SandwichedOnce(b: Board, jm: Turn, x: int, y: int, d: Square)
    requires IsDirection(d)
    ensures NoRepeats(Sandwiched(b, jm, x, y, d))
    ensures forall s | s in Sandwiched(b, jm, x, y, d) ::
              At(b, s.0, s.1) == jm && exists i :: i >= 1 && s == (Along(x, d.0, i), Along(y, d.1, i))
  {
  }

  /** No counter is listed twice: runs in different directions share no square. */
  lemma {:induction false} InOnce(b: Board, jm: Turn, x: int, y: int, ds: seq<Square>)
    requires (forall d | d in ds :: IsDirection(d)) && NoRepeats(ds)
    ensures NoRepeats(SandwichedIn(b, jm, x, y, ds))
    ensures forall s | s in SandwichedIn(b, jm, x, y, ds) :: At(b, s.0, s.1) == jm
  {
    hide Sandwiched, At;
    if ds != [] {
      var rest, d := ds[..|ds| - 1], ds[|ds| - 1];
      assert ds == rest + [d];
      InOnce(b, jm, x, y, rest);
      SandwichedOnce(b, jm, x, y, d);
      var p, q := SandwichedIn(b, jm, x, y, rest), Sandwiched(b, jm, x, y, d);
      forall i, j | 0 <= i < |p| && 0 <= j < |q| ensures p[i] != q[j] {
        InMember(b, jm, x, y, rest, p[i]);
        var e :| e in rest && p[i] in Sandwiched(b, jm, x, y, e);
        SandwichedApart(b, jm, x, y, d, e, q[j], p[i]);
      }
    }
  }

  lemma SandwichedApart(b: Board, jm: Turn, x: int, y: int, d: Square, e: Square, s: Square, t: Square)
    requires IsDirection(d) && IsDirection(e) && d != e && s in Sandwiched(b, jm, x, y, d)
    requires t in Sandwiched(b, jm, x, y, e)
    ensures s != t
  {
    hide Sandwiched, At, Along;
    SandwichedOnce(b, jm, x, y, d);
    SandwichedOnce(b, jm, x, y, e);
    var i :| i >= 1 && s == (Along(x, d.0, i), Along(y, d.1, i));
    var j :| j >= 1 && t == (Along(x, e.0, j), Along(y, e.1, j));
    if s == t { RaysAreDisjoint(x, y, d, e, i, j); }
  }

  lemma AllSandwichedOnce(b: Board, jm: Turn, x: int, y: int)
    ensures NoRepeats(AllSandwiched(b, jm, x, y))
    ensures forall s | s in AllSandwiched(b, jm, x, y) :: At(b, s.0, s.1) == jm
  {
    hide Adjacent, SandwichedIn, Neighbour;
    var ds := Adjacent(b, jm, x, y, DIRECTIONS);
    AdjacentExact(b, jm, x, y);
    InOnce(b, jm, x, y, ds);
  }

  // ----- Counting

  /** The number of cells that hold `v`. */
  function Count(b: Board, v: int): nat {
    if b == [] then 0 else Count(b[..|b| - 1], v) + multiset(b[|b| - 1])[v]
  }

  function Put(b: Board, s: Square, v: int): Board {
    if 0 <= s.0 < |b| && 0 <= s.1 < |b[s.0]| then b[s.0 := b[s.0][s.1 := v]] else b
  }

  function PutAll(b: Board, ss: seq<Square>, v: int): Board {
    if ss == [] then b else Put(PutAll(b, ss[..|ss| - 1], v), ss[|ss| - 1], v)
  }

  lemma {:induction false} CountPut(b: Board, s: Square, v: int, w: int)
    requires 0 <= s.0 < |b| && 0 <= s.1 < |b[s.0]|
    ensures Count(Put(b, s, v), w) == Count(b, w) - (if At(b, s.0, s.1) == w then 1 else 0) + (if v == w then 1 else 0)
  {
    var n, c := |b| - 1, Put(b, s, v);
    if s.0 < n {
      assert c[..n] == Put(b[..n], s, v);
      CountPut(b[..n], s, v, w);
    } else {
      assert c[..n] == b[..n];
      RowPut(b[n], s.1, v, w);
    }
  }

  lemma RowPut(row: seq<int>, y: nat, v: int, w: int)
    requires y < |row|
    ensures multiset(row[y := v])[w] == multiset(row)[w] - (if row[y] == w then 1 else 0) + (if v == w then 1 else 0)
  {
    assert row == row[..y] + [row[y]] + row[y + 1..];
    assert row[y := v] == row[..y] + [v] + row[y + 1..];
  }

  lemma PutAt(b: Board, n: nat, s: Square, v: int)
    requires IsBoard(b, n) && At(b, s.0, s.1) != -1 && 0 <= v <= 2
    ensures IsBoard(Put(b, s, v), n) && 0 <= s.0 < |b| && 0 <= s.1 < |b[s.0]|
    ensures forall x, y :: At(Put(b, s, v), x, y) == if (x, y) == s then v else At(b, x, y)
  {
  }

  lemma {:induction false} PutAllAt(b: Board, n: nat, ss: seq<Square>, v: int)
    requires IsBoard(b, n) && 0 <= v <= 2 && forall i | 0 <= i < |ss| :: At(b, ss[i].0, ss[i].1) != -1
    ensures IsBoard(PutAll(b, ss, v), n)
    ensures forall x, y :: At(PutAll(b, ss, v), x, y) == if (x, y) in ss then v else At(b, x, y)
  {
    hide IsBoard, Put, At;
    if ss != [] {
      var rest, s := ss[..|ss| - 1], ss[|ss| - 1];
      assert ss == rest + [s];
      PutAllAt(b, n, rest, v);
      PutAt(PutAll(b, rest, v), n, s, v);
    }
  }

  /** Turning counters of `w` into counters of `v` moves them from one count to the other. */
  lemma {:induction false} PutAllCounts(b: Board, n: nat, ss: seq<Square>, v: int, w: int, u: int)
    requires IsBoard(b, n) && 0 <= v <= 2 && 0 <= w && v != w && NoRepeats(ss)
    requires forall i | 0 <= i < |ss| :: At(b, ss[i].0, ss[i].1) == w
    ensures Count(PutAll(b, ss, v), u) == Count(b, u) + (if u == v then |ss| else if u == w then -|ss| else 0)
  {
    hide IsBoard, Put, At, Count;
    if ss != [] {
      var rest, s := ss[..|ss| - 1], ss[|ss| - 1];
      PutAllAt(b, n, rest, v);
      PutAllCounts(b, n, rest, v, w, u);
      PutAt(PutAll(b, rest, v), n, s, v);
      CountPut(PutAll(b, rest, v), s, v, u);
    }
  }

  // ----- A move

  /** `DoMove` on the board. */
  function Next(b: Board, jm: Turn, x: int, y: int): Board {
    PutAll(Put(b, (x, y), 3 - jm), AllSandwiched(b, jm, x, y), 3 - jm)
  }

  /** A move fills its square and flips exactly the bracketed counters; nothing else changes. */
  lemma MoveExact(b: Board, n: nat, jm: Turn, x: int, y: int)
    requires IsBoard(b, n) && At(b, x, y) == 0
    ensures IsBoard(Next(b, jm, x, y), n)
    ensures forall a, c :: At(Next(b, jm, x, y), a, c) ==
              if (a, c) == (x, y) || Flipped(b, jm, x, y, (a, c)) then 3 - jm else At(b, a, c)
  {
    hide AllSandwiched, Flipped, Put, PutAll;
    OnBoard(b, n, x, y);
    PutAt(b, n, (x, y), 3 - jm);
    AllSandwichedOnce(b, jm, x, y);
    var ss := AllSandwiched(b, jm, x, y);
    assert forall i | 0 <= i < |ss| :: ss[i] in ss;
    PutAllAt(Put(b, (x, y), 3 - jm), n, ss, 3 - jm);
    forall s ensures s in ss <==> Flipped(b, jm, x, y, s) { AllSandwichedExact(b, n, jm, x, y, s); }
  }

  lemma OnBoard(b: Board, n: nat, x: int, y: int)
    requires IsBoard(b, n) && At(b, x, y) != -1
    ensures 0 <= x < n && 0 <= y < n
  {
  }

  /** One square is filled, and as many counters as are flipped change hands. */
  lemma MoveCounts(b: Board, n: nat, jm: Turn, x: int, y: int)
    requires IsBoard(b, n) && At(b, x, y) == 0
    ensures var b', k := Next(b, jm, x, y), |AllSandwiched(b, jm, x, y)|;
            && Count(b', 0) == Count(b, 0) - 1
            && Count(b', 3 - jm) == Count(b, 3 - jm) + 1 + k
            && Count(b', jm) == Count(b, jm) - k
  {
    hide AllSandwiched, Put, PutAll, Count, IsBoard, At;
    PutAt(b, n, (x, y), 3 - jm);
    AllSandwichedOnce(b, jm, x, y);
    var ss, c := AllSandwiched(b, jm, x, y), Put(b, (x, y), 3 - jm);
    assert forall i | 0 <= i < |ss| :: ss[i] in ss;
    forall u | 0 <= u <= 2
      ensures Count(PutAll(c, ss, 3 - jm), u)
           == Count(b, u) + (if u == 3 - jm then 1 + |ss| else if u == 0 then -1 else -|ss|)
    {
      CountPut(b, (x, y), 3 - jm, u);
      PutAllCounts(c, n, ss, 3 - jm, jm, u);
    }
  }

  // ----- The game

  predicate Legal(b: Board, jm: Turn, x: int, y: int) {
    At(b, x, y) == 0 && AllSandwiched(b, jm, x, y) != []
  }

  /** A move is legal exactly if its square is empty and it flips something. */
  lemma LegalExact(b: Board, n: nat, jm: Turn, x: int, y: int)
    requires IsBoard(b, n)
    ensures Legal(b, jm, x, y) <==> At(b, x, y) == 0 && exists s :: Flipped(b, jm, x, y, s)
  {
    hide AllSandwiched, Flipped, At;
    if At(b, x, y) == 0 {
      OnBoard(b, n, x, y);
      forall s ensures s in AllSandwiched(b, jm, x, y) <==> Flipped(b, jm, x, y, s) {
        AllSandwichedExact(b, n, jm, x, y, s);
      }
      if AllSandwiched(b, jm, x, y) != [] { assert AllSandwiched(b, jm, x, y)[0] in AllSandwiched(b, jm, x, y); }
    }
  }

  function RowMoves(b: Board, jm: Turn, x: int, y: nat): (r: seq<Square>)
    ensures forall s :: s in r <==> s.0 == x && 0 <= s.1 < y && Legal(b, jm, s.0, s.1)
    ensures NoRepeats(r)
  {
    hide Legal;
    if y == 0 then [] else
      var here := if Legal(b, jm, x, y - 1) then [(x, y - 1)] else [];
      JoinNoRepeats(RowMoves(b, jm, x, y - 1), here);
      RowMoves(b, jm, x, y - 1) + here
  }

  function MovesTo(b: Board, jm: Turn, x: nat, n: nat): (r: seq<Square>)
    ensures forall s :: s in r <==> 0 <= s.0 < x && 0 <= s.1 < n && Legal(b, jm, s.0, s.1)
    ensures NoRepeats(r)
  {
    hide Legal;
    if x == 0 then [] else
      JoinNoRepeats(MovesTo(b, jm, x - 1, n), RowMoves(b, jm, x - 1, n));
      MovesTo(b, jm, x - 1, n) + RowMoves(b, jm, x - 1, n)
  }

  datatype Position = Position(board: Board, size: nat, justMoved: Turn)

  type Othello = s: Position | IsBoard(s.board, s.size) witness Position([], 0, 1)

  /** `GetMoves`. */
  function Moves(s: Othello): (r: seq<Square>)
    ensures forall m :: m in r <==> Legal(s.board, s.justMoved, m.0, m.1)
    ensures NoRepeats(r)
  {
    hide Legal, IsBoard;
    assert forall m: Square | Legal(s.board, s.justMoved, m.0, m.1) :: 0 <= m.0 < s.size && 0 <= m.1 < s.size by {
      forall m: Square | Legal(s.board, s.justMoved, m.0, m.1) ensures 0 <= m.0 < s.size && 0 <= m.1 < s.size {
        LegalOnBoard(s.board, s.size, s.justMoved, m.0, m.1);
      }
    }
    MovesTo(s.board, s.justMoved, s.size, s.size)
  }

  ghost predicate Ascending(r: seq<Square>) {
    forall i, j | 0 <= i < j < |r| :: r[i].0 < r[j].0 || (r[i].0 == r[j].0 && r[i].1 < r[j].1)
  }

  lemma AscendingJoin(p: seq<Square>, q: seq<Square>)
    requires Ascending(p) && Ascending(q)
    requires forall s, t | s in p && t in q :: s.0 < t.0 || (s.0 == t.0 && s.1 < t.1)
    ensures Ascending(p + q)
  {
    forall i, j | 0 <= i < |p| && 0 <= j < |q| ensures p[i].0 < q[j].0 || (p[i].0 == q[j].0 && p[i].1 < q[j].1) {
      assert p[i] in p && q[j] in q;
    }
  }

  lemma {:induction false} RowAscends(b: Board, jm: Turn, x: int, y: nat)
    ensures Ascending(RowMoves(b, jm, x, y))
  {
    hide Legal, Ascending;
    if y == 0 {
      AscendingNone();
    } else {
      RowAscends(b, jm, x, y - 1);
      AscendingOne((x, y - 1));
      AscendingNone();
      AscendingJoin(RowMoves(b, jm, x, y - 1), if Legal(b, jm, x, y - 1) then [(x, y - 1)] else []);
    }
  }

  lemma AscendingNone()
    ensures Ascending([])
  {
  }

  lemma AscendingOne(s: Square)
    ensures Ascending([s])
  {
  }

  /** The moves are listed row by row, and in each row from column to column. */
  lemma {:induction false} MovesAscend(b: Board, jm: Turn, x: nat, n: nat)
    ensures Ascending(MovesTo(b, jm, x, n))
  {
    hide Legal, Ascending;
    if x == 0 {
      AscendingNone();
    } else {
      MovesAscend(b, jm, x - 1, n);
      RowAscends(b, jm, x - 1, n);
      AscendingJoin(MovesTo(b, jm, x - 1, n), RowMoves(b, jm, x - 1, n));
    }
  }

  lemma LegalOnBoard(b: Board, n: nat, jm: Turn, x: int, y: int)
    requires IsBoard(b, n) && Legal(b, jm, x, y)
    ensures 0 <= x < n && 0 <= y < n
  {
    hide AllSandwiched;
  }

  /** `DoMove`; a square that is not empty is refused. */
  function Play(s: Othello, m: Square): Othello {
    if At(s.board, m.0, m.1) == 0
    then MoveExact(s.board, s.size, s.justMoved, m.0, m.1);
         Position(Next(s.board, s.justMoved, m.0, m.1), s.size, 3 - s.justMoved)
    else s
  }

  /** `GetResult`: who has more counters. */
  function Result(s: Othello, p: Turn): real {
    var mine, theirs := Count(s.board, p), Count(s.board, 3 - p);
    if mine > theirs then 1.0 else if theirs > mine then 0.0 else 0.5
  }

  /** More counters are a win, fewer a loss, and as many a draw. */
  lemma ResultExact(s: Othello, p: Turn)
    ensures Result(s, p) == 1.0 <==> Count(s.board, p) > Count(s.board, 3 - p)
    ensures Result(s, p) == 0.0 <==> Count(s.board, p) < Count(s.board, 3 - p)
    ensures Result(s, p) == 0.5 <==> Count(s.board, p) == Count(s.board, 3 - p)
  {
    hide Count;
  }

  function OthelloGame(): Game<Othello, Square> {
    Game(Moves, Play, (s: Othello) => s.justMoved, Result, (s: Othello) => Count(s.board, 0))
  }

  /** Players take turns, every move fills a square, and the results of the players sum to one. */
  lemma OthelloIsFair()
    ensures TakeTurns(OthelloGame()) && ResultsSumToOne(OthelloGame())
  {
    hide Next, Moves, Count, IsBoard, AllSandwiched;
    var g := OthelloGame();
    forall s: Othello, m | m in g.moves(s)
      ensures g.justMoved(g.next(s, m)) == 3 - g.justMoved(s) && g.rank(g.next(s, m)) < g.rank(s)
    {
      MoveCounts(s.board, s.size, s.justMoved, m.0, m.1);
    }
  }

  // ----- Whole games

  lemma {:induction false} CountsAddUp(b: Board, n: nat)
    requires forall x | 0 <= x < |b| :: |b[x]| == n && forall y | 0 <= y < n :: 0 <= b[x][y] <= 2
    ensures Count(b, 0) + Count(b, 1) + Count(b, 2) == |b| * n
  {
    if b != [] {
      CountsAddUp(b[..|b| - 1], n);
      RowAddsUp(b[|b| - 1]);
      OneMoreRow(|b|, n);
    }
  }

  lemma OneMoreRow(k: int, n: int)
    ensures (k - 1) * n + n == k * n
  {
  }

  lemma {:induction false} RowAddsUp(row: seq<int>)
    requires forall y | 0 <= y < |row| :: 0 <= row[y] <= 2
    ensures multiset(row)[0] + multiset(row)[1] + multiset(row)[2] == |row|
  {
    if row != [] {
      var rest := row[..|row| - 1];
      assert row == rest + [row[|row| - 1]];
      RowAddsUp(rest);
    }
  }

  ghost predicate Follows(s: Othello, t: Othello) {
    exists m :: m in Moves(s) && t == Play(s, m)
  }

  ghost predicate IsPlay(states: seq<Othello>) {
    |states| > 0 && forall i | 0 <= i < |states| - 1 :: Follows(states[i], states[i + 1])
  }

  lemma StepFills(s: Othello, t: Othello)
    requires Follows(s, t)
    ensures Count(t.board, 0) == Count(s.board, 0) - 1
  {
    hide Moves, Count, Next, AllSandwiched, IsBoard, At;
    var m :| m in Moves(s) && t == Play(s, m);
    MoveCounts(s.board, s.size, s.justMoved, m.0, m.1);
  }

  lemma SpaceBound(s: Othello)
    ensures Count(s.board, 0) <= s.size * s.size
  {
    CountsAddUp(s.board, s.size);
  }

  /** Every move of a play fills one square, so no play is longer than the board has squares. */
  lemma {:induction false} PlaysAreShort(states: seq<Othello>)
    requires IsPlay(states)
    ensures Count(states[|states| - 1].board, 0) + |states| - 1 == Count(states[0].board, 0)
    ensures |states| - 1 <= states[0].size * states[0].size
  {
    hide Follows, Count, IsBoard;
    var k := |states| - 1;
    SpaceBound(states[0]);
    if k > 0 {
      PlaysAreShort(states[..k]);
      assert Follows(states[k - 1], states[k - 1 + 1]);
      StepFills(states[k - 1], states[k]);
    }
  }
}
