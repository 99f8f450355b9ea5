/** Connect Four as its rule book states it: a disc falls to the lowest free place of its column, and
    the result is read off the whole board by looking for four in a row anywhere. */
module ConnectFourRules {
  import opened Players

  /** Row 0 is the top row. */
  type Board = seq<seq<Player>>

  ghost predicate Sized(b: Board, rows: nat, cols: nat) {
    |b| == rows && forall r | 0 <= r < rows :: |b[r]| == cols
  }

  /** The content of a place; everything off the board is `Invalid`. */
  function At(b: Board, r: int, c: int): Player {
    if 0 <= r < |b| && 0 <= c < |b[r]| then b[r][c] else Invalid
  }

  function Put(b: Board, r: nat, c: nat, p: Player): (b': Board)
    requires r < |b| && c < |b[r]|
    ensures |b'| == |b| && forall i | 0 <= i < |b| :: |b'[i]| == |b[i]|
    ensures forall i, j :: At(b', i, j) == if i == r && j == c then p else At(b, i, j)
  {
    b[r := b[r][c := p]]
  }

  // ----- Four in a row

  datatype Axis = Horizontal | Vertical | Falling | Rising

  /** The place `k` steps along an axis: `Falling` runs to the south-east, `Rising` to the north-east. */
  function Row(a: Axis, r: int, k: int): int {
    match a case Horizontal => r case Vertical => r + k case Falling => r + k case Rising => r - k
  }

  function Col(a: Axis, c: int, k: int): int {
    if a == Vertical then c else c + k
  }

  function Cell(b: Board, a: Axis, r: int, c: int, k: int): Player {
    At(b, Row(a, r, k), Col(a, c, k))
  }

  /** The place `k` steps along axis `a` from `(i, j)` is `(r, c)`. */
  predicate Through(a: Axis, i: int, j: int, k: int, r: int, c: int) {
    Row(a, i, k) == r && Col(a, j, k) == c
  }

  ghost predicate Line(b: Board, p: Player, a: Axis, r: int, c: int) {
    Cell(b, a, r, c, 0) == p && Cell(b, a, r, c, 1) == p && Cell(b, a, r, c, 2) == p && Cell(b, a, r, c, 3) == p
  }

  ghost predicate HasFour(b: Board, p: Player) {
    exists a, r, c :: Line(b, p, a, r, c)
  }

  /** Four discs of `p` side by side, on top of each other, or on a diagonal falling or rising to the
      right, starting at row `r` and column `c`. */
  ghost predicate FourAt(b: Board, p: Player, r: int, c: int) {
    || (At(b, r, c) == p && At(b, r, c + 1) == p && At(b, r, c + 2) == p && At(b, r, c + 3) == p)
    || (At(b, r, c) == p && At(b, r + 1, c) == p && At(b, r + 2, c) == p && At(b, r + 3, c) == p)
    || (At(b, r, c) == p && At(b, r + 1, c + 1) == p && At(b, r + 2, c + 2) == p && At(b, r + 3, c + 3) == p)
    || (At(b, r, c) == p && At(b, r - 1, c + 1) == p && At(b, r - 2, c + 2) == p && At(b, r - 3, c + 3) == p)
  }

  /** The four axes are the directions in which four in a row can lie. */
  lemma FourAnywhere(b: Board, p: Player)
    ensures HasFour(b, p) <==> exists r, c :: FourAt(b, p, r, c)
  {
    hide At;
    if r, c :| FourAt(b, p, r, c) {
      assert Line(b, p, Horizontal, r, c) || Line(b, p, Vertical, r, c)
          || Line(b, p, Falling, r, c) || Line(b, p, Rising, r, c);
    }
    if a, r, c :| Line(b, p, a, r, c) {
      assert FourAt(b, p, r, c);
    }
  }

  ghost predicate Full(b: Board) {
    forall r, c | 0 <= r < |b| && 0 <= c < |b[r]| :: b[r][c].Occupied()
  }

  /** The result of a board, found by searching all of it. */
  ghost function Outcome(b: Board): Player {
    if HasFour(b, Agent) then Agent
    else if HasFour(b, Human) then Human
    else if Full(b) then Vacant
    else Invalid
  }

  // ----- Playing

  datatype Position = Position(board: Board, justMoved: Player, winner: Player, last: int)

  /** Where a disc let go at row `r` comes to rest. */
  function Fall(b: Board, c: int, r: nat): (n: nat)
    ensures r < |b| ==> r <= n < |b|
    ensures At(b, n + 1, c) != Vacant
    ensures forall i | r < i <= n :: At(b, i, c) == Vacant
    ensures At(b, r, c) == Vacant ==> At(b, n, c) == Vacant
    decreases |b| - r
  {
    if At(b, r + 1, c) == Vacant then Fall(b, c, r + 1) else r
  }

  ghost predicate Legal(p: Position, c: int) {
    p.winner == Invalid && At(p.board, 0, c) == Vacant
  }

  /** One move by the rules. */
  ghost function Play(p: Position, c: int): Position
    requires p.justMoved.Occupied() && At(p.board, 0, c) == Vacant
  {
    var mover := p.justMoved.Opponent();
    var b := Put(p.board, Fall(p.board, c, 0), c, mover);
    Position(b, mover, Outcome(b), c)
  }

  // ----- What every reachable position satisfies

  /** No disc floats: below a disc there are only discs. */
  ghost predicate Settled(b: Board) {
    forall r, i, c | 0 <= r < i < |b| && 0 <= c < |b[r]| && 0 <= c < |b[i]| && b[r][c].Occupied() :: b[i][c].Occupied()
  }

  ghost predicate Reachable(p: Position, rows: nat, cols: nat) {
    && Sized(p.board, rows, cols)
    && (forall r, c | 0 <= r < rows && 0 <= c < cols :: p.board[r][c] != Invalid)
    && Settled(p.board)
    && p.justMoved.Occupied()
    && p.winner == Outcome(p.board)
    && !(HasFour(p.board, Agent) && HasFour(p.board, Human))
  }

  ghost predicate Start(p: Position, rows: nat, cols: nat) {
    && Sized(p.board, rows, cols)
    && (forall r, c | 0 <= r < rows && 0 <= c < cols :: p.board[r][c] == Vacant)
    && p.justMoved.Occupied() && p.winner == Invalid
  }

  /** `ps` is the record of a game: every position follows from the one before by a legal move. */
  ghost predicate Game(ps: seq<Position>, cs: seq<int>) {
    && |ps| == |cs| + 1
    && (forall i | 0 <= i < |ps| :: ps[i].justMoved.Occupied())
    && forall i | 0 <= i < |cs| :: Legal(ps[i], cs[i]) && ps[i + 1] == Play(ps[i], cs[i])
  }

  lemma StartIsReachable(p: Position, rows: nat, cols: nat)
    requires rows > 0 && cols > 0 && Start(p, rows, cols)
    ensures Reachable(p, rows, cols)
  {
    assert !p.board[0][0].Occupied();
    forall q: Player | q.Occupied()
      ensures !HasFour(p.board, q)
    {
      forall a, r, c ensures !Line(p.board, q, a, r, c) {
        assert Cell(p.board, a, r, c, 0) == At(p.board, r, c);
      }
    }
  }

  lemma CellPut(b: Board, r: nat, c: nat, p: Player, a: Axis, i: int, j: int, k: int)
    requires r < |b| && c < |b[r]|
    ensures Cell(Put(b, r, c, p), a, i, j, k) == if Through(a, i, j, k, r, c) then p else Cell(b, a, i, j, k)
  {
  }

  /** A disc creates no line for the other side, and every new line runs through it. */
  lemma NewLines(b: Board, r: nat, c: nat, p: Player, q: Player, a: Axis, i: int, j: int)
    requires r < |b| && c < |b[r]| && b[r][c] == Vacant
    requires q.Occupied() && p.Occupied() && Line(Put(b, r, c, p), q, a, i, j)
    ensures Line(b, q, a, i, j) || (p == q && exists k | 0 <= k < 4 :: Through(a, i, j, k, r, c))
  {
    if !Line(b, q, a, i, j) {
      var k :| 0 <= k < 4 && Cell(b, a, i, j, k) != q;
      assert k == 0 || k == 1 || k == 2 || k == 3;
      CellPut(b, r, c, p, a, i, j, k);
    }
  }

  /** A disc that fell to its place leaves the board settled. */
  lemma PutSettled(b: Board, rows: nat, cols: nat, c: nat, p: Player)
    requires Sized(b, rows, cols) && Settled(b) && p.Occupied() && At(b, 0, c) == Vacant
    requires forall i, j | 0 <= i < rows && 0 <= j < cols :: b[i][j] != Invalid
    ensures var b' := Put(b, Fall(b, c, 0), c, p);
            Settled(b') && Sized(b', rows, cols) && forall i, j | 0 <= i < rows && 0 <= j < cols :: b'[i][j] != Invalid
  {
    var r := Fall(b, c, 0);
    var b': Board := Put(b, r, c, p);
    assert r + 1 < rows ==> At(b, r + 1, c) == b[r + 1][c];
    PutSame(b, rows, cols, r, c, p);
    forall i, k, j | 0 <= i < k < rows && 0 <= j < cols && b'[i][j].Occupied() ensures b'[k][j].Occupied() {
      if j == c { Stacked(b, rows, cols, r, c, k); }
    }
  }

  lemma PutSame(b: Board, rows: nat, cols: nat, r: nat, c: nat, p: Player)
    requires Sized(b, rows, cols) && r < rows && c < cols
    ensures Sized(Put(b, r, c, p), rows, cols)
    ensures forall i, j | 0 <= i < rows && 0 <= j < cols ::
              Put(b, r, c, p)[i][j] == if i == r && j == c then p else b[i][j]
  {
  }

  /** Below the place where a disc comes to rest there are only discs. */
  lemma Stacked(b: Board, rows: nat, cols: nat, r: nat, c: nat, k: nat)
    requires Sized(b, rows, cols) && Settled(b) && r < k < rows && c < cols
    requires b[r + 1][c] != Vacant && forall i, j | 0 <= i < rows && 0 <= j < cols :: b[i][j] != Invalid
    ensures b[k][c].Occupied()
  {
    assert b[r + 1][c].Occupied();
  }

  /** Every legal move keeps the position well formed and its result exact. */
  lemma PlayKeepsReachable(p: Position, c: int, rows: nat, cols: nat)
    requires Reachable(p, rows, cols) && Legal(p, c)
    ensures Reachable(Play(p, c), rows, cols)
  {
    hide Settled, Put, Fall;
    var b, r, mover := p.board, Fall(p.board, c, 0), p.justMoved.Opponent();
    PutSettled(b, rows, cols, c, mover);
    var b', other := Put(b, r, c, mover), p.justMoved;
    if HasFour(b', other) {
      var a, i, j :| Line(b', other, a, i, j);
      NewLines(b, r, c, mover, other, a, i, j);
    }
  }

  /** Over every game, from any start position and after any number of legal moves, the recorded
      result is the exact one: a side has won just when it has four in a row somewhere, the game is
      drawn just when the board is full without such a line, and at most one side has a line. */
  lemma {:induction false} GameResultIsExact(ps: seq<Position>, cs: seq<int>, rows: nat, cols: nat)
    requires rows > 0 && cols > 0 && Game(ps, cs) && Start(ps[0], rows, cols)
    ensures forall i | 0 <= i < |ps| :: Reachable(ps[i], rows, cols) && ExactResult(ps[i])
  {
    StartIsReachable(ps[0], rows, cols);
    var n := 0;
    while n < |cs|
      invariant 0 <= n <= |cs|
      invariant forall i | 0 <= i <= n :: Reachable(ps[i], rows, cols)
    {
      PlayKeepsReachable(ps[n], cs[n], rows, cols);
      n := n + 1;
    }
  }

  ghost predicate ExactResult(p: Position) {
    && (p.winner == Agent <==> HasFour(p.board, Agent))
    && (p.winner == Human <==> HasFour(p.board, Human))
    && (p.winner == Vacant <==> Full(p.board) && !HasFour(p.board, Agent) && !HasFour(p.board, Human))
  }
}
