/** The number of discs on a Connect Four board and its hash from scratch, each a sum over all places. */
module ConnectFourTotals {
  import opened Players
  import opened ConnectFourRules
  import opened Words

  type Keys<!W> = (Player, int, int) -> W

  function RowCount(row: seq<Player>): (n: nat)
    ensures n <= |row|
  {
    if row == [] then 0
    else RowCount(row[..|row| - 1]) + if row[|row| - 1].Occupied() then 1 else 0
  }

  function Count(b: Board): nat {
    if b == [] then 0 else Count(b[..|b| - 1]) + RowCount(b[|b| - 1])
  }

  /** Mixes the keys of all discs of a row into `h`. */
  function RowHash<W>(mix: Mixer<W>, key: Keys<W>, row: seq<Player>, r: int, h: W): W {
    if row == [] then h
    else
      var c := |row| - 1;
      var h' := RowHash(mix, key, row[..c], r, h);
      if row[c].Occupied() then mix(h', key(row[c], r, c)) else h'
  }

  function Hash<W>(mix: Mixer<W>, key: Keys<W>, b: Board, h: W): W {
    if b == [] then h else RowHash(mix, key, b[|b| - 1], |b| - 1, Hash(mix, key, b[..|b| - 1], h))
  }

  lemma {:induction false} RowCountPut(row: seq<Player>, c: nat, p: Player)
    requires c < |row| && !row[c].Occupied() && p.Occupied()
    ensures RowCount(row[c := p]) == RowCount(row) + 1
  {
    var l := |row| - 1;
    if c == l {
      assert row[c := p][..l] == row[..l];
    } else {
      assert row[c := p][..l] == row[..l][c := p];
      RowCountPut(row[..l], c, p);
    }
  }

  lemma {:induction false} RowHashMix<W(!new)>(mix: Mixer<W>, key: Keys<W>, row: seq<Player>, r: int, h: W, k: W)
    requires IsXor(mix)
    ensures RowHash(mix, key, row, r, mix(h, k)) == mix(RowHash(mix, key, row, r, h), k)
  {
    if row != [] {
      RowHashMix(mix, key, row[..|row| - 1], r, h, k);
    }
  }

  lemma {:induction false} RowHashPut<W(!new)>(mix: Mixer<W>, key: Keys<W>, row: seq<Player>, r: int, c: nat, p: Player,
                                               h: W)
    requires IsXor(mix) && c < |row| && !row[c].Occupied() && p.Occupied()
    ensures RowHash(mix, key, row[c := p], r, h) == mix(RowHash(mix, key, row, r, h), key(p, r, c))
  {
    var l := |row| - 1;
    if c == l {
      assert row[c := p][..l] == row[..l];
    } else {
      assert row[c := p][..l] == row[..l][c := p];
      RowHashPut(mix, key, row[..l], r, c, p, h);
    }
  }

  /** One more disc adds one to the count. */
  lemma {:induction false} CountPut(b: Board, r: nat, c: nat, p: Player)
    requires r < |b| && c < |b[r]| && !b[r][c].Occupied() && p.Occupied()
    ensures Count(Put(b, r, c, p)) == Count(b) + 1
  {
    var l := |b| - 1;
    if r == l {
      RowCountPut(b[r], c, p);
      assert Put(b, r, c, p)[..l] == b[..l];
    } else {
      assert Put(b, r, c, p)[..l] == Put(b[..l], r, c, p);
      CountPut(b[..l], r, c, p);
    }
  }

  /** One more disc mixes its own key into the hash. */
  lemma {:induction false} HashPut<W(!new)>(mix: Mixer<W>, key: Keys<W>, b: Board, r: nat, c: nat, p: Player, h: W)
    requires IsXor(mix) && r < |b| && c < |b[r]| && !b[r][c].Occupied() && p.Occupied()
    ensures Hash(mix, key, Put(b, r, c, p), h) == mix(Hash(mix, key, b, h), key(p, r, c))
  {
    var l := |b| - 1;
    if r == l {
      assert Put(b, r, c, p)[..l] == b[..l];
      RowHashPut(mix, key, b[r], r, c, p, Hash(mix, key, b[..l], h));
    } else {
      assert Put(b, r, c, p)[..l] == Put(b[..l], r, c, p);
      HashPut(mix, key, b[..l], r, c, p, h);
      RowHashMix(mix, key, b[l], l, Hash(mix, key, b[..l], h), key(p, r, c));
    }
  }

  lemma {:induction false} RowFull(row: seq<Player>)
    ensures RowCount(row) == |row| <==> forall c | 0 <= c < |row| :: row[c].Occupied()
  {
    if row != [] {
      var l := |row| - 1;
      RowFull(row[..l]);
      if forall c | 0 <= c < l :: row[..l][c].Occupied() {
        assert forall c | 0 <= c < l :: row[c] == row[..l][c];
      } else {
        var c :| 0 <= c < l && !row[..l][c].Occupied();
        assert !row[c].Occupied();
      }
    }
  }

  /** Counting the discs tells whether the board is full. */
  lemma {:induction false} FullByCount(b: Board, rows: nat, cols: nat)
    requires Sized(b, rows, cols)
    ensures Count(b) <= rows * cols
    ensures Count(b) == rows * cols <==> Full(b)
  {
    if rows > 0 {
      var l := rows - 1;
      FullByCount(b[..l], l, cols);
      RowFull(b[l]);
      assert rows * cols == l * cols + cols;
      if Full(b[..l]) && RowCount(b[l]) == cols {
        forall r, c | 0 <= r < |b| && 0 <= c < |b[r]| ensures b[r][c].Occupied() {
          if r < l { assert b[..l][r] == b[r]; }
        }
      } else if !Full(b[..l]) {
        var r, c :| 0 <= r < |b[..l]| && 0 <= c < |b[..l][r]| && !b[..l][r][c].Occupied();
        assert !b[r][c].Occupied();
      } else {
        var c :| 0 <= c < |b[l]| && !b[l][c].Occupied();
      }
    }
  }

  lemma {:induction false} EmptyTotals<W>(mix: Mixer<W>, key: Keys<W>, b: Board, rows: nat, cols: nat, h: W)
    requires Sized(b, rows, cols)
    requires forall r, c | 0 <= r < rows && 0 <= c < cols :: !b[r][c].Occupied()
    ensures Count(b) == 0 && Hash(mix, key, b, h) == h
  {
    if rows > 0 {
      EmptyTotals(mix, key, b[..rows - 1], rows - 1, cols, h);
      EmptyRow(mix, key, b[rows - 1], rows - 1, h);
    }
  }

  lemma {:induction false} EmptyRow<W>(mix: Mixer<W>, key: Keys<W>, row: seq<Player>, r: int, h: W)
    requires forall c | 0 <= c < |row| :: !row[c].Occupied()
    ensures RowCount(row) == 0 && RowHash(mix, key, row, r, h) == h
  {
    if row != [] {
      EmptyRow(mix, key, row[..|row| - 1], r, h);
    }
  }
}

/** The Connect Four state object: a board updated in place, a running hash and move counter, and a
    winner check that looks only around the last disc. */
module ConnectFourState {
  import opened Players
  import opened ConnectFourRules
  import opened ConnectFourTotals
  import opened Words

  // ----- The local check is exact

  /** Exactly `n` places of `p` follow `(r, c)` along axis `a`, forwards or backwards. */
  ghost predicate Run(b: Board, p: Player, a: Axis, r: int, c: int, forwards: bool, n: nat) {
    && (forall k | 1 <= k <= n :: Cell(b, a, r, c, Offset(forwards, k)) == p)
    && Cell(b, a, r, c, Offset(forwards, n + 1)) != p
  }

  function Offset(forwards: bool, k: int): int {
    if forwards then k else -k
  }

  /** Some line of `p` on axis `a` runs through `(r, c)`. */
  ghost predicate LineThrough(b: Board, p: Player, a: Axis, r: int, c: int) {
    exists i, j, k | 0 <= k < 4 :: Line(b, p, a, i, j) && Through(a, i, j, k, r, c)
  }

  lemma CellShift(b: Board, a: Axis, i: int, j: int, k: int, r: int, c: int, m: int)
    requires Through(a, i, j, k, r, c)
    ensures Cell(b, a, i, j, k + m) == Cell(b, a, r, c, m)
  {
  }

  lemma LineCell(b: Board, p: Player, a: Axis, i: int, j: int, n: int)
    requires Line(b, p, a, i, j) && 0 <= n < 4
    ensures Cell(b, a, i, j, n) == p
  {
    assert n == 0 || n == 1 || n == 2 || n == 3;
  }

  /** A line through a place needs three more discs between its two runs. */
  lemma LineNeedsRuns(b: Board, p: Player, a: Axis, r: int, c: int, back: nat, reach: nat)
    requires Run(b, p, a, r, c, false, back)
    requires LineThrough(b, p, a, r, c)
    requires Cell(b, a, r, c, reach + 1) != p
    ensures back + reach >= 3
  {
    var i, j, k :| 0 <= k < 4 && Line(b, p, a, i, j) && Through(a, i, j, k, r, c);
    if back < k {
      CellShift(b, a, i, j, k, r, c, -(back + 1));
      LineCell(b, p, a, i, j, k - (back + 1));
    }
    if reach + 1 <= 3 - k {
      CellShift(b, a, i, j, k, r, c, reach + 1);
      LineCell(b, p, a, i, j, k + reach + 1);
    }
  }

  /** Three more discs between the two runs of a place make a line through it. */
  lemma RunsMakeLine(b: Board, p: Player, a: Axis, r: int, c: int, back: nat, ahead: nat)
    requires Run(b, p, a, r, c, false, back) && Run(b, p, a, r, c, true, ahead)
    requires Cell(b, a, r, c, 0) == p && back + ahead >= 3
    ensures LineThrough(b, p, a, r, c)
  {
    var k := if back < 3 then back else 3;
    var (i, j) := match a
      case Horizontal => (r, c - k)
      case Vertical => (r - k, c)
      case Falling => (r - k, c - k)
      case Rising => (r + k, c - k);
    forall n | 0 <= n < 4 ensures Cell(b, a, i, j, n) == p {
      CellShift(b, a, i, j, k, r, c, n - k);
      if n < k { assert Cell(b, a, r, c, Offset(false, k - n)) == p; }
      if n > k { assert Cell(b, a, r, c, Offset(true, n - k)) == p; }
    }
    assert Line(b, p, a, i, j) && Through(a, i, j, k, r, c);
  }

  /** When one disc was added to a board without a line of its colour, its colour has a line just
      when some line runs through that disc. */
  lemma LinesRunThroughLast(b: Board, r: nat, c: nat, p: Player)
    requires r < |b| && c < |b[r]| && b[r][c] == Vacant && p.Occupied() && !HasFour(b, p)
    ensures HasFour(Put(b, r, c, p), p) <==> exists a :: LineThrough(Put(b, r, c, p), p, a, r, c)
  {
    var b' := Put(b, r, c, p);
    if HasFour(b', p) {
      var a, i, j :| Line(b', p, a, i, j);
      NewLines(b, r, c, p, p, a, i, j);
      assert LineThrough(b', p, a, r, c);
    }
  }

  class ConnectFour<W(!new)> {
    const rows: nat
    const cols: nat
    const mix: Mixer<W>
    const key: Keys<W>
    const sideKey: Player -> W
    const board: array2<Player>
    var hash: W
    var noMoves: nat
    var justMoved: Player
    var winner: Player
    var last: int

    ghost var grid: Board  // the content of `board` as a value

    ghost predicate Shaped()
      reads this, board
    {
      && board.Length0 == rows && board.Length1 == cols && 4 <= rows && 4 <= cols && rows * cols <= 255
      && Sized(grid, rows, cols)
      && forall r, c | 0 <= r < rows && 0 <= c < cols :: grid[r][c] == board[r, c]
    }

    ghost function View(): Position
      reads this
    {
      Position(grid, justMoved, winner, last)
    }

    /** The move counter is exact and the position is one that play can reach. */
    ghost predicate Valid()
      reads this, board
    {
      Shaped() && Reachable(View(), rows, cols) && noMoves == Count(grid)
    }

    /** The running hash is the hash of the board computed from scratch. */
    ghost predicate HashExact()
      requires Shaped()
      reads this, board
    {
      IsXor(mix) && hash == Hash(mix, key, grid, sideKey(Vacant))
    }

    constructor (rows: nat, cols: nat, mix: Mixer<W>, key: Keys<W>, sideKey: Player -> W, first: Player)
      requires 4 <= rows && 4 <= cols && rows * cols <= 255 && first.Occupied()
      ensures Valid() && (IsXor(mix) ==> HashExact()) && Start(View(), rows, cols) && fresh(board)
      ensures this.rows == rows && this.cols == cols
      ensures this.mix == mix && this.key == key && this.sideKey == sideKey
    {
      this.rows, this.cols, this.mix, this.key, this.sideKey := rows, cols, mix, key, sideKey;
      board := new Player[rows, cols]((r, c) => Vacant);
      grid := seq(rows, r => seq(cols, c => Vacant));
      hash, noMoves, justMoved, winner, last := sideKey(Vacant), 0, first, Invalid, -2;
      new;
      StartIsReachable(View(), rows, cols);
      EmptyTotals(mix, key, grid, rows, cols, sideKey(Vacant));
    }

    /** The length of the run of `piece` that leaves `(row, col)` along `a`. */
    method Ray(a: Axis, row: nat, col: nat, forwards: bool, piece: Player) returns (n: nat)
      requires Shaped() && row < rows && col < cols && piece.Occupied()
      ensures Run(grid, piece, a, row, col, forwards, n)
    {
      n := 0;
      var r, c := Row(a, row, Offset(forwards, 1)), Col(a, col, Offset(forwards, 1));
      while 0 <= r < rows && 0 <= c < cols && board[r, c] == piece
        invariant r == Row(a, row, Offset(forwards, n + 1)) && c == Col(a, col, Offset(forwards, n + 1))
        invariant forall k | 1 <= k <= n :: Cell(grid, a, row, col, Offset(forwards, k)) == piece
        decreases rows + cols - n
      {
        n := n + 1;
        r, c := Row(a, row, Offset(forwards, n + 1)), Col(a, col, Offset(forwards, n + 1));
      }
    }

    /** The block for one axis finds a line just when one runs through the disc at `(row, col)`. */
    ghost predicate Checked(a: Axis, row: nat, col: nat, found: bool)
      requires Shaped() && row < rows && col < cols
      reads this, board
    {
      found <==> LineThrough(grid, board[row, col], a, row, col)
    }

    method CheckHorizontal(row: nat, col: nat) returns (found: bool)
      requires Shaped() && row < rows && col < cols && board[row, col].Occupied()
      ensures Checked(Horizontal, row, col, found)
    {
      var piece, counter := board[row, col], 1;
      if col > 0 {
        var back := Ray(Horizontal, row, col, false, piece);
        counter := counter + back;
      }
      ghost var back := counter - 1;
      assert Run(grid, piece, Horizontal, row, col, false, back);
      if col < cols - 4 + counter {
        var ahead := Ray(Horizontal, row, col, true, piece);
        counter := counter + ahead;
        RunsDecide(grid, piece, Horizontal, row, col, back, ahead);
        return counter > 3;
      }
      NoRoom(grid, piece, Horizontal, row, col, back);
      return false;
    }

    /** Only downwards: nothing lies on top of the last disc. */
    method CheckVertical(row: nat, col: nat) returns (found: bool)
      requires Shaped() && row < rows && col < cols && board[row, col].Occupied()
      requires row > 0 ==> board[row - 1, col] == Vacant
      ensures Checked(Vertical, row, col, found)
    {
      var piece := board[row, col];
      assert Run(grid, piece, Vertical, row, col, false, 0) by {
        assert Cell(grid, Vertical, row, col, Offset(false, 1)) == At(grid, row - 1, col);
      }
      if row < rows - 3 {
        var counter := 1;
        var ahead := Ray(Vertical, row, col, true, piece);
        counter := counter + ahead;
        RunsDecide(grid, piece, Vertical, row, col, 0, ahead);
        return counter > 3;
      }
      NoRoom(grid, piece, Vertical, row, col, 0);
      return false;
    }

    /** North-west to south-east. */
    method CheckFalling(row: nat, col: nat) returns (found: bool)
      requires Shaped() && row < rows && col < cols && board[row, col].Occupied()
      ensures Checked(Falling, row, col, found)
    {
      var piece, counter := board[row, col], 1;
      if row > 0 && col > 0 {
        var back := Ray(Falling, row, col, false, piece);
        counter := counter + back;
      }
      ghost var back := counter - 1;
      assert Run(grid, piece, Falling, row, col, false, back);
      if row < rows - 4 + counter && col < cols - 4 + counter {
        var ahead := Ray(Falling, row, col, true, piece);
        counter := counter + ahead;
        RunsDecide(grid, piece, Falling, row, col, back, ahead);
        return counter > 3;
      }
      NoRoom(grid, piece, Falling, row, col, back);
      return false;
    }

    /** South-west to north-east. */
    method CheckRising(row: nat, col: nat) returns (found: bool)
      requires Shaped() && row < rows && col < cols && board[row, col].Occupied()
      ensures Checked(Rising, row, col, found)
    {
      var piece, counter := board[row, col], 1;
      if row < rows - 1 && col > 0 {
        var back := Ray(Rising, row, col, false, piece);
        counter := counter + back;
      }
      ghost var back := counter - 1;
      assert Run(grid, piece, Rising, row, col, false, back);
      if row + counter > 3 && col < cols - 4 + counter {
        var ahead := Ray(Rising, row, col, true, piece);
        counter := counter + ahead;
        RunsDecide(grid, piece, Rising, row, col, back, ahead);
        return counter > 3;
      }
      NoRoom(grid, piece, Rising, row, col, back);
      return false;
    }

    /** The check around the last disc, with the source's cut-offs, finds a line just when the
        whole board holds one. `before` is the board without that disc. */
    method Winner(row: nat, col: nat, ghost before: Board)
      requires Shaped() && row < rows && col < cols
      requires Sized(before, rows, cols) && before[row][col] == Vacant
      requires board[row, col].Occupied() && grid == Put(before, row, col, board[row, col])
      requires !HasFour(before, board[row, col])
      requires row > 0 ==> board[row - 1, col] == Vacant
      modifies this`winner
      ensures winner == if HasFour(grid, board[row, col]) then board[row, col]
                        else if rows * cols == noMoves then Vacant
                        else old(winner)
    {
      ghost var b := grid;
      var piece := board[row, col];
      LinesRunThroughLast(before, row, col, piece);
      var found := CheckHorizontal(row, col);
      if found { winner := piece; return; }
      found := CheckVertical(row, col);
      if found { winner := piece; return; }
      found := CheckFalling(row, col);
      if found { winner := piece; return; }
      found := CheckRising(row, col);
      if found { winner := piece; return; }
      if rows * cols == noMoves {
        winner := Vacant;
      }
    }

    /** The lowest free place of a column, searched from the bottom row upwards. */
    method LowestFree(col: nat) returns (row: nat)
      requires Shaped() && Settled(grid) && At(grid, 0, col) == Vacant
      requires forall r, c | 0 <= r < rows && 0 <= c < cols :: grid[r][c] != Invalid
      ensures row < rows && row == Fall(grid, col, 0) && board[row, col] == Vacant
    {
      row := rows - 1;
      while board[row, col].Occupied()
        invariant row < rows
        invariant forall i | row < i < rows :: board[i, col].Occupied()
        decreases row
      {
        if row == 0 { assert false; }
        row := row - 1;
      }
      ghost var b := grid;
      ghost var low := Fall(b, col, 0);
      assert b[row][col] == Vacant;
      assert At(b, low, col) == b[low][col];
      assert forall i | 0 <= i < rows :: At(b, i, col) == b[i][col];
    }

    /** A disc let into column `col`: the search runs from the bottom row upwards. */
    method Move(col: nat) returns (row: nat)
      requires Valid() && Legal(View(), col)
      modifies this`last, this`justMoved, this`noMoves, this`grid, board
      ensures Shaped() && noMoves == Count(grid) == old(noMoves) + 1
      ensures row < rows && row == Fall(old(grid), col, 0) && old(grid)[row][col] == Vacant
      ensures View() == Play(old(View()), col).(winner := old(winner))
      ensures grid == Put(old(grid), row, col, justMoved)
    {
      hide Settled, Outcome, HasFour, Count, Fall, Put;
      last := col;
      row := LowestFree(col);
      justMoved := justMoved.Opponent();
      Place(row, col);
    }

    /** The disc itself and the byte-wide move counter. */
    method Place(row: nat, col: nat)
      requires Shaped() && row < rows && col < cols && noMoves == Count(grid)
      requires !board[row, col].Occupied() && justMoved.Occupied()
      modifies this`grid, this`noMoves, board
      ensures Shaped() && grid == Put(old(grid), row, col, justMoved)
      ensures noMoves == Count(grid) == old(noMoves) + 1
    {
      CounterFits(grid, rows, cols, row, col, justMoved);
      board[row, col] := justMoved;
      grid := Put(grid, row, col, justMoved);
      noMoves := (noMoves + 1) % 256;
    }

    /** `move_hash`: the result is left as it was. */
    method MoveHash(col: nat)
      requires Valid() && Legal(View(), col)
      modifies this, board
      ensures Shaped() && noMoves == Count(grid)
      ensures View() == Play(old(View()), col).(winner := old(winner))
      ensures old(HashExact()) ==> HashExact()
    {
      ghost var before := View();
      var row := Move(col);
      hash := mix(hash, key(justMoved, row, col));
      if IsXor(mix) { HashPut(mix, key, before.board, row, col, justMoved, sideKey(Vacant)); }
    }

    /** The local check after a move completes it to a move by the rules. */
    method Judge(row: nat, col: nat, ghost before: Position)
      requires Shaped() && row < rows && col < cols && noMoves == Count(grid)
      requires Reachable(before, rows, cols) && Legal(before, col) && row == Fall(before.board, col, 0)
      requires View() == Play(before, col).(winner := before.winner)
      modifies this`winner
      ensures Valid() && View() == Play(before, col)
    {
      PlayKeepsReachable(before, col, rows, cols);
      Landed(before, col, rows, cols);
      MoverDecides(before, col, rows, cols);
      Winner(row, col, before.board);
    }

    /** `move_winner`: a move whose result comes from the local check is a move by the rules. */
    method MoveWinner(col: nat)
      requires Valid() && Legal(View(), col)
      modifies this, board
      ensures Valid() && View() == Play(old(View()), col)
      ensures noMoves == old(noMoves) + 1 && hash == old(hash)
    {
      hide Settled, Outcome, HasFour, Count, Fall, Put;
      ghost var before := View();
      var row := Move(col);
      Judge(row, col, before);
    }

    /** `move_hash_winner`. */
    method MoveHashWinner(col: nat)
      requires Valid() && Legal(View(), col)
      modifies this, board
      ensures Valid() && View() == Play(old(View()), col) && noMoves == old(noMoves) + 1
      ensures old(HashExact()) ==> HashExact()
    {
      ghost var before := View();
      var row := Move(col);
      hash := mix(hash, key(justMoved, row, col));
      if IsXor(mix) { HashPut(mix, key, before.board, row, col, justMoved, sideKey(Vacant)); }
      Judge(row, col, before);
    }

    /** The position key: the running hash with the key of the side that just moved. */
    function Zobrist(): (z: W)
      requires Shaped()
      reads this, board
      ensures HashExact() ==> z == mix(Hash(mix, key, grid, sideKey(Vacant)), sideKey(justMoved))
    {
      mix(hash, sideKey(justMoved))
    }

    /** `moves`: `ms` lists exactly the legal columns from left to right, and there is one whenever
        the game is not over. */
    method Moves() returns (more: bool, ms: seq<nat>)
      requires Valid()
      ensures more <==> winner == Invalid
      ensures more ==> ms != []
      ensures forall c: int :: Legal(View(), c) <==> c in ms
      ensures forall i, j | 0 <= i < j < |ms| :: ms[i] < ms[j]
      ensures |ms| <= cols
    {
      ms := [];
      FullByCount(grid, rows, cols);
      if rows * cols == noMoves || winner != Invalid {
        return false, [];
      }
      for col := 0 to cols
        invariant forall c: int :: c in ms <==> 0 <= c < col && At(grid, 0, c) == Vacant
        invariant forall i | 0 <= i < |ms| :: ms[i] < col
        invariant forall i, j | 0 <= i < j < |ms| :: ms[i] < ms[j]
        invariant |ms| <= col
      {
        if board[0, col] == Vacant {
          ms := ms + [col];
        }
      }
      ghost var r, c :| 0 <= r < rows && 0 <= c < cols && !grid[r][c].Occupied();
      assert grid[0][c] == At(grid, 0, c) == Vacant;
      more := true;
    }

    /** One turn of the play-out loop: generate the moves and play one of them, if there is any. */
    method RandomPly() returns (moved: bool, ghost col: int)
      requires Valid()
      modifies this, board
      ensures Valid() && hash == old(hash) && moved == (old(winner) == Invalid)
      ensures if moved then Legal(old(View()), col) && View() == Play(old(View()), col) else View() == old(View())
      ensures moved ==> noMoves == old(noMoves) + 1 <= rows * cols
    {
      var more, ms := Moves();
      moved, col := more, 0;
      if more {
        var i :| 0 <= i < |ms|;
        assert ms[i] in ms;
        MoveWinner(ms[i]);
        col := ms[i];
        FullByCount(grid, rows, cols);
      }
    }

    /** A random play-out is a game by the rules, and it ends with a result. */
    method Simulate() returns (ghost ps: seq<Position>, ghost cs: seq<int>)
      requires Valid()
      modifies this, board
      ensures Valid() && winner != Invalid && hash == old(hash)
      ensures Game(ps, cs) && ps[0] == old(View()) && ps[|cs|] == View()
      ensures |cs| <= rows * cols
    {
      ps, cs := [View()], [];
      ghost var area := rows * cols;
      var more := true;
      while more
        invariant Valid() && hash == old(hash) && (!more ==> winner != Invalid)
        invariant Game(ps, cs) && ps[0] == old(View()) && ps[|cs|] == View()
        invariant |cs| <= noMoves && |cs| <= area
        decreases more, area - noMoves
      {
        ghost var col;
        more, col := RandomPly();
        if more {
          ExtendGame(ps, cs, col);
          ps, cs := ps + [View()], cs + [col];
        }
      }
    }
  }

  /** Both runs together decide whether a line runs through a place. */
  lemma RunsDecide(b: Board, p: Player, a: Axis, r: int, c: int, back: nat, ahead: nat)
    requires Run(b, p, a, r, c, false, back) && Run(b, p, a, r, c, true, ahead) && Cell(b, a, r, c, 0) == p
    ensures LineThrough(b, p, a, r, c) <==> back + ahead >= 3
  {
    if back + ahead >= 3 {
      RunsMakeLine(b, p, a, r, c, back, ahead);
    } else if LineThrough(b, p, a, r, c) {
      assert Cell(b, a, r, c, Offset(true, ahead + 1)) != p;
      LineNeedsRuns(b, p, a, r, c, back, ahead);
    }
  }

  /** The cut-off: with `back` discs behind and the place `3 - back` steps ahead off the board, no
      line fits. */
  lemma NoRoom(b: Board, p: Player, a: Axis, r: int, c: int, back: nat)
    requires Run(b, p, a, r, c, false, back) && p.Occupied()
    requires back < 3 && Cell(b, a, r, c, 3 - back) == Invalid
    ensures !LineThrough(b, p, a, r, c)
  {
    if LineThrough(b, p, a, r, c) {
      LineNeedsRuns(b, p, a, r, c, back, 2 - back);
    }
  }

  /** The hash kept along a game by mixing in the key of each new disc. */
  function Incremental<W>(mix: Mixer<W>, key: Keys<W>, ps: seq<Position>, cs: seq<int>, h: W): W
    requires |ps| == |cs| + 1
  {
    if cs == [] then h
    else
      var n := |cs| - 1;
      mix(Incremental(mix, key, ps[..n + 1], cs[..n], h), key(ps[n + 1].justMoved, Fall(ps[n].board, cs[n], 0), cs[n]))
  }

  lemma {:induction false} IncrementalIsFromScratch<W(!new)>(mix: Mixer<W>, key: Keys<W>, ps: seq<Position>,
        cs: seq<int>, h: W, rows: nat, cols: nat)
    requires IsXor(mix) && Game(ps, cs) && Start(ps[0], rows, cols)
    ensures Incremental(mix, key, ps, cs, h) == Hash(mix, key, ps[|cs|].board, h)
  {
    if cs == [] {
      EmptyTotals(mix, key, ps[0].board, rows, cols, h);
    } else {
      var n := |cs| - 1;
      IncrementalIsFromScratch(mix, key, ps[..n + 1], cs[..n], h, rows, cols);
      HashPut(mix, key, ps[n].board, Fall(ps[n].board, cs[n], 0), cs[n], ps[n + 1].justMoved, h);
    }
  }

  lemma ExtendGame(ps: seq<Position>, cs: seq<int>, c: int)
    requires Game(ps, cs) && Legal(ps[|cs|], c)
    ensures Game(ps + [Play(ps[|cs|], c)], cs + [c])
  {
  }

  /** Two games that arrive at the same board arrive at the same hash, whatever the order of moves. */
  lemma HashForgetsMoveOrder<W(!new)>(mix: Mixer<W>, key: Keys<W>, h: W, rows: nat, cols: nat,
                                      ps: seq<Position>, cs: seq<int>, qs: seq<Position>, ds: seq<int>)
    requires IsXor(mix) && Game(ps, cs) && Game(qs, ds)
    requires Start(ps[0], rows, cols) && Start(qs[0], rows, cols) && ps[|cs|].board == qs[|ds|].board
    ensures Incremental(mix, key, ps, cs, h) == Incremental(mix, key, qs, ds, h)
  {
    IncrementalIsFromScratch(mix, key, ps, cs, h, rows, cols);
    IncrementalIsFromScratch(mix, key, qs, ds, h, rows, cols);
  }

  /** The move counter never wraps at 256. */
  lemma CounterFits(b: Board, rows: nat, cols: nat, r: nat, c: nat, p: Player)
    requires Sized(b, rows, cols) && rows * cols <= 255
    requires r < rows && c < cols && !b[r][c].Occupied() && p.Occupied()
    ensures Count(Put(b, r, c, p)) == Count(b) + 1 <= 255
  {
    CountPut(b, r, c, p);
    FullByCount(Put(b, r, c, p), rows, cols);
  }

  /** The place of the last disc: filled by the mover, free before, and open above. */
  lemma Landed(p: Position, c: int, rows: nat, cols: nat)
    requires Reachable(p, rows, cols) && Legal(p, c)
    ensures var r, b := Fall(p.board, c, 0), Play(p, c).board;
            && 0 <= c < cols && r < rows && Sized(b, rows, cols)
            && p.board[r][c] == Vacant && b[r][c] == Play(p, c).justMoved
            && (r > 0 ==> b[r - 1][c] == Vacant)
  {
    var b, r := p.board, Fall(p.board, c, 0);
    assert forall i | 0 <= i < rows :: At(b, i, c) == b[i][c];
    if r > 0 {
      assert b[r - 1][c] == Vacant;
    }
  }

  /** Only the mover can have gained a line, so the result needs no look at the other side. */
  lemma MoverDecides(p: Position, c: int, rows: nat, cols: nat)
    requires Reachable(p, rows, cols) && Legal(p, c)
    ensures !HasFour(p.board, Agent) && !HasFour(p.board, Human)
    ensures var q := Play(p, c);
            q.winner == if HasFour(q.board, q.justMoved) then q.justMoved
                        else if Count(q.board) == rows * cols then Vacant
                        else Invalid
  {
    var b, r, mover := p.board, Fall(p.board, c, 0), p.justMoved.Opponent();
    FullByCount(Put(b, r, c, mover), rows, cols);
    if HasFour(Put(b, r, c, mover), p.justMoved) {
      var a, i, j :| Line(Put(b, r, c, mover), p.justMoved, a, i, j);
      NewLines(b, r, c, mover, p.justMoved, a, i, j);
    }
  }
}
