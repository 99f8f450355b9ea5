/** The hourglass board of Oska for any size `S >= 4`: its cells, their numbering and its mirror. */
module OskaBoard {
  import MultiArray

  /** A place of the bounding rectangle, column first. */
  datatype Loc = Loc(c: int, r: int)

  function Cols(S: int): int { S + (S - 1) + 2 }

  function Rows(S: int): int { 2 * (S - 2) + 1 + 2 }

  /** The row, seen by a player, that its stones have to reach. */
  function HomeRow(S: int): int { Rows(S) - 2 }

  function Hexagons(S: int): int { S * (S + 1) - 4 }

  /** First column and number of cells of a row. */
  function Left(S: int, r: int): int { if r <= S - 1 then r else 2 * S - 2 - r }

  function Width(S: int, r: int): int { if r <= S - 1 then S + 1 - r else r - S + 3 }

  /** The cells of the hourglass: every second place of each row that is not on the border. */
  predicate Hex(S: int, l: Loc) {
    && 1 <= l.r <= HomeRow(S)
    && Left(S, l.r) <= l.c < Left(S, l.r) + 2 * Width(S, l.r)
    && (l.c - Left(S, l.r)) % 2 == 0
  }

  /** The same place seen from the other side of the board. */
  function Mirror(S: int, l: Loc): Loc {
    Loc(Cols(S) - 1 - l.c, Rows(S) - 1 - l.r)
  }

  /** `at_r` of the board arrays looks at the mirrored place. */
  lemma MirrorIsReversed(S: int, l: Loc)
    requires S >= 4
    ensures var cols, rows, m := MultiArray.Dim(0, Cols(S)), MultiArray.Dim(0, Rows(S)), Mirror(S, l);
            && m == Loc(MultiArray.Flip(cols, l.c), MultiArray.Flip(rows, l.r))
            && MultiArray.MatrixAtR(cols, rows, l.c, l.r) == MultiArray.MatrixAt(cols, rows, m.c, m.r)
  {
    MultiArray.MatrixReversed(MultiArray.Dim(0, Cols(S)), MultiArray.Dim(0, Rows(S)), l.c, l.r);
  }

  /** The number of cells above row `r`. */
  function Above(S: int, r: int): (n: nat)
    requires S >= 4 && 1 <= r <= HomeRow(S) + 1
    ensures r > 1 ==> n > 0
    decreases r
  {
    if r == 1 then 0 else Above(S, r - 1) + Width(S, r - 1)
  }

  /** The number of a cell: rows from the top, cells from the left. */
  function Id(S: int, l: Loc): int
    requires S >= 4 && Hex(S, l)
  {
    Above(S, l.r) + (l.c - Left(S, l.r)) / 2
  }

  /** The cell with number `id`, looked for from row `r` on. */
  function CellFrom(S: int, id: int, r: int): (l: Loc)
    requires S >= 4 && 1 <= r <= HomeRow(S)
    requires Above(S, r) <= id < Above(S, HomeRow(S) + 1)
    ensures Hex(S, l) && Id(S, l) == id
    decreases HomeRow(S) - r
  {
    hide Above;
    NextRow(S, r);
    if id < Above(S, r + 1) then Loc(Left(S, r) + 2 * (id - Above(S, r)), r) else CellFrom(S, id, r + 1)
  }

  lemma {:induction false} AboveGrows(S: int, r: int, q: int)
    requires S >= 4 && 1 <= r <= q <= HomeRow(S) + 1
    ensures Above(S, r) <= Above(S, q)
    decreases q - r
  {
    if r < q { AboveGrows(S, r, q - 1); }
  }

  /** Rows above the waist, in closed form. */
  lemma {:induction false} AboveTop(S: int, r: int)
    requires S >= 4 && 1 <= r <= S
    ensures 2 * Above(S, r) == (r - 1) * (2 * S + 2 - r)
    decreases r
  {
    if r > 1 {
      AboveTop(S, r - 1);
      assert (r - 1) * (2 * S + 2 - r) == (r - 2) * (2 * S + 3 - r) + 2 * (S + 2 - r);
    }
  }

  /** The cells above row `r + 1` and those below the mirror of row `r` make up the whole board. */
  lemma {:induction false} AboveMirrored(S: int, r: int)
    requires S >= 4 && 0 <= r <= HomeRow(S)
    ensures Above(S, r + 1) + Above(S, Rows(S) - 1 - r) == Above(S, HomeRow(S) + 1)
    decreases r
  {
    if r > 0 {
      AboveMirrored(S, r - 1);
      assert Width(S, r) == Width(S, Rows(S) - 1 - r);
    }
  }

  /** The two fill loops number exactly `S(S + 1) - 4` cells. */
  lemma BoardSize(S: int)
    requires S >= 4
    ensures Above(S, HomeRow(S) + 1) == Hexagons(S)
  {
    hide Above;
    AboveMirrored(S, S - 1);
    AboveTop(S, S);
    AboveTop(S, S - 1);
    Products(S);
  }

  lemma Products(S: int)
    ensures (S - 1) * (S + 2) == S * S + S - 2 && (S - 2) * (S + 3) == S * S + S - 6 && S * (S + 1) == S * S + S
  {
  }

  /** The number of a cell is in range and determines the cell. */
  lemma IdRange(S: int, l: Loc)
    requires S >= 4 && Hex(S, l)
    ensures Above(S, l.r) <= Id(S, l) < Above(S, l.r + 1)
    ensures 0 <= Id(S, l) < Hexagons(S)
  {
    BoardSize(S);
    AboveGrows(S, l.r + 1, HomeRow(S) + 1);
  }

  /** The cell with a given number. */
  function Cell(S: int, id: int): (l: Loc)
    requires S >= 4 && 0 <= id < Hexagons(S)
    ensures Hex(S, l) && Id(S, l) == id
  {
    BoardSize(S);
    CellFrom(S, id, 1)
  }

  /** Numbering is injective, so `Id` and `Cell` are inverse to each other. */
  lemma IdInjective(S: int, l: Loc, m: Loc)
    requires S >= 4 && Hex(S, l) && Hex(S, m) && Id(S, l) == Id(S, m)
    ensures l == m
  {
    IdRange(S, l);
    IdRange(S, m);
    if l.r < m.r {
      AboveGrows(S, l.r + 1, m.r);
    } else if m.r < l.r {
      AboveGrows(S, m.r + 1, l.r);
    }
  }

  lemma CellOfId(S: int, l: Loc)
    requires S >= 4 && Hex(S, l)
    ensures 0 <= Id(S, l) < Hexagons(S) && Cell(S, Id(S, l)) == l
  {
    IdRange(S, l);
    IdInjective(S, l, Cell(S, Id(S, l)));
  }

  /** Turning the board around turns the numbering around. */
  lemma MirrorId(S: int, l: Loc)
    requires S >= 4 && Hex(S, l)
    ensures Hex(S, Mirror(S, l)) && Mirror(S, Mirror(S, l)) == l
    ensures Id(S, Mirror(S, l)) == Hexagons(S) - 1 - Id(S, l)
  {
    hide Above, Hexagons;
    var m := Mirror(S, l);
    assert Left(S, m.r) == Left(S, l.r) && Width(S, m.r) == Width(S, l.r);
    AboveMirrored(S, l.r);
    NextRow(S, l.r);
    BoardSize(S);
  }

  lemma NextRow(S: int, r: int)
    requires S >= 4 && 1 <= r <= HomeRow(S)
    ensures Above(S, r + 1) == Above(S, r) + Width(S, r)
  {
  }

  /** Reading the id table from its end (`at_r`) is reading the mirrored cell. */
  lemma CellReversed(S: int, id: int)
    requires S >= 4 && 0 <= id < Hexagons(S)
    ensures Cell(S, Hexagons(S) - 1 - id) == Mirror(S, Cell(S, id))
  {
    var m := Mirror(S, Cell(S, id));
    MirrorId(S, Cell(S, id));
    CellOfId(S, m);
  }
}
