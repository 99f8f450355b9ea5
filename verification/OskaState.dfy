/** Lists of numbers that name the members of a set. */
module Naming {
  import opened Lists

  /** `ids` names exactly the members of `own`, each once. */
  ghost predicate Names<T(!new)>(cell: int -> T, n: int, ids: seq<int>, own: set<T>) {
    && NoRepeats(ids) && |ids| == |own|
    && (forall id | id in ids :: 0 <= id < n)
    && (forall id | 0 <= id < n :: id in ids <==> cell(id) in own)
  }

  lemma UpdateNoRepeats(ids: seq<int>, k: nat, t: int)
    requires NoRepeats(ids) && k < |ids| && t !in ids
    ensures NoRepeats(ids[k := t])
    ensures forall id :: id in ids[k := t] <==> id == t || (id in ids && id != ids[k])
  {
    var ids' := ids[k := t];
    assert ids'[k] == t;
    forall id | id in ids && id != ids[k] ensures id in ids' {
      var i :| 0 <= i < |ids| && ids[i] == id;
      assert ids'[i] == id;
    }
  }

  /** Renaming one entry follows a member that moves. */
  lemma NamesMove<T(!new)>(cell: int -> T, n: int, ids: seq<int>, own: set<T>, k: nat, t: int)
    requires Names(cell, n, ids, own) && k < |ids| && 0 <= t < n && cell(t) !in own
    requires forall id | 0 <= id < n :: (cell(id) == cell(ids[k]) ==> id == ids[k]) && (cell(id) == cell(t) ==> id == t)
    ensures Names(cell, n, ids[k := t], own - {cell(ids[k])} + {cell(t)})
  {
    UpdateNoRepeats(ids, k, t);
    var from := ids[k];
    var x, y := cell(from), cell(t);
    assert from in ids && x in own;
    var own', ids' := own - {x} + {y}, ids[k := t];
    SwapSize(own, x, y);
    forall id | 0 <= id < n ensures id in ids' <==> cell(id) in own' {
    }
    forall id | id in ids' ensures 0 <= id < n {
      assert id == t || id in ids;
    }
  }

  lemma SwapSize<T>(own: set<T>, x: T, y: T)
    requires x in own && y !in own
    ensures |own - {x} + {y}| == |own|
  {
    assert |own - {x}| == |own| - 1;
  }

  /** `std::remove` followed by `erase`. */
  function Without(ids: seq<int>, id: int): (r: seq<int>)
    ensures |r| <= |ids|
    ensures id !in ids ==> r == ids
  {
    if ids == [] then []
    else
      var n := |ids| - 1;
      if ids[n] == id then Without(ids[..n], id) else Without(ids[..n], id) + [ids[n]]
  }

  lemma {:induction false} WithoutOne(ids: seq<int>, k: nat)
    requires k < |ids| && NoRepeats(ids)
    ensures Without(ids, ids[k]) == ids[..k] + ids[k + 1..]
  {
    var n := |ids| - 1;
    if k == n {
      assert ids[k] !in ids[..n];
    } else {
      WithoutOne(ids[..n], k);
      assert ids[..n][k + 1..] + [ids[n]] == ids[k + 1..];
    }
  }

  lemma EraseKeeps(ids: seq<int>, i: nat)
    requires i < |ids|
    ensures forall id | id in ids && id != ids[i] :: id in ids[..i] + ids[i + 1..]
  {
    assert ids == ids[..i] + [ids[i]] + ids[i + 1..];
  }

  lemma EraseNoRepeats(ids: seq<int>, k: nat)
    requires NoRepeats(ids) && k < |ids|
    ensures var r := Without(ids, ids[k]);
            NoRepeats(r) && |r| == |ids| - 1 && forall id :: id in r <==> id in ids && id != ids[k]
  {
    hide Without;
    WithoutOne(ids, k);
    var r := ids[..k] + ids[k + 1..];
    assert forall i | 0 <= i < |r| :: r[i] == ids[if i < k then i else i + 1];
    forall id | id in ids && id != ids[k] ensures id in r {
      var i :| 0 <= i < |ids| && ids[i] == id;
      assert r[if i < k then i else i - 1] == id;
    }
  }

  /** Erasing an entry follows a member that leaves. */
  lemma NamesTake<T(!new)>(cell: int -> T, n: int, ids: seq<int>, own: set<T>, k: nat)
    requires Names(cell, n, ids, own) && k < |ids|
    requires forall id | 0 <= id < n && cell(id) == cell(ids[k]) :: id == ids[k]
    ensures Names(cell, n, Without(ids, ids[k]), own - {cell(ids[k])})
  {
    EraseNoRepeats(ids, k);
    assert ids[k] in ids;
  }
}

/** How the Oska state object lays a position out: cell numbers for the stones of each player and a
    board for each point of view. */
module OskaLayout {
  import opened Lists
  import opened Naming
  import opened Players
  import opened Words
  import opened Folds
  import opened OskaBoard
  import opened OskaRules

  /** Stone numbers count from the agent's side, so the human's table is read from its end. */
  function OwnCell(S: int, q: Player, id: int): (l: Loc)
    requires S >= 4 && 0 <= id < Hexagons(S)
    ensures Hex(S, l)
  {
    if q == Agent then Cell(S, id) else Cell(S, Hexagons(S) - 1 - id)
  }

  /** The number of the cell a player sees at `l`. */
  function OwnId(S: int, q: Player, l: Loc): int
    requires S >= 4 && Hex(S, l)
  {
    if q == Agent then Id(S, l) else Hexagons(S) - 1 - Id(S, l)
  }

  lemma OwnIdInverse(S: int, q: Player, l: Loc)
    requires S >= 4 && Hex(S, l)
    ensures 0 <= OwnId(S, q, l) < Hexagons(S) && OwnCell(S, q, OwnId(S, q, l)) == l
  {
    CellOfId(S, l);
  }

  /** The cells of a player by number, as a function value. */
  function Cells(S: int, q: Player): int -> Loc
    requires S >= 4
  {
    (id: int) => if 0 <= id < Hexagons(S) then OwnCell(S, q, id) else Loc(0, 0)
  }

  lemma CellsInjective(S: int, q: Player, id: int, id': int)
    requires S >= 4 && 0 <= id < Hexagons(S) && 0 <= id' < Hexagons(S) && Cells(S, q)(id) == Cells(S, q)(id')
    ensures id == id'
  {
  }

  /** The stone list of `q` names exactly the cells its stones stand on. */
  ghost predicate Listed(S: int, q: Player, ids: seq<int>, own: set<Loc>) {
    S >= 4 && Names(Cells(S, q), Hexagons(S), ids, own)
  }

  lemma ListedMove(S: int, q: Player, ids: seq<int>, own: set<Loc>, k: nat, m: Move)
    requires Listed(S, q, ids, own) && k < |ids| && Hex(S, m.from) && Hex(S, m.to) && m.to !in own
    requires ids[k] == OwnId(S, q, m.from)
    ensures Listed(S, q, ids[k := OwnId(S, q, m.to)], own - {m.from} + {m.to})
  {
    OwnIdInverse(S, q, m.from);
    OwnIdInverse(S, q, m.to);
    var cell, n := Cells(S, q), Hexagons(S);
    forall id, id' | 0 <= id < n && 0 <= id' < n && cell(id) == cell(id') ensures id == id' {
      CellsInjective(S, q, id, id');
    }
    NamesMove(cell, n, ids, own, k, OwnId(S, q, m.to));
  }

  lemma ListedHas(S: int, q: Player, ids: seq<int>, own: set<Loc>, l: Loc)
    requires Listed(S, q, ids, own) && Hex(S, l) && l in own
    ensures OwnId(S, q, l) in ids
  {
    OwnIdInverse(S, q, l);
    assert Cells(S, q)(OwnId(S, q, l)) == l;
  }

  lemma ListedTake(S: int, q: Player, ids: seq<int>, own: set<Loc>, l: Loc)
    requires Listed(S, q, ids, own) && Hex(S, l) && l in own
    ensures Listed(S, q, Without(ids, OwnId(S, q, l)), own - {l})
  {
    OwnIdInverse(S, q, l);
    var cell, n := Cells(S, q), Hexagons(S);
    forall id, id' | 0 <= id < n && 0 <= id' < n && cell(id) == cell(id') ensures id == id' {
      CellsInjective(S, q, id, id');
    }
    var id := OwnId(S, q, l);
    ListedHas(S, q, ids, own, l);
    var k :| 0 <= k < |ids| && ids[k] == id;
    NamesTake(cell, n, ids, own, k);
  }

  /** A place in the view of `q`, seen by `v`. */
  function Turn(S: int, v: Player, q: Player, l: Loc): Loc {
    if v == q then l else Mirror(S, l)
  }

  /** What a stone move changes on either board. */
  lemma SeeMove(S: int, p: Position, v: Player, q: Player, m: Move, l: Loc)
    requires Stones(S, p) && v.Occupied() && q.Occupied()
    requires m.from in Own(p, q) && See(S, p, q, m.to) == Vacant
    ensures See(S, MoveOwn(p, q, m), v, l) == if l == Turn(S, v, q, m.to) then q
                                              else if l == Turn(S, v, q, m.from) then Vacant
                                              else See(S, p, v, l)
  {
    MirrorTwice(S, l);
    MirrorId(S, m.from);
    MirrorId(S, m.to);
  }

  /** What a capture changes on either board. */
  lemma SeeTake(S: int, p: Position, v: Player, q: Player, x: Loc, l: Loc)
    requires Stones(S, p) && v.Occupied() && q.Occupied() && x in Own(p, q)
    ensures See(S, TakeOwn(p, q, x), v, l) == if l == Turn(S, v, q, x) then Vacant else See(S, p, v, l)
  {
    MirrorTwice(S, l);
    MirrorId(S, x);
  }

  lemma HomeGrows(S: int, own: set<Loc>, m: Move)
    requires m.from in own && m.to !in own && m.from.r != HomeRow(S)
    ensures |Home(S, own - {m.from} + {m.to})| == |Home(S, own)| + if m.to.r == HomeRow(S) then 1 else 0
  {
    var own' := own - {m.from} + {m.to};
    if m.to.r == HomeRow(S) {
      assert Home(S, own') == Home(S, own) + {m.to};
    } else {
      assert Home(S, own') == Home(S, own);
    }
  }

  /** What a stone move leaves in order. */
  lemma MoveFacts(S: int, p: Position, q: Player, m: Move)
    requires Stones(S, p) && q.Occupied() && m.from in Own(p, q) && See(S, p, q, m.to) == Vacant && m.to.r > m.from.r
    ensures Hex(S, m.from) && Hex(S, m.to) && m.to !in Own(p, q)
    ensures var n, k := MoveOwn(p, q, m), if m.to.r == HomeRow(S) then 1 else 0;
            && Stones(S, n)
            && |Home(S, n.agent)| == |Home(S, p.agent)| + (if q == Agent then k else 0)
            && |Home(S, n.human)| == |Home(S, p.human)| + (if q == Agent then 0 else k)
  {
    FreeCell(S, p, q, m.to);
    StepKeepsApart(S, Own(p, q), Foe(p, q), m);
    HomeGrows(S, Own(p, q), m);
  }

  /** What losing a stone leaves in order: `l` is a place no home stone can stand on. */
  lemma TakeFacts(S: int, p: Position, q: Player, l: Loc)
    requires Stones(S, p) && q.Occupied() && l in Own(p, q) && l.r != HomeRow(S)
    ensures Hex(S, l)
    ensures var n := TakeOwn(p, q, l);
            Stones(S, n) && |Home(S, n.agent)| == |Home(S, p.agent)| && |Home(S, n.human)| == |Home(S, p.human)|
  {
    CaptureKeepsApart(S, Foe(p, q), Own(p, q), l);
  }

  /** A free target is a cell of the board that carries no stone. */
  lemma FreeCell(S: int, p: Position, q: Player, l: Loc)
    requires q.Occupied() && See(S, p, q, l) == Vacant
    ensures Hex(S, l) && l !in Own(p, q) && Mirror(S, l) !in Foe(p, q)
  {
  }

  predicate OnBoard(S: int, l: Loc) {
    0 <= l.c < Cols(S) && 0 <= l.r < Rows(S)
  }

  lemma SeeMoveAll(S: int, p: Position, q: Player, m: Move)
    requires Stones(S, p) && q.Occupied() && m.from in Own(p, q) && See(S, p, q, m.to) == Vacant
    ensures OnBoard(S, m.from) && OnBoard(S, m.to)
    ensures forall v: Player, l | v.Occupied() ::
              See(S, MoveOwn(p, q, m), v, l) == if l == Turn(S, v, q, m.to) then q
                                                else if l == Turn(S, v, q, m.from) then Vacant
                                                else See(S, p, v, l)
  {
    forall v: Player, l | v.Occupied()
      ensures See(S, MoveOwn(p, q, m), v, l) == if l == Turn(S, v, q, m.to) then q
                                                else if l == Turn(S, v, q, m.from) then Vacant
                                                else See(S, p, v, l)
    {
      SeeMove(S, p, v, q, m, l);
    }
  }

  lemma SeeTakeAll(S: int, p: Position, q: Player, x: Loc)
    requires Stones(S, p) && q.Occupied() && x in Own(p, q)
    ensures OnBoard(S, x)
    ensures forall v: Player, l | v.Occupied() ::
              See(S, TakeOwn(p, q, x), v, l) == if l == Turn(S, v, q, x) then Vacant else See(S, p, v, l)
  {
    forall v: Player, l | v.Occupied()
      ensures See(S, TakeOwn(p, q, x), v, l) == if l == Turn(S, v, q, x) then Vacant else See(S, p, v, l)
    {
      SeeTake(S, p, v, q, x, l);
    }
  }

  /** The two points of view are point reflections of each other. */
  lemma ViewsMirror(S: int, p: Position, l: Loc)
    requires Stones(S, p)
    ensures See(S, p, Human, l) == See(S, p, Agent, Mirror(S, l))
  {
    MirrorTwice(S, l);
    if Hex(S, l) { MirrorId(S, l); }
    if Hex(S, Mirror(S, l)) { MirrorId(S, Mirror(S, l)); }
  }

  lemma RowHex(S: int, r: int, k: int)
    requires S >= 4 && 1 <= r <= HomeRow(S) && 0 <= k < Width(S, r)
    ensures var l := Loc(Left(S, r) + 2 * k, r); Hex(S, l) && !Hex(S, Loc(l.c + 1, r)) && Id(S, l) == Above(S, r) + k
  {
    hide Left, Width, HomeRow, Above;
  }

  /** The `k`-th cell of row `r` and the gap beside it. */
  lemma RowCell(S: int, r: int, k: int)
    requires S >= 4 && 1 <= r <= HomeRow(S) && 0 <= k < Width(S, r)
    ensures var l, id := Loc(Left(S, r) + 2 * k, r), Above(S, r) + k;
            Hex(S, l) && !Hex(S, Loc(l.c + 1, r)) && 0 <= id < Hexagons(S) && Id(S, l) == id && Cell(S, id) == l
  {
    hide Left, Width, Hex, Above, Id, Hexagons, Cell;
    RowHex(S, r, k);
    CellOfId(S, Loc(Left(S, r) + 2 * k, r));
  }

  /** The table of cell numbers, as a function value. */
  function IdTable(S: int): (int, int) -> int
    requires S >= 4
  {
    (c: int, r: int) => if Hex(S, Loc(c, r)) then Id(S, Loc(c, r)) else -1
  }

  lemma TableEdges(S: int)
    requires S >= 4
    ensures Above(S, 1) == 0 && Above(S, HomeRow(S) + 1) == Hexagons(S)
    ensures forall c, r | r < 1 || r > HomeRow(S) :: IdTable(S)(c, r) == -1
  {
    BoardSize(S);
  }

  /** The `k`-th cell of a row that starts at column `li` with number `id`, and the gap beside it. */
  ghost predicate Entry(idOf: (int, int) -> int, cellOf: int -> Loc, r: int, li: int, id: int, k: int) {
    idOf(li + 2 * k, r) == id + k && cellOf(id + k) == Loc(li + 2 * k, r) && idOf(li + 2 * k + 1, r) == -1
  }

  /** What one row contributes to both tables. */
  ghost predicate RowEntries(idOf: (int, int) -> int, cellOf: int -> Loc, r: int, li: int, w: int, id: int) {
    && (forall k | 0 <= k < w :: Entry(idOf, cellOf, r, li, id, k))
    && (forall c | c < li || c >= li + 2 * w :: idOf(c, r) == -1)
  }

  lemma TableRowSize(S: int, r: int)
    requires S >= 4 && 1 <= r <= HomeRow(S)
    ensures Above(S, r + 1) == Above(S, r) + Width(S, r) <= Hexagons(S)
    ensures forall c | c < Left(S, r) || c >= Left(S, r) + 2 * Width(S, r) :: !Hex(S, Loc(c, r))
  {
    BoardSize(S);
    AboveGrows(S, r + 1, HomeRow(S) + 1);
  }

  lemma TableRow(S: int, r: int)
    requires S >= 4 && 1 <= r <= HomeRow(S)
    ensures Above(S, r + 1) == Above(S, r) + Width(S, r) <= Hexagons(S)
    ensures RowEntries(IdTable(S), Cells(S, Agent), r, Left(S, r), Width(S, r), Above(S, r))
  {
    hide Left, Width, Id, Hexagons, Cell, Hex;
    TableRowSize(S, r);
    forall k | 0 <= k < Width(S, r) ensures Entry(IdTable(S), Cells(S, Agent), r, Left(S, r), Above(S, r), k) {
      RowCell(S, r, k);
    }
  }

  // ----- The start position

  /** The first `k` cells of an outer row. */
  ghost function Prefix(r: int, k: int): set<Loc> {
    set i | 0 <= i < k :: Loc(1 + 2 * i, r)
  }

  /** The start stones, all at the agent's coordinates: the initial hash is taken of these. */
  ghost function AgentViewStart(S: int): Position {
    Position(Prefix(1, S), Prefix(HomeRow(S), S), Agent, Invalid)
  }

  /** What the agent sees before the first move. */
  function StartCell(S: int, l: Loc): Player {
    if !Hex(S, l) then Invalid else if l.r == 1 then Agent else if l.r == HomeRow(S) then Human else Vacant
  }

  lemma InStartRow(S: int, l: Loc)
    requires S >= 4
    ensures l in StartRow(S) <==> Hex(S, l) && l.r == 1
  {
    if Hex(S, l) && l.r == 1 {
      assert l == Loc(1 + 2 * ((l.c - 1) / 2), 1);
    }
  }

  lemma SeeStart(S: int, p: Position, l: Loc)
    requires S >= 4 && Start(S, p)
    ensures See(S, p, Agent, l) == StartCell(S, l) && See(S, p, Human, l) == StartCell(S, Mirror(S, l))
  {
    var m := Mirror(S, l);
    MirrorTwice(S, l);
    InStartRow(S, l);
    InStartRow(S, m);
    if Hex(S, l) { MirrorId(S, l); }
    if Hex(S, m) { MirrorId(S, m); }
  }

  /** What the agent sees before the first move, as a function value. */
  function StartTable(S: int): (int, int) -> Player {
    (c: int, r: int) => StartCell(S, Loc(c, r))
  }

  /** What the cells of row `r` hold at the start. */
  function RowStone(S: int, r: int): Player {
    if r == 1 then Agent else if r == HomeRow(S) then Human else Vacant
  }

  ghost predicate Pair(startOf: (int, int) -> Player, r: int, li: int, k: int, x: Player) {
    startOf(li + 2 * k, r) == x && startOf(li + 2 * k + 1, r) == Invalid
  }

  ghost predicate RowStones(S: int, startOf: (int, int) -> Player, r: int, li: int, w: int) {
    && (forall k | 0 <= k < w :: Pair(startOf, r, li, k, RowStone(S, r)))
    && (forall c | c < li || c >= li + 2 * w :: startOf(c, r) == Invalid)
  }

  lemma StartRowStones(S: int, r: int)
    requires S >= 4 && 1 <= r <= HomeRow(S)
    ensures RowStones(S, StartTable(S), r, Left(S, r), Width(S, r))
  {
    forall k | 0 <= k < Width(S, r) ensures Pair(StartTable(S), r, Left(S, r), k, RowStone(S, r)) {
      RowCell(S, r, k);
    }
  }

  lemma PrefixEmpty<W>(mix: Mixer<W>, key: (Player, Loc) -> W, r: int, h: W)
    ensures Fold(AddKey(mix, key, Agent), Prefix(r, 0), h) == h && Fold(AddKey(mix, key, Human), Prefix(r, 0), h) == h
  {
    assert Prefix(r, 0) == {};
  }

  lemma OuterRows(S: int, r: int)
    requires S >= 4 && 1 <= r <= HomeRow(S)
    ensures Above(S, r + 1) == Above(S, r) + Width(S, r)
    ensures Width(S, r) > 0 && 1 <= Left(S, r) && Left(S, r) + 2 * Width(S, r) < Cols(S) + 1
    ensures r == 1 || r == HomeRow(S) ==> Left(S, r) == 1 && Width(S, r) == S
    ensures r == 1 ==> Above(S, r) == 0
  {
  }

  lemma StartEdges(S: int)
    requires S >= 4
    ensures forall c, r | r < 1 || r > HomeRow(S) :: StartTable(S)(c, r) == Invalid
  {
  }

  /** One more stone of an outer row in the initial hash. */
  lemma AddStone<W(!new)>(mix: Mixer<W>, key: (Player, Loc) -> W, q: Player, r: int, k: nat, h: W)
    requires IsXor(mix)
    ensures Fold(AddKey(mix, key, q), Prefix(r, k + 1), h)
         == mix(Fold(AddKey(mix, key, q), Prefix(r, k), h), key(q, Loc(1 + 2 * k, r)))
  {
    var l := Loc(1 + 2 * k, r);
    KeysCommute(mix, key, q);
    assert Prefix(r, k + 1) == Prefix(r, k) + {l} && l !in Prefix(r, k);
    FoldAdd(AddKey(mix, key, q), Prefix(r, k), h, l);
  }

  lemma StartFacts(S: int, p: Position)
    requires S >= 4 && Start(S, p)
    ensures Good(S, p) && Stones(S, p) && Hexagons(S) >= 0 && |Home(S, p.agent)| == 0 && |Home(S, p.human)| == 0
  {
    StartIsGood(S, p);
    BoardSize(S);
    assert Home(S, p.agent) == {};
  }

  lemma StartShown(S: int, p: Position)
    requires S >= 4 && Start(S, p)
    ensures forall l :: See(S, p, Agent, l) == StartTable(S)(l.c, l.r)
    ensures forall l :: See(S, p, Human, l) == StartTable(S)(Cols(S) - 1 - l.c, Rows(S) - 1 - l.r)
    ensures forall c, r | r < 1 || r > HomeRow(S) :: StartTable(S)(c, r) == Invalid
    ensures p.agent == StartRow(S) && p.human == StartRow(S)
  {
    forall l ensures See(S, p, Agent, l) == StartTable(S)(l.c, l.r)
             ensures See(S, p, Human, l) == StartTable(S)(Cols(S) - 1 - l.c, Rows(S) - 1 - l.r)
    {
      SeeStart(S, p, l);
    }
  }

  lemma RangeNames(lo: int, n: nat)
    ensures var a := seq(n, i => lo + i); NoRepeats(a) && forall id :: id in a <==> lo <= id < lo + n
  {
    var a := seq(n, i => lo + i);
    forall id | lo <= id < lo + n ensures id in a {
      assert a[id - lo] == id;
    }
  }

  /** The cells of the first row carry the first `S` numbers. */
  lemma FirstRowIds(S: int, id: int)
    requires S >= 4 && 0 <= id < Hexagons(S)
    ensures Cell(S, id) in StartRow(S) <==> id < S
  {
    var l := Cell(S, id);
    InStartRow(S, l);
    IdRange(S, l);
    assert Above(S, 2) == S;
    if l.r > 1 { AboveGrows(S, 2, l.r); }
  }

  lemma StartLists(S: int)
    requires S >= 4
    ensures Above(S, HomeRow(S)) == Hexagons(S) - S && Hexagons(S) >= S
    ensures Listed(S, Agent, seq(S, i => 0 + i), StartRow(S))
    ensures Listed(S, Human, seq(S, i => Hexagons(S) - S + i), StartRow(S))
  {
    var n := Hexagons(S);
    assert Above(S, HomeRow(S)) == n - S && n >= S by { BoardSize(S); }
    assert |StartRow(S)| == S by { RowSize(S, S); }
    forall id | 0 <= id < n ensures Cell(S, id) in StartRow(S) <==> id < S {
      FirstRowIds(S, id);
    }
    RangeNames(0, S);
    RangeNames(n - S, S);
    hide Hex, Cell, StartRow, Above, Hexagons;
  }

  lemma SameHash<W>(mix: Mixer<W>, key: (Player, Loc) -> W, p: Position, n: Position, h: W)
    requires p.agent == n.agent && p.human == n.human
    ensures StoneHash(mix, key, p, h) == StoneHash(mix, key, n, h)
  {
  }

  lemma SameSize<T>(a: set<T>, b: set<T>)
    requires a <= b && |a| == |b|
    ensures a == b
  {
    if x :| x in b && x !in a {
      assert |b - {x}| == |b| - 1;
      SizeLe(a, b - {x});
    }
  }

  lemma {:induction false} SizeLe<T>(a: set<T>, b: set<T>)
    requires a <= b
    ensures |a| <= |b|
    decreases a
  {
    if x :| x in a {
      SizeLe(a - {x}, b - {x});
    }
  }

  /** Comparing the home counter with the number of stones tells whether all stones are home. */
  lemma HomeByCount(S: int, own: set<Loc>)
    ensures AllHome(S, own) <==> |Home(S, own)| != 0 && |Home(S, own)| == |own|
  {
    if AllHome(S, own) {
      assert Home(S, own) == own;
    }
    if |Home(S, own)| == |own| {
      SameSize(Home(S, own), own);
    }
  }

  /** The stone a legal jump takes is there, and it is not at home. */
  lemma CapturedStone(S: int, p: Position, q: Player, m: Move)
    requires Stones(S, p) && q.Occupied() && Legal(S, p, q, m) && IsCapture(m)
    ensures Mirror(S, Middle(m)) in Foe(p, q) && Mirror(S, Middle(m)).r != HomeRow(S)
  {
  }

  // ----- Looking ahead from one stone

  /** The place `k` rows ahead and to one side: `left` is towards higher columns. */
  function Ahead(l: Loc, left: bool, k: int): Loc {
    if left then Loc(l.c + k, l.r + k) else Loc(l.c - k, l.r + k)
  }

  /** The move that `q` has from `l` to the given side. */
  function MoveFrom(S: int, p: Position, q: Player, l: Loc, left: bool): Option<Move>
    requires q.Occupied()
  {
    var x := See(S, p, q, Ahead(l, left, 1));
    if x == Vacant then Some(Move(l, Ahead(l, left, 1)))
    else if x == q.Opponent() && See(S, p, q, Ahead(l, left, 2)) == Vacant then Some(Move(l, Ahead(l, left, 2)))
    else None
  }

  /** Looking to both sides finds exactly the legal moves of a stone. */
  lemma MoveFromExact(S: int, p: Position, q: Player, m: Move)
    requires q.Occupied() && m.from in Own(p, q)
    ensures Legal(S, p, q, m) <==> MoveFrom(S, p, q, m.from, m.to.c > m.from.c) == Some(m)
  {
    var left := m.to.c > m.from.c;
    if IsCapture(m) {
      assert Middle(m) == Ahead(m.from, left, 1) && m.to == Ahead(m.from, left, 2);
    }
    if MoveFrom(S, p, q, m.from, left) == Some(m) && m.to == Ahead(m.from, left, 2) {
      assert Middle(m) == Ahead(m.from, left, 1);
    }
  }

  /** The places looked at lie on the board. */
  lemma AheadOnBoard(S: int, l: Loc, left: bool)
    requires S >= 4 && Hex(S, l)
    ensures OnBoard(S, Ahead(l, left, 1)) && (Hex(S, Ahead(l, left, 1)) ==> OnBoard(S, Ahead(l, left, 2)))
  {
  }

  function AsSeq(m: Option<Move>): seq<Move> {
    if m == None then [] else [m.value]
  }

  /** The moves found by looking both ways from each place of `ls` in turn. */
  function MovesOf(S: int, p: Position, q: Player, ls: seq<Loc>): seq<Move>
    requires q.Occupied()
  {
    if ls == [] then []
    else
      var l := ls[|ls| - 1];
      MovesOf(S, p, q, ls[..|ls| - 1]) + (AsSeq(MoveFrom(S, p, q, l, true)) + AsSeq(MoveFrom(S, p, q, l, false)))
  }

  lemma BothWays(S: int, p: Position, q: Player, l: Loc)
    requires q.Occupied() && l in Own(p, q)
    ensures var ms := AsSeq(MoveFrom(S, p, q, l, true)) + AsSeq(MoveFrom(S, p, q, l, false));
            && |ms| <= 2 && (|ms| == 2 ==> ms[0] != ms[1])
            && forall m :: m in ms <==> Legal(S, p, q, m) && m.from == l
  {
    var a, b := MoveFrom(S, p, q, l, true), MoveFrom(S, p, q, l, false);
    forall m ensures m in AsSeq(a) + AsSeq(b) <==> Legal(S, p, q, m) && m.from == l {
      if m.from == l {
        MoveFromExact(S, p, q, m);
      }
    }
  }

  /** Looking from every stone finds every legal move exactly once, at most two for each stone. */
  lemma {:induction false} MovesOfExact(S: int, p: Position, q: Player, ls: seq<Loc>)
    requires q.Occupied() && (forall i | 0 <= i < |ls| :: ls[i] in Own(p, q))
    requires NoRepeats(ls)
    ensures var ms := MovesOf(S, p, q, ls);
            && |ms| <= 2 * |ls| && NoRepeats(ms)
            && forall m :: m in ms <==> Legal(S, p, q, m) && m.from in ls
  {
    hide MoveFrom, Legal, AsSeq;
    if ls != [] {
      var n := |ls| - 1;
      MovesOfExact(S, p, q, ls[..n]);
      BothWays(S, p, q, ls[n]);
      var a := MovesOf(S, p, q, ls[..n]);
      var b := AsSeq(MoveFrom(S, p, q, ls[n], true)) + AsSeq(MoveFrom(S, p, q, ls[n], false));
      assert ls == ls[..n] + [ls[n]];
      forall m ensures m in a + b <==> Legal(S, p, q, m) && m.from in ls {
      }
      JoinNoRepeats(a, b);
    }
  }

  /** The cells of a stone list in order. */
  function CellsOf(S: int, q: Player, ids: seq<int>): seq<Loc>
    requires S >= 4
  {
    seq(|ids|, i requires 0 <= i < |ids| => Cells(S, q)(ids[i]))
  }

  lemma CellsLength(S: int, q: Player, ids: seq<int>)
    requires S >= 4
    ensures |CellsOf(S, q, ids)| == |ids|
  {
  }

  lemma NoCellsNoMoves(S: int, p: Position, q: Player, ls: seq<Loc>)
    requires q.Occupied()
    ensures MovesOf(S, p, q, ls[..0]) == [] && ls[..|ls|] == ls
  {
  }

  lemma ListedCells(S: int, q: Player, ids: seq<int>, own: set<Loc>)
    requires Listed(S, q, ids, own) && forall l | l in own :: Hex(S, l)
    ensures var ls := CellsOf(S, q, ids);
            && (forall i | 0 <= i < |ids| :: 0 <= ids[i] < Hexagons(S) && ls[i] in own)
            && NoRepeats(ls)
            && forall l :: l in ls <==> l in own
  {
    var ls := CellsOf(S, q, ids);
    forall i | 0 <= i < |ids| ensures 0 <= ids[i] < Hexagons(S) && ls[i] in own {
      assert ids[i] in ids;
    }
    forall i, j | 0 <= i < j < |ls| ensures ls[i] != ls[j] {
      assert ids[i] in ids && ids[j] in ids;
      if ls[i] == ls[j] { CellsInjective(S, q, ids[i], ids[j]); }
    }
    forall l | l in own ensures l in ls {
      ListedHas(S, q, ids, own, l);
      OwnIdInverse(S, q, l);
      var i :| 0 <= i < |ids| && ids[i] == OwnId(S, q, l);
      assert ls[i] == l;
    }
  }

  lemma LocIsCell(S: int, q: Player, id: int)
    requires S >= 4 && 0 <= id < Hexagons(S)
    ensures OwnCell(S, q, id) == Cells(S, q)(id)
  {
  }

  lemma MovesStep(S: int, p: Position, q: Player, ls: seq<Loc>, i: nat)
    requires q.Occupied() && i < |ls|
    ensures MovesOf(S, p, q, ls[..0]) == [] && ls[..|ls|] == ls
    ensures MovesOf(S, p, q, ls[..i + 1])
         == MovesOf(S, p, q, ls[..i]) + (AsSeq(MoveFrom(S, p, q, ls[i], true)) + AsSeq(MoveFrom(S, p, q, ls[i], false)))
  {
    assert ls[..i + 1][..i] == ls[..i];
  }

  lemma {:induction false} MovesGrow(S: int, p: Position, q: Player, ls: seq<Loc>, i: nat)
    requires q.Occupied() && i <= |ls| && MovesOf(S, p, q, ls[..i]) != []
    ensures MovesOf(S, p, q, ls) != []
    decreases |ls| - i
  {
    if i == |ls| {
      assert ls[..i] == ls;
    } else {
      assert ls[..i + 1][..i] == ls[..i];
      MovesGrow(S, p, q, ls, i + 1);
    }
  }

  lemma {:induction false} NoMovesAnywhere(S: int, p: Position, q: Player, ls: seq<Loc>)
    requires q.Occupied() && forall i | 0 <= i < |ls| :: Stuck(S, p, q, ls[i])
    ensures MovesOf(S, p, q, ls) == []
  {
    if ls != [] {
      NoMovesAnywhere(S, p, q, ls[..|ls| - 1]);
      assert Stuck(S, p, q, ls[|ls| - 1]);
    }
  }

  predicate Stuck(S: int, p: Position, q: Player, l: Loc)
    requires q.Occupied()
  {
    MoveFrom(S, p, q, l, true) == None && MoveFrom(S, p, q, l, false) == None
  }

  /** A found move is legal. */
  lemma FoundIsLegal(S: int, p: Position, q: Player, l: Loc, left: bool)
    requires q.Occupied() && l in Own(p, q)
    ensures var m := MoveFrom(S, p, q, l, left); m != None ==> Legal(S, p, q, m.value)
  {
    var m := MoveFrom(S, p, q, l, left);
    if m != None { MoveFromExact(S, p, q, m.value); }
  }

  lemma GameStarts(S: int, p: Position)
    requires Good(S, p)
    ensures Game(S, [p], [])
  {
  }

  lemma DistanceNonNegative(S: int, p: Position)
    requires Good(S, p)
    ensures Distance(S, p) >= 0
  {
    FoldSteps(S, p.human, Fold(AddSteps(S), p.agent, 0));
    StepsNonNegative(S, p.agent);
    StepsNonNegative(S, p.human);
  }

  lemma GameGrows(S: int, ps: seq<Position>, ms: seq<Move>, m: Move)
    requires Game(S, ps, ms) && |ps| == |ms| + 1 && Good(S, ps[|ms|]) && !ps[|ms|].winner.Occupied()
    requires Legal(S, ps[|ms|], ps[|ms|].toMove, m)
    ensures var n := Play(S, ps[|ms|], m);
            Game(S, ps + [n], ms + [m]) && 0 <= Distance(S, n) < Distance(S, ps[|ms|])
  {
    hide Legal, Distance, Verdict, Shift;
    PlayApproaches(S, ps[|ms|], m);
  }

  /** Going through the stone list finds exactly the legal moves of the player. */
  lemma ListMovesExact(S: int, p: Position, q: Player, ids: seq<int>)
    requires Stones(S, p) && q.Occupied() && Listed(S, q, ids, Own(p, q))
    ensures forall i | 0 <= i < |ids| ::
              0 <= ids[i] < Hexagons(S) && Hex(S, CellsOf(S, q, ids)[i]) && CellsOf(S, q, ids)[i] in Own(p, q)
    ensures var ms := MovesOf(S, p, q, CellsOf(S, q, ids));
            && |ms| <= 2 * S && NoRepeats(ms)
            && (forall m :: m in ms <==> Legal(S, p, q, m))
            && (ms != [] <==> HasMove(S, p, q))
  {
    hide Legal, MovesOf, CellsOf, Listed, Hexagons, Hex;
    var ls := CellsOf(S, q, ids);
    OwnOnBoard(S, p, q);
    CellsLength(S, q, ids);
    ListedCells(S, q, ids, Own(p, q));
    MovesOfExact(S, p, q, ls);
    ListedSize(S, q, ids, Own(p, q));
    LegalFrom(S, p, q);
    var ms := MovesOf(S, p, q, ls);
    assert ms != [] ==> ms[0] in ms;
  }

  lemma LegalFrom(S: int, p: Position, q: Player)
    requires q.Occupied()
    ensures forall m | Legal(S, p, q, m) :: m.from in Own(p, q)
  {
  }

  lemma OwnOnBoard(S: int, p: Position, q: Player)
    requires Stones(S, p) && q.Occupied()
    ensures S >= 4 && |Own(p, q)| <= S && forall l | l in Own(p, q) :: Hex(S, l)
  {
  }

  lemma ListedSize(S: int, q: Player, ids: seq<int>, own: set<Loc>)
    requires Listed(S, q, ids, own)
    ensures |ids| == |own|
  {
  }
}

/** The Oska state object. One position is held four times over: a board for each point of view, a
    list of stone numbers for each player, home counters and a running hash. */
module OskaState {
  import opened Lists
  import opened Players
  import opened Words
  import opened Naming
  import opened Folds
  import opened OskaBoard
  import opened OskaRules
  import opened OskaLayout

  class Oska<W(!new)> {
    const S: int
    const mix: Mixer<W>
    const key: (Player, Loc) -> W
    const sideKey: Player -> W
    const toId: array2<int>     // cell numbers by place, -1 off the hourglass
    const toLoc: array<Loc>     // places by cell number
    const agentBoard: array2<Player>
    const humanBoard: array2<Player>
    var agentIds: seq<int>
    var humanIds: seq<int>
    var noHomeAgent: int
    var noHomeHuman: int
    var toMove: Player
    var winner: Player
    var last: Option<Move>
    var hash: W
    ghost var pos: Position     // the stones, the turn and the result
    ghost var seed: W           // what the hash would be without any stone

    ghost predicate Tables()
      reads toId, toLoc
    {
      && S >= 4
      && toId.Length0 == Cols(S) && toId.Length1 == Rows(S)
      && toLoc.Length == Hexagons(S)
      && (forall c, r | 0 <= c < Cols(S) && 0 <= r < Rows(S) ::
            toId[c, r] == IdTable(S)(c, r))
      && (forall id | 0 <= id < Hexagons(S) :: toLoc[id] == Cells(S, Agent)(id))
    }

    ghost predicate Shaped()
      reads toId, toLoc
    {
      && S >= 4 && Tables()
      && agentBoard.Length0 == Cols(S) && agentBoard.Length1 == Rows(S)
      && humanBoard.Length0 == Cols(S) && humanBoard.Length1 == Rows(S)
      && agentBoard != humanBoard
    }

    /** Each board shows the stones of `p` from its player's side. */
    ghost predicate Show(p: Position)
      requires Shaped()
      reads toId, toLoc, agentBoard, humanBoard
    {
      && (forall c, r | 0 <= c < Cols(S) && 0 <= r < Rows(S) :: agentBoard[c, r] == See(S, p, Agent, Loc(c, r)))
      && (forall c, r | 0 <= c < Cols(S) && 0 <= r < Rows(S) :: humanBoard[c, r] == See(S, p, Human, Loc(c, r)))
    }

    /** Every copy agrees with the stones of the position. */
    ghost predicate Rep()
      reads this, toId, toLoc, agentBoard, humanBoard
    {
      && Shaped() && Show(pos) && Stones(S, pos)
      && Listed(S, Agent, agentIds, pos.agent) && Listed(S, Human, humanIds, pos.human)
      && noHomeAgent == |Home(S, pos.agent)| && noHomeHuman == |Home(S, pos.human)|
    }

    ghost predicate Valid()
      reads this, toId, toLoc, agentBoard, humanBoard
    {
      Rep() && Good(S, pos) && toMove == pos.toMove && winner == pos.winner
    }

    /** The running hash is that of the stones, mixed into the constant fixed at the start. */
    ghost predicate HashExact()
      reads this
    {
      IsXor(mix) && hash == StoneHash(mix, key, pos, seed)
    }

    // ----- Setting up

    /** A fresh state: numbered cells, both boards, the stone lists and the start hash. */
    constructor (S: int, mix: Mixer<W>, key: (Player, Loc) -> W, sideKey: Player -> W, first: Player)
      requires S >= 4 && first.Occupied()
      ensures Valid() && Start(S, pos) && pos.toMove == first
      ensures this.S == S && this.mix == mix && this.key == key && this.sideKey == sideKey
      ensures IsXor(mix) ==> HashExact() && hash == StoneHash(mix, key, AgentViewStart(S), sideKey(Vacant))
      ensures fresh(toId) && fresh(toLoc) && fresh(agentBoard) && fresh(humanBoard)
    {
      hide Tables, Show, Listed, Stones, HasMove, StartRow, Hex, Hexagons, Above, Home, StoneHash, IsXor, See;
      this.S, this.mix, this.key, this.sideKey := S, mix, key, sideKey;
      StartFacts(S, Position(StartRow(S), StartRow(S), first, Invalid));
      toId := new int[Cols(S), Rows(S)]((c, r) => -1);
      toLoc := new Loc[Hexagons(S)](i => Loc(-3, -3));
      agentBoard := new Player[Cols(S), Rows(S)]((c, r) => Invalid);
      humanBoard := new Player[Cols(S), Rows(S)]((c, r) => Invalid);
      agentIds, humanIds, noHomeAgent, noHomeHuman := [], [], 0, 0;
      toMove, winner, last, hash := first, Invalid, None, sideKey(Vacant);
      pos, seed := Position(StartRow(S), StartRow(S), first, Invalid), sideKey(Vacant);
      new;
      Fill();
    }

    /** Fills the tables, the boards and the lists of a blank state. */
    method Fill()
      requires S >= 4 && toId.Length0 == Cols(S) && toId.Length1 == Rows(S) && toLoc.Length == Hexagons(S)
      requires agentBoard.Length0 == humanBoard.Length0 == Cols(S)
      requires agentBoard.Length1 == humanBoard.Length1 == Rows(S)
      requires agentBoard != humanBoard
      requires forall c, r | 0 <= c < Cols(S) && 0 <= r < Rows(S) :: toId[c, r] == -1
      requires forall c, r | 0 <= c < Cols(S) && 0 <= r < Rows(S) :: agentBoard[c, r] == humanBoard[c, r] == Invalid
      requires agentIds == humanIds == [] && noHomeAgent == noHomeHuman == 0 && hash == sideKey(Vacant)
      requires Start(S, pos) && toMove == pos.toMove && winner == pos.winner
      modifies toId, toLoc, agentBoard, humanBoard, this`agentIds, this`humanIds, this`hash, this`seed
      ensures Valid()
      ensures IsXor(mix) ==> HashExact() && hash == StoneHash(mix, key, AgentViewStart(S), sideKey(Vacant))
    {
      hide Tables, Show, Listed, Stones, HasMove, StartRow, Hex, Hexagons, Above, Home, StoneHash, IsXor, See;
      StartFacts(S, pos);
      Number();
      SetUp();
      seed := StoneHash(mix, key, pos, hash);
      if IsXor(mix) { StoneHashTwice(mix, key, pos, hash); }
    }

    /** The first numbering loop: down to the waist the rows shrink. */
    method NumberTop() returns (r: int, li: int, ri: int, id: int)
      requires S >= 4 && toId.Length0 == Cols(S) && toId.Length1 == Rows(S) && toLoc.Length == Hexagons(S)
      requires forall c, r | 0 <= c < Cols(S) && 0 <= r < Rows(S) :: toId[c, r] == -1
      modifies toId, toLoc
      ensures r == S - 1 && li == S - 1 && ri == S + 2 && id == Above(S, r)
      ensures NumberedTo(IdTable(S), Cells(S, Agent), r, id)
    {
      hide Hex, Id, Above, Cell, Hexagons, IdTable, Cells, RowEntries;
      TableEdges(S);
      li, ri, id, r := 1, Cols(S) - 1, 0, 1;
      while r < Rows(S) / 2
        invariant 1 <= r <= S - 1 && li == r && ri == Cols(S) - r && id == Above(S, r)
        invariant NumberedTo(IdTable(S), Cells(S, Agent), r, id)
      {
        TableRow(S, r);
        id := NumberRow(IdTable(S), Cells(S, Agent), r, li, ri, id, Width(S, r));
        r, li, ri := r + 1, li + 1, ri - 1;
      }
    }

    /** The second loop: row, borders and number fall through, and the rows grow again. */
    method NumberBottom(r0: int, li0: int, ri0: int, id0: int) returns (id: int)
      requires S >= 4 && toId.Length0 == Cols(S) && toId.Length1 == Rows(S) && toLoc.Length == Hexagons(S)
      requires r0 == S - 1 && li0 == S - 1 && ri0 == S + 2 && id0 == Above(S, r0)
      requires NumberedTo(IdTable(S), Cells(S, Agent), r0, id0)
      modifies toId, toLoc
      ensures NumberedTo(IdTable(S), Cells(S, Agent), HomeRow(S) + 1, id) && id == Above(S, HomeRow(S) + 1)
    {
      hide Hex, Id, Above, Cell, Hexagons, IdTable, Cells, RowEntries, NumberedTo;
      var r, li, ri := r0, li0, ri0;
      id := id0;
      while r < Rows(S) - 1
        invariant S - 1 <= r <= HomeRow(S) + 1 && li == 2 * S - 2 - r && ri == r + 3 && id == Above(S, r)
        invariant NumberedTo(IdTable(S), Cells(S, Agent), r, id)
      {
        TableRow(S, r);
        id := NumberRow(IdTable(S), Cells(S, Agent), r, li, ri, id, Width(S, r));
        r, li, ri := r + 1, li - 1, ri + 1;
      }
    }

    method Number()
      requires S >= 4 && toId.Length0 == Cols(S) && toId.Length1 == Rows(S) && toLoc.Length == Hexagons(S)
      requires forall c, r | 0 <= c < Cols(S) && 0 <= r < Rows(S) :: toId[c, r] == -1
      modifies toId, toLoc
      ensures Tables()
    {
      hide Hex, Id, Above, Cell, Hexagons, IdTable, Cells, RowEntries;
      var r, li, ri, id := NumberTop();
      id := NumberBottom(r, li, ri, id);
      TableEdges(S);
    }

    /** The rows above `r` and the first `n` numbers are entered and nothing else is. */
    ghost predicate NumberedTo(idOf: (int, int) -> int, cellOf: int -> Loc, r: int, n: int)
      reads toId, toLoc
    {
      && 0 <= n <= toLoc.Length
      && (forall c, i | 0 <= c < toId.Length0 && 0 <= i < toId.Length1 ::
            toId[c, i] == if i < r then idOf(c, i) else -1)
      && (forall i | 0 <= i < n :: toLoc[i] == cellOf(i))
    }

    method NumberRow(ghost idOf: (int, int) -> int, ghost cellOf: int -> Loc, r: int, li: int, ri: int, id0: int,
                     ghost w: int)
      returns (id: int)
      requires 0 <= r < toId.Length1 && 0 <= li <= ri < toId.Length0 && ri == li + 2 * w - 1
      requires NumberedTo(idOf, cellOf, r, id0) && id0 + w <= toLoc.Length
      requires RowEntries(idOf, cellOf, r, li, w, id0)
      modifies toId, toLoc
      ensures id == id0 + w && NumberedTo(idOf, cellOf, r + 1, id)
    {
      id := id0;
      var c := li;
      ghost var k := 0;
      while c < ri
        invariant 0 <= k <= w && c == li + 2 * k && id == id0 + k
        invariant forall x, i | 0 <= x < toId.Length0 && 0 <= i < toId.Length1 ::
          toId[x, i] == if i < r || (i == r && x < c) then idOf(x, i) else -1
        invariant forall i | 0 <= i < id :: toLoc[i] == cellOf(i)
      {
        assert Entry(idOf, cellOf, r, li, id0, k);
        toId[c, r] := id;
        toLoc[id] := Loc(c, r);
        id := id + 1;
        c := c + 2;
        k := k + 1;
      }
    }

    /** The boards show the start position up to column `c0` of row `r` and nothing below. */
    ghost predicate SetTo(startOf: (int, int) -> Player, r: int, c0: int)
      requires Shaped()
      reads toId, toLoc, agentBoard, humanBoard
    {
      && Mirrored()
      && forall c, i | 0 <= c < Cols(S) && 0 <= i < Rows(S) ::
           agentBoard[c, i] == if i < r || (i == r && c < c0) then startOf(c, i) else Invalid
    }

    /** The human's board is the agent's board turned around. */
    ghost predicate Mirrored()
      requires Shaped()
      reads toId, toLoc, agentBoard, humanBoard
    {
      forall c, i | 0 <= c < Cols(S) && 0 <= i < Rows(S) ::
          humanBoard[c, i] == agentBoard[Cols(S) - 1 - c, Rows(S) - 1 - i]
    }

    /** Whatever was played, the human's board is the agent's board turned around. */
    lemma BoardsMirror()
      requires Rep()
      ensures Mirrored()
    {
      hide See, Tables, Listed, Stones, Home;
      forall c, r | 0 <= c < Cols(S) && 0 <= r < Rows(S)
        ensures humanBoard[c, r] == agentBoard[Cols(S) - 1 - c, Rows(S) - 1 - r]
      {
        ViewsMirror(S, pos, Loc(c, r));
      }
    }

    /** The hash once the stones of the rows above `r` are mixed in. */
    ghost function StartHash(r: int, h: W): W {
      var h' := if r > 1 then Fold(AddKey(mix, key, Agent), Prefix(1, S), h) else h;
      if r > HomeRow(S) then Fold(AddKey(mix, key, Human), Prefix(HomeRow(S), S), h') else h'
    }

    /** Lists and hash once the rows above `r` are set up. */
    ghost predicate ListsTo(r: int)
      requires S >= 4
      reads this
    {
      && agentIds == (if r > 1 then seq(S, i => 0 + i) else [])
      && humanIds == (if r > HomeRow(S) then seq(S, i => Above(S, HomeRow(S)) + i) else [])
      && (IsXor(mix) ==> hash == StartHash(r, sideKey(Vacant)))
    }

    /** The same two loops put the stones on both boards and into the lists. */
    method SetUp()
      requires Shaped() && agentIds == [] && humanIds == [] && hash == sideKey(Vacant) && Start(S, pos)
      requires forall c, r | 0 <= c < Cols(S) && 0 <= r < Rows(S) :: agentBoard[c, r] == humanBoard[c, r] == Invalid
      modifies this`agentIds, this`humanIds, this`hash, agentBoard, humanBoard
      ensures Show(pos)
      ensures Listed(S, Agent, agentIds, pos.agent) && Listed(S, Human, humanIds, pos.human)
      ensures IsXor(mix) ==> hash == StoneHash(mix, key, AgentViewStart(S), sideKey(Vacant))
    {
      assert Above(S, 1) == 0;
      StartEdges(S);
      hide Hex, Above, StartTable, RowStones, StartHash;
      var li, ri, id, r := 1, Cols(S) - 1, 0, 1;
      while r < Rows(S) / 2
        invariant 1 <= r <= S - 1 && li == r && ri == Cols(S) - r && id == Above(S, r)
        invariant SetTo(StartTable(S), r, 0) && ListsTo(r)
      {
        id := SetUpRow(r, li, ri, id);
        r, li, ri := r + 1, li + 1, ri - 1;
      }
      while r < Rows(S) - 1
        invariant S - 1 <= r <= HomeRow(S) + 1 && li == 2 * S - 2 - r && ri == r + 3 && id == Above(S, r)
        invariant SetTo(StartTable(S), r, 0) && ListsTo(r)
      {
        id := SetUpRow(r, li, ri, id);
        r, li, ri := r + 1, li - 1, ri + 1;
      }
      Finished();
    }

    lemma Finished()
      requires Shaped() && Start(S, pos) && SetTo(StartTable(S), HomeRow(S) + 1, 0) && ListsTo(HomeRow(S) + 1)
      ensures Show(pos)
      ensures Listed(S, Agent, agentIds, pos.agent) && Listed(S, Human, humanIds, pos.human)
      ensures IsXor(mix) ==> hash == StoneHash(mix, key, AgentViewStart(S), sideKey(Vacant))
    {
      hide See, StartTable, Hex, Tables, Listed, IsXor, Above, Fold, AddKey, Prefix, Hexagons, Start, StartRow;
      StartLists(S);
      StartShown(S, pos);
      forall c, r | 0 <= c < Cols(S) && 0 <= r < Rows(S)
        ensures agentBoard[c, r] == See(S, pos, Agent, Loc(c, r)) && humanBoard[c, r] == See(S, pos, Human, Loc(c, r))
      {
        var x, y := Cols(S) - 1 - c, Rows(S) - 1 - r;
        assert agentBoard[c, r] == StartTable(S)(c, r) && agentBoard[x, y] == StartTable(S)(x, y);
        assert See(S, pos, Human, Loc(c, r)) == StartTable(S)(x, y);
      }
    }

    method SetUpRow(r: int, li: int, ri: int, id0: int) returns (id: int)
      requires Shaped() && 1 <= r <= HomeRow(S) && SetTo(StartTable(S), r, 0) && ListsTo(r)
      requires li == Left(S, r) && ri == li + 2 * Width(S, r) - 1 && id0 == Above(S, r)
      modifies this`agentIds, this`humanIds, this`hash, agentBoard, humanBoard
      ensures SetTo(StartTable(S), r + 1, 0) && ListsTo(r + 1) && id == Above(S, r + 1)
    {
      hide Hex, Above, StartTable, Left, Width, Tables, Fold, Prefix, AddKey, SetTo, IsXor;
      ghost var w := Width(S, r);
      StartRowStones(S, r);
      OuterRows(S, r);
      Widen(r, li, w);
      PrefixEmpty(mix, key, r, hash);
      id := id0;
      var c := li;
      ghost var k := 0;
      ghost var h := hash;
      while c < ri
        invariant 0 <= k <= w && c == li + 2 * k && id == id0 + k
        invariant SetTo(StartTable(S), r, c)
        invariant agentIds == if r == 1 then seq(k, i => 0 + i) else old(agentIds)
        invariant humanIds == if r == HomeRow(S) then seq(k, i => Above(S, HomeRow(S)) + i) else old(humanIds)
        invariant IsXor(mix) ==>
                    hash == if r == 1 then Fold(AddKey(mix, key, Agent), Prefix(1, k), h)
                            else if r == HomeRow(S) then Fold(AddKey(mix, key, Human), Prefix(HomeRow(S), k), h)
                            else h
      {
        SetUpCell(c, r, li, k, w);
        assert (r == 1 || r == HomeRow(S)) ==> c == 1 + 2 * k;
        if r == 1 {
          if IsXor(mix) { AddStone(mix, key, Agent, 1, k, h); }
          hash := mix(hash, key(Agent, Loc(c, r)));
          agentIds := agentIds + [id];
        }
        if r == HomeRow(S) {
          if IsXor(mix) { AddStone(mix, key, Human, r, k, h); }
          hash := mix(hash, key(Human, Loc(c, r)));
          humanIds := humanIds + [id];
        }
        id, c, k := id + 1, c + 2, k + 1;
      }
      Widen(r, li, w);
    }

    /** Outside its cells a row holds nothing. */
    lemma Widen(r: int, li: int, w: int)
      requires Shaped() && RowStones(S, StartTable(S), r, li, w)
      ensures SetTo(StartTable(S), r, 0) ==> SetTo(StartTable(S), r, li)
      ensures SetTo(StartTable(S), r, li + 2 * w) ==> SetTo(StartTable(S), r + 1, 0)
    {
      hide Tables, StartTable;
    }

    method SetUpCell(c: int, r: int, ghost li: int, ghost k: int, ghost w: int)
      requires Shaped() && 0 <= c < Cols(S) - 1 && 0 <= r < Rows(S) && SetTo(StartTable(S), r, c)
      requires c == li + 2 * k && 0 <= k < w && RowStones(S, StartTable(S), r, li, w)
      modifies agentBoard, humanBoard
      ensures SetTo(StartTable(S), r, c + 2)
    {
      hide StartTable, Tables, Hex, See, Mirrored;
      assert Pair(StartTable(S), r, li, k, RowStone(S, r));
      SetBoth(c, r, RowStone(S, r));
    }

    /** Writes a cell of the agent's board and its mirror image. */
    method SetBoth(c: int, r: int, x: Player)
      requires Shaped() && 0 <= c < Cols(S) && 0 <= r < Rows(S) && Mirrored()
      modifies agentBoard, humanBoard
      ensures Mirrored()
      ensures forall d, i | 0 <= d < Cols(S) && 0 <= i < Rows(S) ::
                agentBoard[d, i] == if d == c && i == r then x else old(agentBoard[d, i])
    {
      hide Tables, Hex;
      SetCell(Agent, Loc(c, r), x);
    }

    // ----- Table access; the human reads both tables from their end

    function IdAt(q: Player, l: Loc): (id: int)
      requires Tables() && Hex(S, l) && q.Occupied()
      reads toId, toLoc
      ensures id == OwnId(S, q, l)
    {
      assert OnBoard(S, l) && OnBoard(S, Mirror(S, l));
      if q == Agent then toId[l.c, l.r] else MirrorId(S, l); toId[Mirror(S, l).c, Mirror(S, l).r]
    }

    function LocAt(q: Player, id: int): (l: Loc)
      requires Tables() && 0 <= id < Hexagons(S) && q.Occupied()
      reads toId, toLoc
      ensures l == OwnCell(S, q, id)
    {
      if q == Agent then toLoc[id] else toLoc[Hexagons(S) - 1 - id]
    }

    function Look(q: Player, l: Loc): (x: Player)
      requires Shaped() && Show(pos) && OnBoard(S, l) && q.Occupied()
      reads this, toId, toLoc, agentBoard, humanBoard
      ensures x == See(S, pos, q, l)
    {
      if q == Agent then agentBoard[l.c, l.r] else humanBoard[l.c, l.r]
    }

    // ----- Doing a move

    /** Writes a cell in the view of `q` and, through `at_r`, in the other view. */
    method SetCell(q: Player, l: Loc, x: Player)
      requires Shaped() && OnBoard(S, l) && q.Occupied()
      modifies agentBoard, humanBoard
      ensures forall c, r | 0 <= c < Cols(S) && 0 <= r < Rows(S) ::
                agentBoard[c, r] == if Loc(c, r) == Turn(S, Agent, q, l) then x else old(agentBoard[c, r])
      ensures forall c, r | 0 <= c < Cols(S) && 0 <= r < Rows(S) ::
                humanBoard[c, r] == if Loc(c, r) == Turn(S, Human, q, l) then x else old(humanBoard[c, r])
    {
      hide Tables;
      if q == Agent {
        humanBoard[Cols(S) - 1 - l.c, Rows(S) - 1 - l.r] := x;
        agentBoard[l.c, l.r] := x;
      } else {
        agentBoard[Cols(S) - 1 - l.c, Rows(S) - 1 - l.r] := x;
        humanBoard[l.c, l.r] := x;
      }
    }

    /** `std::find`. */
    static method Find(ids: seq<int>, id: int) returns (k: nat)
      requires id in ids
      ensures k < |ids| && ids[k] == id
    {
      k := 0;
      while ids[k] != id
        invariant k < |ids| && id !in ids[..k]
        decreases |ids| - k
      {
        assert ids[..k + 1] == ids[..k] + [ids[k]];
        k := k + 1;
      }
    }

    method MoveOnBoards(q: Player, m: Move, ghost p: Position)
      requires Shaped() && Show(p) && Stones(S, p) && q.Occupied() && m.from in Own(p, q)
      requires See(S, p, q, m.to) == Vacant
      modifies agentBoard, humanBoard
      ensures Show(MoveOwn(p, q, m))
    {
      hide See, Hex, Tables, Stones, Mirrored;
      SeeMoveAll(S, p, q, m);
      SetCell(q, m.from, Vacant);
      SetCell(q, m.to, q);
    }

    method TakeFromBoards(q: Player, x: Loc, ghost p: Position)
      requires Shaped() && Show(p) && Stones(S, p) && q.Occupied() && x in Own(p, q)
      modifies agentBoard, humanBoard
      ensures Show(TakeOwn(p, q, x))
    {
      hide See, Hex, Tables, Stones, Mirrored;
      SeeTakeAll(S, p, q, x);
      SetCell(q, x, Vacant);
    }

    /** `moveStone`: board writes on both sides, the list entry and the home counter. */
    method MoveStone(q: Player, m: Move)
      requires Rep() && q.Occupied() && m.from in Own(pos, q) && See(S, pos, q, m.to) == Vacant && m.to.r > m.from.r
      modifies this`agentIds, this`humanIds, this`noHomeAgent, this`noHomeHuman, this`pos, agentBoard, humanBoard
      ensures Rep() && pos == MoveOwn(old(pos), q, m)
    {
      hide See, Hex, Show, Shaped, Listed, Home, Stones, MoveOwn, Own, HomeRow;
      ghost var p := pos;
      MoveFacts(S, p, q, m);
      MoveOnBoards(q, m, p);
      Relist(q, m, p);
      pos := MoveOwn(p, q, m);
    }

    /** The list entry and the home counter of a stone that moves. */
    method Relist(q: Player, m: Move, ghost p: Position)
      requires Shaped() && q.Occupied() && Listed(S, Agent, agentIds, p.agent) && Listed(S, Human, humanIds, p.human)
      requires Hex(S, m.from) && Hex(S, m.to) && m.from in Own(p, q) && m.to !in Own(p, q)
      modifies this`agentIds, this`humanIds, this`noHomeAgent, this`noHomeHuman
      ensures Listed(S, Agent, agentIds, MoveOwn(p, q, m).agent) && Listed(S, Human, humanIds, MoveOwn(p, q, m).human)
      ensures var k := if m.to.r == HomeRow(S) then 1 else 0;
              && noHomeAgent == old(noHomeAgent) + (if q == Agent then k else 0)
              && noHomeHuman == old(noHomeHuman) + (if q == Agent then 0 else k)
    {
      hide See, Hex, Show, Shaped, Listed, HomeRow;
      if q == Agent {
        agentIds := Rename(q, agentIds, m, p.agent);
        noHomeAgent := noHomeAgent + if m.to.r == HomeRow(S) then 1 else 0;
      } else {
        humanIds := Rename(q, humanIds, m, p.human);
        noHomeHuman := noHomeHuman + if m.to.r == HomeRow(S) then 1 else 0;
      }
    }

    /** Finds the list entry of the moved stone and gives it the number of the target. */
    method Rename(q: Player, ids: seq<int>, m: Move, ghost own: set<Loc>) returns (ids': seq<int>)
      requires Shaped() && q.Occupied() && Listed(S, q, ids, own)
      requires Hex(S, m.from) && Hex(S, m.to) && m.from in own && m.to !in own
      ensures Listed(S, q, ids', own - {m.from} + {m.to})
    {
      ListedHas(S, q, ids, own, m.from);
      var k := Find(ids, IdAt(q, m.from));
      ListedMove(S, q, ids, own, k, m);
      return ids[k := IdAt(q, m.to)];
    }

    /** `captureStone`: player `q` loses the stone at `x`, a place in its own view. */
    method CaptureStone(q: Player, x: Loc)
      requires Rep() && q.Occupied() && x in Own(pos, q) && x.r != HomeRow(S)
      modifies this`agentIds, this`humanIds, this`pos, agentBoard, humanBoard
      ensures Rep() && pos == TakeOwn(old(pos), q, x)
    {
      hide See, Hex, Show, Tables, Listed, Home, Stones;
      ghost var p := pos;
      TakeFacts(S, p, q, x);
      TakeFromBoards(q, x, p);
      pos := TakeOwn(p, q, x);
      if q == Agent {
        ListedTake(S, q, agentIds, p.agent, x);
        agentIds := Without(agentIds, IdAt(q, x));
      } else {
        ListedTake(S, q, humanIds, p.human, x);
        humanIds := Without(humanIds, IdAt(q, x));
      }
    }

    /** The stones of a legal move, with the hash kept up to date or not: `moveStone` and
        `captureStone`, or their hashing twins. */
    method Displace(m: Move, hashed: bool)
      requires Valid() && Legal(S, pos, toMove, m)
      modifies this`agentIds, this`humanIds, this`noHomeAgent, this`noHomeHuman, this`hash, this`pos
      modifies agentBoard, humanBoard
      ensures Rep() && pos == Shift(S, old(pos), m)
      ensures hashed && old(HashExact()) ==> HashExact()
      ensures !hashed ==> hash == old(hash)
    {
      hide Hex, Tables, Show, Listed, Stones, Home, HasMove, IsXor, StoneHash, See;
      ghost var p := pos;
      var q := toMove;
      FreeCell(S, p, q, m.to);
      MoveStone(q, m);
      if hashed {
        hash := mix(mix(hash, key(q, m.from)), key(q, m.to));
        if IsXor(mix) { HashMoveOwn(mix, key, p, q, m, seed); }
      }
      if IsCapture(m) {
        var x := Mirror(S, Middle(m));
        CapturedStone(S, p, q, m);
        ghost var n := pos;
        CaptureStone(q.Opponent(), x);
        if hashed {
          hash := mix(hash, key(q.Opponent(), x));
          if IsXor(mix) { HashTakeOwn(mix, key, n, q.Opponent(), x, seed); }
        }
      }
    }

    /** `leftMove` and `rightMove` from a stone of `q`; `None` stands for the invalid move. */
    function Forward(q: Player, l: Loc, left: bool): (m: Option<Move>)
      requires Shaped() && Show(pos) && q.Occupied() && Hex(S, l) && l in Own(pos, q)
      reads this, toId, toLoc, agentBoard, humanBoard
      ensures m == MoveFrom(S, pos, q, l, left)
    {
      AheadOnBoard(S, l, left);
      var to := Ahead(l, left, 1);
      var x := Look(q, to);
      if x == Vacant then Some(Move(l, to))
      else if x == Look(q, l).Opponent() then
        if Look(q, Ahead(l, left, 2)) == Vacant then Some(Move(l, Ahead(l, left, 2))) else None
      else None
    }

    function Ids(q: Player): seq<int>
      reads this
    {
      if q == Agent then agentIds else humanIds
    }

    /** The looks to the left and to the right from the `i`-th listed stone of `q`. */
    method LookBothWays(q: Player, i: nat, ghost ls: seq<Loc>) returns (ms: seq<Move>)
      requires Rep() && q.Occupied() && i < |Ids(q)| && ls == CellsOf(S, q, Ids(q))
      ensures MovesOf(S, pos, q, ls[..i + 1]) == MovesOf(S, pos, q, ls[..i]) + ms
    {
      hide Hex, Tables, Listed, Stones, Home, HasMove, See, Legal, MoveFrom, Cells, MovesOf, Forward;
      ListMovesExact(S, pos, q, Ids(q));
      MovesStep(S, pos, q, ls, i);
      var l := LocAt(q, Ids(q)[i]);
      LocIsCell(S, q, Ids(q)[i]);
      ms := AsSeq(Forward(q, l, true)) + AsSeq(Forward(q, l, false));
    }

    /** `moves`: nothing for a won game; otherwise exactly the legal moves of the player to move,
        each once and never more than the `2S` the list has room for. */
    method Moves() returns (more: bool, ms: seq<Move>)
      requires Valid()
      ensures more <==> winner == Invalid
      ensures more ==> ms != [] && |ms| <= 2 * S && NoRepeats(ms)
      ensures more ==> forall m :: m in ms <==> Legal(S, pos, toMove, m)
    {
      hide Hex, Tables, Listed, Stones, Home, HasMove, See, Legal, MoveFrom, Cells, Show, MovesOf, CellsOf;
      ms := [];
      if winner.Occupied() {
        return false, ms;
      }
      var q := toMove;
      ghost var ls := CellsOf(S, q, Ids(q));
      CellsLength(S, q, Ids(q));
      NoCellsNoMoves(S, pos, q, ls);
      ListMovesExact(S, pos, q, Ids(q));
      for i := 0 to |Ids(q)|
        invariant ms == MovesOf(S, pos, q, ls[..i])
      {
        var ns := LookBothWays(q, i, ls);
        ms := ms + ns;
      }
      assert ls[..|ls|] == ls;
      more := |ms| != 0;
    }

    /** `hasMoves`: the same search, stopped at the first move. */
    method HasMoves(q: Player) returns (b: bool)
      requires Rep() && q.Occupied()
      ensures b <==> HasMove(S, pos, q)
    {
      hide Hex, Tables, Listed, Stones, Home, HasMove, See, Legal, MoveFrom, Cells, Show, MovesOf, CellsOf;
      ghost var ls := CellsOf(S, q, Ids(q));
      CellsLength(S, q, Ids(q));
      NoCellsNoMoves(S, pos, q, ls);
      ListMovesExact(S, pos, q, Ids(q));
      for i := 0 to |Ids(q)|
        invariant MovesOf(S, pos, q, ls[..i]) == []
      {
        var ns := LookBothWays(q, i, ls);
        if ns != [] {
          MovesGrow(S, pos, q, ls, i + 1);
          return true;
        }
      }
      assert ls[..|ls|] == ls;
      return false;
    }

    /** `randomMove`: tries the stones and, for each, the two sides in random order. It comes back
        empty-handed just when there is no move, and any move it brings is legal. */
    method RandomMove() returns (found: Option<Move>)
      requires Rep() && toMove.Occupied()
      ensures if found == None then !HasMove(S, pos, toMove) else Legal(S, pos, toMove, found.value)
    {
      hide Hex, Tables, Listed, Stones, Home, HasMove, See, Legal, MoveFrom, MovesOf, Cells, Show, Forward;
      var q, ids := toMove, Ids(toMove);
      ghost var ls := CellsOf(S, q, Ids(q));
      ListMovesExact(S, pos, q, Ids(q));
      while |ids| != 0
        invariant forall id | id in ids :: id in Ids(q)
        invariant forall k | 0 <= k < |Ids(q)| && Ids(q)[k] !in ids :: Stuck(S, pos, q, ls[k])
        decreases |ids|
      {
        var i :| 0 <= i < |ids|;
        var id := ids[i];
        assert id in ids;
        ghost var k :| 0 <= k < |Ids(q)| && Ids(q)[k] == id;
        var l := LocAt(q, id);
        LocIsCell(S, q, id);
        assert l == ls[k];
        var coin: bool := *;
        FoundIsLegal(S, pos, q, l, coin);
        FoundIsLegal(S, pos, q, l, !coin);
        found := Forward(q, l, coin);
        if found != None { return; }
        found := Forward(q, l, !coin);
        if found != None { return; }
        EraseKeeps(ids, i);
        forall n | 0 <= n < |Ids(q)| && Ids(q)[n] !in ids[..i] + ids[i + 1..] ensures Stuck(S, pos, q, ls[n]) {
          assert Ids(q)[n] in ids ==> ls[n] == ls[k];
        }
        ids := ids[..i] + ids[i + 1..];
      }
      NoMovesAnywhere(S, pos, q, ls);
      found := None;
    }

    function Zobrist(): (z: W)
      reads this
      ensures HashExact() ==> z == mix(StoneHash(mix, key, pos, seed), sideKey(toMove))
    {
      mix(hash, sideKey(toMove))
    }

    /** `haveRemainingHome`. */
    predicate RemainingHome(q: Player)
      requires Rep() && q.Occupied()
      reads this, toId, toLoc, agentBoard, humanBoard
      ensures RemainingHome(q) <==> AllHome(S, Own(pos, q))
    {
      HomeByCount(S, Own(pos, q));
      if q == Agent then noHomeAgent != 0 && noHomeAgent == |agentIds|
      else noHomeHuman != 0 && noHomeHuman == |humanIds|
    }

    /** `winner`: called after the stones moved and before the turn passes on. */
    method Winner()
      requires Rep() && toMove.Occupied() && winner == pos.winner
      modifies this`winner, this`pos
      ensures Rep() && winner == Verdict(S, old(pos), toMove) && pos == old(pos).(winner := winner)
      ensures old(winner) == Invalid ==> RightResult(S, old(pos), toMove, winner)
    {
      hide Hex, Tables, Show, Stones, HasMove, See, AllHome, RightResult;
      ghost var p := pos;
      if winner == Invalid { VerdictIsRight(S, pos, toMove); }
      var q, o := toMove, toMove.Opponent();
      if RemainingHome(q) {
        if RemainingHome(o) {
          winner := if noHomeAgent > noHomeHuman then Agent else if noHomeAgent < noHomeHuman then Human else Vacant;
        } else {
          winner := q;
        }
      } else if |Ids(o)| == 0 {
        winner := q;
      } else {
        var b := HasMoves(o);
        if !b { winner := o; }
      }
      pos := pos.(winner := winner);
      StonesOnly(p, pos);
    }

    /** What the boards and lists show does not depend on the turn or the result. */
    lemma StonesOnly(p: Position, n: Position)
      requires Shaped() && p.agent == n.agent && p.human == n.human
      ensures Show(p) ==> Show(n)
      ensures Stones(S, p) ==> Stones(S, n)
    {
      hide Tables, Hex;
    }

    /** `move_hash`: the result is left as it was. */
    method MoveHash(m: Move)
      requires Valid() && Legal(S, pos, toMove, m)
      modifies this, agentBoard, humanBoard
      ensures Rep() && pos == Shift(S, old(pos), m).(toMove := old(toMove).Opponent())
      ensures toMove == pos.toMove && winner == pos.winner && seed == old(seed)
      ensures old(HashExact()) ==> HashExact()
    {
      hide Hex, Tables, Show, Stones, HasMove, See, Listed, Home, IsXor, StoneHash, Legal;
      last := Some(m);
      Displace(m, true);
      ghost var p := pos;
      toMove := toMove.Opponent();
      pos := pos.(toMove := toMove);
      StonesOnly(p, pos);
      SameHash(mix, key, p, pos, seed);
    }

    /** `move_winner` and, with `hashed`, `move_hash_winner`: a move by the rules. */
    method MoveWinner(m: Move, hashed: bool)
      requires Valid() && !winner.Occupied() && Legal(S, pos, toMove, m)
      modifies this, agentBoard, humanBoard
      ensures Valid() && pos == Play(S, old(pos), m) && seed == old(seed)
      ensures hashed && old(HashExact()) ==> HashExact()
      ensures last == Some(m) && (!hashed ==> hash == old(hash))
    {
      hide Hex, Tables, Show, Stones, HasMove, See, Listed, Home, IsXor, StoneHash, Legal, Verdict;
      PlayKeepsGood(S, pos, m);
      last := Some(m);
      Displace(m, hashed);
      ghost var p := pos;
      Winner();
      toMove := toMove.Opponent();
      pos := pos.(toMove := toMove);
      StonesOnly(p, pos);
      SameHash(mix, key, p, pos, seed);
    }

    /** One turn of the play-out loop: generate the moves and play one of them, if there is any. */
    method RandomPly() returns (moved: bool, ghost m: Move)
      requires Valid()
      modifies this, agentBoard, humanBoard
      ensures Valid() && moved == (old(winner) == Invalid) && hash == old(hash) && seed == old(seed)
      ensures if moved then Legal(S, old(pos), old(pos).toMove, m) && pos == Play(S, old(pos), m) else pos == old(pos)
    {
      hide Rep, Good, Legal, Play;
      var more, ms := Moves();
      moved, m := more, Move(Loc(0, 0), Loc(0, 0));
      if more {
        var i :| 0 <= i < |ms|;
        assert ms[i] in ms;
        m := ms[i];
        MoveWinner(ms[i], false);
      }
    }

    /** A random play-out is a game by the rules; it ends with a result, within as many plies as
        the stones of both sides are steps away from home. */
    method Simulate() returns (ghost ps: seq<Position>, ghost ms: seq<Move>)
      requires Valid()
      modifies this, agentBoard, humanBoard
      ensures Valid() && winner != Invalid && hash == old(hash) && seed == old(seed)
      ensures Game(S, ps, ms) && ps[0] == old(pos) && ps[|ms|] == pos
      ensures |ms| <= Distance(S, old(pos)) - Distance(S, pos)
    {
      hide Rep, Legal, Play, Distance, HasMove, Stones, Game;
      ps, ms := [pos], [];
      GameStarts(S, pos);
      var more := true;
      while more
        invariant Valid() && (!more ==> winner != Invalid) && hash == old(hash) && seed == old(seed)
        invariant |ps| == |ms| + 1 && Game(S, ps, ms) && ps[0] == old(pos) && ps[|ms|] == pos
        invariant |ms| <= Distance(S, old(pos)) - Distance(S, pos)
        decreases more, Distance(S, pos)
      {
        ghost var m;
        ghost var p := pos;
        more, m := RandomPly();
        if more {
          GameGrows(S, ps, ms, m);
          ps, ms := ps + [pos], ms + [m];
        }
        DistanceNonNegative(S, pos);
      }
    }
  }
}
