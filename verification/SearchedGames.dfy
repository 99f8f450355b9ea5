/** Oska and Connect Four are games as the Monte Carlo tree search demands them: ranks fall with every
    move, legal moves lead from game positions to game positions, and a game without a result goes on.
    What is assumed is only that no two positions of the game have the same hash key. */
module SearchedGames {
  import opened Players
  import opened Lists
  import opened Bits
  import opened Words
  import opened SearchTree
  import opened SearchRun
  import opened SearchMatch
  import OskaBoard
  import O = OskaRules
  import OskaLayout
  import C4 = ConnectFourRules
  import ConnectFourState
  import ConnectFourTotals

  /** What a match between two searches needs beyond a sound game. */
  ghost predicate GoesOn<S(!new), M>(g: Game<S, M>, ended: S -> bool) {
    forall s | g.inPlay(s) && !ended(s) :: g.moves(s) != []
  }

  ghost predicate Injective<S(!new)>(hash: S -> int, inPlay: S -> bool) {
    forall s, t | inPlay(s) && inPlay(t) && hash(s) == hash(t) :: s == t
  }

  // ----- Oska

  /** The position occurs in a game. */
  ghost predicate InOska(S: int, p: O.Position) {
    exists ps, ms :: O.Game(S, ps, ms) && O.Start(S, ps[0]) && p == ps[|ms|]
  }

  /** The members of a set in some order. */
  ghost function Listing<T(!new)>(s: set<T>): (l: seq<T>)
    ensures NoRepeats(l) && |l| == |s| && forall x :: x in l <==> x in s
  {
    if s == {} then []
    else
      var x :| x in s;
      JoinNoRepeats([x], Listing(s - {x}));
      [x] + Listing(s - {x})
  }

  /** The legal moves of an open game, and none of a finished one. */
  ghost function OskaMoves(S: int, p: O.Position): seq<O.Move> {
    if p.toMove.Occupied() && !p.winner.Occupied()
    then OskaLayout.MovesOf(S, p, p.toMove, Listing(O.Own(p, p.toMove)))
    else []
  }

  lemma OskaMovesExact(S: int, p: O.Position)
    requires O.Stones(S, p) && p.toMove.Occupied()
    ensures NoRepeats(OskaMoves(S, p))
    ensures forall m :: m in OskaMoves(S, p) <==> !p.winner.Occupied() && O.Legal(S, p, p.toMove, m)
  {
    hide O.Stones, O.Legal, OskaLayout.MovesOf, Listing;
    OskaLayout.OwnOnBoard(S, p, p.toMove);
    OskaLayout.MovesOfExact(S, p, p.toMove, Listing(O.Own(p, p.toMove)));
    OskaLayout.LegalFrom(S, p, p.toMove);
  }

  /** The words behind the hash keys, and the constant that the start fixes. */
  datatype OskaKeys = OskaKeys(mix: Mixer<U64>, key: (Player, OskaBoard.Loc) -> U64, sideKey: Player -> U64, seed: U64)

  /** The key of a position, as `zobrist` gives it. */
  ghost function OskaKey(h: OskaKeys, p: O.Position): int {
    h.mix(O.StoneHash(h.mix, h.key, p, h.seed), h.sideKey(p.toMove))
  }

  ghost function OskaNext(S: int, p: O.Position, m: O.Move): O.Position {
    if p.toMove.Occupied() then O.Play(S, p, m) else p
  }

  ghost function OskaRank(S: int, p: O.Position): nat {
    var d := O.Distance(S, p);
    if d < 0 then 0 else d
  }

  ghost function OskaGame(S: int, h: OskaKeys): Game<O.Position, O.Move> {
    Game((p: O.Position) => OskaMoves(S, p), (p: O.Position, m: O.Move) => OskaNext(S, p, m),
         (p: O.Position) => OskaKey(h, p),
         (p: O.Position) => if p.toMove.Occupied() then p.toMove.Opponent() else Invalid,
         (p: O.Position) => OskaRank(S, p), (p: O.Position) => InOska(S, p))
  }

  lemma OskaInPlay(S: int, p: O.Position)
    requires S >= 4 && InOska(S, p)
    ensures O.Good(S, p) && O.Distance(S, p) >= 0
  {
    hide O.Good, O.Start, O.Distance;
    var ps, ms :| O.Game(S, ps, ms) && O.Start(S, ps[0]) && p == ps[|ms|];
    O.GamesAreGoodAndShort(S, ps, ms);
  }

  lemma OskaStep(S: int, p: O.Position, m: O.Move)
    requires S >= 4 && InOska(S, p) && p.toMove.Occupied() && !p.winner.Occupied() && O.Legal(S, p, p.toMove, m)
    ensures InOska(S, O.Play(S, p, m))
    ensures 0 <= O.Distance(S, O.Play(S, p, m)) < O.Distance(S, p)
  {
    hide O.Good, O.Start, O.Distance, O.Legal, O.Play;
    OskaInPlay(S, p);
    var ps, ms :| O.Game(S, ps, ms) && O.Start(S, ps[0]) && p == ps[|ms|];
    OskaLayout.GameGrows(S, ps, ms, m);
    var n := O.Play(S, p, m);
    assert (ps + [n])[0] == ps[0] && (ps + [n])[|ms + [m]|] == n;
  }

  lemma OskaCanGoOn(S: int, p: O.Position)
    requires O.Good(S, p)
    ensures p.toMove.Occupied() && O.Stones(S, p)
    ensures p.winner == Invalid ==> exists m :: O.Legal(S, p, p.toMove, m)
  {
  }

  /** The search is sound on Oska, and a match of two searches comes to its end there. */
  lemma OskaIsSound(S: int, h: OskaKeys)
    requires S >= 4 && Injective((p: O.Position) => OskaKey(h, p), (p: O.Position) => InOska(S, p))
    ensures Sound(OskaGame(S, h)) && GoesOn(OskaGame(S, h), (p: O.Position) => p.winner != Invalid)
  {
    hide O.Good, O.Distance, O.Legal, O.Play, InOska, OskaMoves, OskaKey, O.Stones;
    var g := OskaGame(S, h);
    forall p | g.inPlay(p)
      ensures NoRepeats(g.moves(p)) && (p.winner == Invalid ==> g.moves(p) != [])
      ensures forall m | m in g.moves(p) :: g.rank(g.next(p, m)) < g.rank(p) && g.inPlay(g.next(p, m))
    {
      OskaInPlay(S, p);
      OskaCanGoOn(S, p);
      OskaMovesExact(S, p);
      forall m | m in g.moves(p) ensures g.rank(g.next(p, m)) < g.rank(p) && g.inPlay(g.next(p, m)) {
        OskaStep(S, p, m);
      }
      if p.winner == Invalid {
        var m :| O.Legal(S, p, p.toMove, m);
        assert m in OskaMoves(S, p);
      }
    }
    forall s, t | g.inPlay(s) && g.inPlay(t) && g.hash(s) == g.hash(t) ensures s == t {
      assert InOska(S, s) && InOska(S, t) && OskaKey(h, s) == OskaKey(h, t);
    }
  }

  /** `move_hash` leaves the recorded result behind; wherever a descent goes on from the new position,
      nothing lags. */
  lemma OskaDescentInStep(S: int, p: O.Position, m: O.Move)
    requires S >= 4 && InOska(S, p) && p.toMove.Occupied() && m in OskaMoves(S, p)
    requires OskaMoves(S, O.Play(S, p, m)) != []
    ensures O.Play(S, p, m) == O.Shift(S, p, m).(toMove := p.toMove.Opponent())
  {
    hide InOska, OskaMoves, O.Verdict, O.Legal;
    var q := O.Play(S, p, m);
    OskaInPlay(S, p);
    OskaMovesExact(S, p);
    OskaStep(S, p, m);
    OskaInPlay(S, q);
    OskaMovesExact(S, q);
    assert OskaMoves(S, q)[0] in OskaMoves(S, q);
    assert p.winner == Invalid && q.winner == Invalid;
  }

  /** The player that a position records as the last to move is the one who made the move. */
  lemma OskaRecordsMover(S: int, h: OskaKeys, p: O.Position, m: O.Move)
    requires S >= 4 && InOska(S, p) && m in OskaMoves(S, p)
    ensures OskaGame(S, h).justMoved(OskaGame(S, h).next(p, m)) == p.toMove
    ensures OskaGame(S, h).justMoved(p).Occupied() && OskaGame(S, h).justMoved(p) != p.toMove
  {
    hide InOska, OskaMoves, O.Verdict, O.Shift;
    OskaInPlay(S, p);
  }

  /** A move of the search goes on with the game by the rules. */
  lemma OskaChoice(S: int, h: OskaKeys, ps: seq<O.Position>, ms: seq<O.Move>, m: O.Move, t: O.Position)
    requires S >= 4 && O.Game(S, ps, ms) && O.Start(S, ps[0])
    requires m in OskaMoves(S, ps[|ms|]) && t == OskaNext(S, ps[|ms|], m)
    ensures O.Game(S, ps + [t], ms + [m])
  {
    hide O.Distance, O.Legal, O.Play, O.Good, O.Start, O.Stones, OskaMoves;
    assert InOska(S, ps[|ms|]);
    OskaInPlay(S, ps[|ms|]);
    OskaCanGoOn(S, ps[|ms|]);
    OskaMovesExact(S, ps[|ms|]);
    OskaLayout.GameGrows(S, ps, ms, m);
  }

  /** The positions of a match are those of a game by the rules. */
  lemma OskaMatchIsGame(S: int, h: OskaKeys, w: Setting<O.Position, O.Move>, states: seq<O.Position>,
                        plies: seq<Ply<O.Position, O.Move>>) returns (ms: seq<O.Move>)
    requires S >= 4 && IsMatch(OskaGame(S, h), w, states, plies) && O.Start(S, states[0])
    ensures O.Game(S, states, ms)
  {
    hide O.Distance, O.Legal, O.Play, O.Good, O.Start, O.Game, PlyOk, OskaMoves, OskaNext;
    var n := 0;
    ms := [];
    O.StartIsGood(S, states[0]);
    OskaLayout.GameStarts(S, states[0]);
    assert states[..1] == [states[0]];
    while n < |plies|
      invariant 0 <= n == |ms| <= |plies| && O.Game(S, states[..n + 1], ms)
    {
      var m := TurnIsMove(OskaGame(S, h), w, states, plies, n);
      OskaChoice(S, h, states[..n + 1], ms, m, states[n + 1]);
      assert states[..n + 2] == states[..n + 1] + [states[n + 1]];
      ms, n := ms + [m], n + 1;
    }
    assert states[..|plies| + 1] == states;
  }

  /** Two searches play Oska from the start: they play a game by the rules, which ends with a result
      after at most `2S(2S - 4)` plies, and every move is the result of a full search. */
  method OskaMatch(S: int, g: Game<O.Position, O.Move>, w: Setting<O.Position, O.Move>, start: O.Position,
                   ghost h: OskaKeys)
      returns (states: seq<O.Position>, ghost ms: seq<O.Move>, ghost plies: seq<Ply<O.Position, O.Move>>)
    requires S >= 4 && g == OskaGame(S, h) && O.Start(S, start)
    requires Injective((p: O.Position) => OskaKey(h, p), (p: O.Position) => InOska(S, p))
    requires w.ended == ((p: O.Position) => p.winner != Invalid) && w.agentIterations > 0 && w.humanIterations > 0
    ensures O.Game(S, states, ms) && states[0] == start && 0 < |ms| <= 2 * S * (2 * S - 4)
    ensures states[|ms|].winner != Invalid && IsMatch(g, w, states, plies)
  {
    hide O.Distance, O.Legal, O.Play, O.Good, Sound, Injective, IsMatch;
    OskaIsSound(S, h);
    StartInOska(S, start);
    states, plies := Match(g, w, start);
    ms := OskaMatchIsGame(S, h, w, states, plies);
    O.GamesAreGoodAndShort(S, states, ms);
  }

  lemma StartInOska(S: int, p: O.Position)
    requires S >= 4 && O.Start(S, p)
    ensures InOska(S, p)
  {
    O.StartIsGood(S, p);
    OskaLayout.GameStarts(S, p);
    var ms: seq<O.Move> := [];
    assert O.Game(S, [p], ms) && p == [p][|ms|];
  }

  // ----- Connect Four

  /** The position occurs in a game; the note of the last column, which the key does not cover, is left out. */
  ghost predicate InConnectFour(rows: nat, cols: nat, p: C4.Position) {
    exists ps: seq<C4.Position>, cs: seq<int> ::
      C4.Game(ps, cs) && C4.Start(ps[0], rows, cols) && p == ps[|cs|].(last := 0)
  }

  /** The legal columns among the first `c`. */
  ghost function ConnectFourMoves(p: C4.Position, c: nat): (l: seq<int>)
    ensures NoRepeats(l) && forall x :: x in l <==> 0 <= x < c && C4.Legal(p, x)
  {
    hide C4.Legal;
    if c == 0 then []
    else
      var here := if C4.Legal(p, c - 1) then [c - 1] else [];
      JoinNoRepeats(ConnectFourMoves(p, c - 1), here);
      ConnectFourMoves(p, c - 1) + here
  }

  datatype ConnectFourKeys = ConnectFourKeys(mix: Mixer<U64>, key: ConnectFourTotals.Keys<U64>, sideKey: Player -> U64)

  /** The key of a position, as `zobrist` gives it. */
  ghost function ConnectFourKey(h: ConnectFourKeys, p: C4.Position): int {
    h.mix(ConnectFourTotals.Hash(h.mix, h.key, p.board, h.sideKey(Vacant)), h.sideKey(p.justMoved))
  }

  ghost function ConnectFourNext(p: C4.Position, c: int): C4.Position {
    if p.justMoved.Occupied() && C4.At(p.board, 0, c) == Vacant then C4.Play(p, c).(last := 0) else p
  }

  ghost function ConnectFourRank(rows: nat, cols: nat, p: C4.Position): nat {
    var free := rows * cols - ConnectFourTotals.Count(p.board);
    if free < 0 then 0 else free
  }

  ghost function ConnectFourGame(rows: nat, cols: nat, h: ConnectFourKeys): Game<C4.Position, int> {
    Game((p: C4.Position) => ConnectFourMoves(p, cols), (p: C4.Position, c: int) => ConnectFourNext(p, c),
         (p: C4.Position) => ConnectFourKey(h, p), (p: C4.Position) => p.justMoved,
         (p: C4.Position) => ConnectFourRank(rows, cols, p), (p: C4.Position) => InConnectFour(rows, cols, p))
  }

  lemma ConnectFourInPlay(rows: nat, cols: nat, p: C4.Position)
    requires rows > 0 && cols > 0 && InConnectFour(rows, cols, p)
    ensures C4.Reachable(p, rows, cols) && p.last == 0
  {
    hide C4.Settled, C4.Outcome, C4.HasFour, C4.Start;
    var ps: seq<C4.Position>, cs: seq<int> :|
      C4.Game(ps, cs) && C4.Start(ps[0], rows, cols) && p == ps[|cs|].(last := 0);
    C4.GameResultIsExact(ps, cs, rows, cols);
    assert C4.Reachable(ps[|cs|], rows, cols);
  }

  lemma ConnectFourStep(rows: nat, cols: nat, p: C4.Position, c: int)
    requires rows > 0 && cols > 0 && InConnectFour(rows, cols, p) && C4.Legal(p, c)
    ensures InConnectFour(rows, cols, ConnectFourNext(p, c))
    ensures ConnectFourNext(p, c) == C4.Play(p, c).(last := 0)
    ensures ConnectFourRank(rows, cols, ConnectFourNext(p, c)) < ConnectFourRank(rows, cols, p)
  {
    hide C4.Settled, C4.Outcome, C4.HasFour, ConnectFourTotals.Count, C4.Start;
    ConnectFourInPlay(rows, cols, p);
    C4.PlayKeepsReachable(p, c, rows, cols);
    var q := C4.Play(p, c);
    ConnectFourTotals.CountPut(p.board, C4.Fall(p.board, c, 0), c, q.justMoved);
    ConnectFourTotals.FullByCount(q.board, rows, cols);
    ConnectFourGrows(rows, cols, p, c);
  }

  lemma ConnectFourGrows(rows: nat, cols: nat, p: C4.Position, c: int)
    requires InConnectFour(rows, cols, p) && C4.Legal(p, c) && p.justMoved.Occupied()
    ensures InConnectFour(rows, cols, C4.Play(p, c).(last := 0))
  {
    hide C4.Outcome, C4.Start, C4.Put, C4.Fall;
    var ps: seq<C4.Position>, cs: seq<int> :|
      C4.Game(ps, cs) && C4.Start(ps[0], rows, cols) && p == ps[|cs|].(last := 0);
    ConnectFourState.ExtendGame(ps, cs, c);
    var q := C4.Play(ps[|cs|], c);
    assert (ps + [q])[0] == ps[0] && (ps + [q])[|cs + [c]|] == q;
  }

  lemma ConnectFourCanGoOn(rows: nat, cols: nat, p: C4.Position)
    requires C4.Reachable(p, rows, cols)
    ensures forall c | C4.Legal(p, c) :: 0 <= c < cols
    ensures p.winner == Invalid ==> exists c :: C4.Legal(p, c)
  {
    hide C4.HasFour;
    if p.winner == Invalid {
      var r, c :| 0 <= r < |p.board| && 0 <= c < |p.board[r]| && !p.board[r][c].Occupied();
      assert C4.Legal(p, c);
    }
  }

  /** The search is sound on Connect Four, and a match of two searches comes to its end there. */
  lemma ConnectFourIsSound(rows: nat, cols: nat, h: ConnectFourKeys)
    requires rows > 0 && cols > 0
    requires Injective((p: C4.Position) => ConnectFourKey(h, p), (p: C4.Position) => InConnectFour(rows, cols, p))
    ensures Sound(ConnectFourGame(rows, cols, h))
    ensures GoesOn(ConnectFourGame(rows, cols, h), (p: C4.Position) => p.winner != Invalid)
  {
    hide InConnectFour, C4.Legal, ConnectFourNext, ConnectFourRank, ConnectFourKey, ConnectFourMoves, C4.Reachable;
    var g := ConnectFourGame(rows, cols, h);
    forall p | g.inPlay(p)
      ensures NoRepeats(g.moves(p)) && (p.winner == Invalid ==> g.moves(p) != [])
      ensures forall c | c in g.moves(p) :: g.rank(g.next(p, c)) < g.rank(p) && g.inPlay(g.next(p, c))
    {
      ConnectFourInPlay(rows, cols, p);
      ConnectFourCanGoOn(rows, cols, p);
      forall c | c in g.moves(p) ensures g.rank(g.next(p, c)) < g.rank(p) && g.inPlay(g.next(p, c)) {
        ConnectFourStep(rows, cols, p, c);
      }
      if p.winner == Invalid {
        var c :| C4.Legal(p, c);
        assert c in ConnectFourMoves(p, cols);
      }
    }
    forall s, t | g.inPlay(s) && g.inPlay(t) && g.hash(s) == g.hash(t) ensures s == t {
      assert InConnectFour(rows, cols, s) && InConnectFour(rows, cols, t);
      assert ConnectFourKey(h, s) == ConnectFourKey(h, t);
    }
  }

  /** `move_hash` leaves the recorded result behind; wherever a descent goes on from the new position,
      nothing lags. */
  lemma ConnectFourDescentInStep(p: C4.Position, c: int, cols: nat)
    requires p.justMoved.Occupied() && C4.Legal(p, c) && ConnectFourMoves(C4.Play(p, c), cols) != []
    ensures C4.Play(p, c) == C4.Play(p, c).(winner := p.winner)
  {
    hide C4.Play, ConnectFourMoves;
    var q := C4.Play(p, c);
    var l := ConnectFourMoves(q, cols);
    var x := l[0];
    assert x in l;
    assert C4.Legal(q, x);
  }

  /** The player that a position records as the last to move is the one who made the move, which is the
      other one than before: the disc that was put is of its colour. */
  lemma ConnectFourRecordsMover(rows: nat, cols: nat, h: ConnectFourKeys, p: C4.Position, c: int)
    requires rows > 0 && cols > 0 && InConnectFour(rows, cols, p) && c in ConnectFourMoves(p, cols)
    ensures var g := ConnectFourGame(rows, cols, h);
            var q := g.next(p, c);
            && g.justMoved(q).Occupied() && g.justMoved(q) != g.justMoved(p)
            && C4.At(q.board, C4.Fall(p.board, c, 0), c) == g.justMoved(q)
  {
    hide InConnectFour, ConnectFourMoves, C4.Outcome, C4.Put, C4.Fall;
    ConnectFourInPlay(rows, cols, p);
  }

  /** A legal move leads from `p` to `q`. */
  ghost predicate ConnectFourPly(rows: nat, cols: nat, p: C4.Position, q: C4.Position) {
    && C4.Reachable(p, rows, cols) && p.justMoved.Occupied()
    && exists c :: C4.Legal(p, c) && q == C4.Play(p, c).(last := 0)
  }

  lemma ConnectFourChoice(rows: nat, cols: nat, p: C4.Position, c: int, q: C4.Position)
    requires rows > 0 && cols > 0 && InConnectFour(rows, cols, p)
    requires c in ConnectFourMoves(p, cols) && q == ConnectFourNext(p, c)
    ensures ConnectFourPly(rows, cols, p, q) && InConnectFour(rows, cols, q)
    ensures ConnectFourRank(rows, cols, q) < ConnectFourRank(rows, cols, p)
  {
    hide InConnectFour, C4.Settled, C4.Outcome, C4.HasFour, C4.Play, ConnectFourRank, ConnectFourNext, ConnectFourMoves;
    ConnectFourInPlay(rows, cols, p);
    ConnectFourStep(rows, cols, p, c);
  }

  /** The positions of a match are those of a game by the rules, and there are no more moves than cells. */
  lemma ConnectFourMatchIsGame(rows: nat, cols: nat, h: ConnectFourKeys, w: Setting<C4.Position, int>,
                               states: seq<C4.Position>, plies: seq<Ply<C4.Position, int>>)
    requires rows > 0 && cols > 0 && IsMatch(ConnectFourGame(rows, cols, h), w, states, plies)
    requires InConnectFour(rows, cols, states[0])
    ensures forall i | 0 <= i < |plies| :: ConnectFourPly(rows, cols, states[i], states[i + 1])
    ensures InConnectFour(rows, cols, states[|plies|]) && |plies| <= rows * cols
  {
    hide InConnectFour, ConnectFourRank, ConnectFourPly, PlyOk, ConnectFourMoves, ConnectFourNext;
    var n := 0;
    while n < |plies|
      invariant 0 <= n <= |plies| && InConnectFour(rows, cols, states[n])
      invariant forall i | 0 <= i < n :: ConnectFourPly(rows, cols, states[i], states[i + 1])
      invariant ConnectFourRank(rows, cols, states[n]) + n <= ConnectFourRank(rows, cols, states[0])
    {
      var c := TurnIsMove(ConnectFourGame(rows, cols, h), w, states, plies, n);
      ConnectFourChoice(rows, cols, states[n], c, states[n + 1]);
      n := n + 1;
    }
    RankAtMost(rows, cols, states[0]);
  }

  lemma RankAtMost(rows: nat, cols: nat, p: C4.Position)
    ensures ConnectFourRank(rows, cols, p) <= rows * cols
  {
  }

  lemma StartInConnectFour(rows: nat, cols: nat, p: C4.Position)
    requires C4.Start(p, rows, cols) && p.last == 0
    ensures InConnectFour(rows, cols, p)
  {
    var cs: seq<int> := [];
    assert C4.Game([p], cs) && p == [p][|cs|].(last := 0);
  }

  /** Two searches play Connect Four: every move is by the rules and the result of a full search, and the
      match ends with a result, the exact one, after at most as many moves as there are cells. */
  method ConnectFourMatch(rows: nat, cols: nat, g: Game<C4.Position, int>, w: Setting<C4.Position, int>,
                          start: C4.Position, ghost h: ConnectFourKeys)
      returns (states: seq<C4.Position>, ghost plies: seq<Ply<C4.Position, int>>)
    requires rows > 0 && cols > 0 && g == ConnectFourGame(rows, cols, h)
    requires C4.Start(start, rows, cols) && start.last == 0
    requires Injective((p: C4.Position) => ConnectFourKey(h, p), (p: C4.Position) => InConnectFour(rows, cols, p))
    requires w.ended == ((p: C4.Position) => p.winner != Invalid) && w.agentIterations > 0 && w.humanIterations > 0
    ensures |states| > 1 && states[0] == start && |states| - 1 <= rows * cols && IsMatch(g, w, states, plies)
    ensures forall i | 0 <= i < |states| - 1 :: ConnectFourPly(rows, cols, states[i], states[i + 1])
    ensures var p := states[|states| - 1]; p.winner != Invalid && p.winner == C4.Outcome(p.board)
  {
    hide Sound, Injective, ConnectFourPly, C4.Outcome, C4.Settled, C4.HasFour, InConnectFour, PlyOk;
    ConnectFourIsSound(rows, cols, h);
    StartInConnectFour(rows, cols, start);
    states, plies := Match(g, w, start);
    ConnectFourMatchIsGame(rows, cols, h, w, states, plies);
    ConnectFourInPlay(rows, cols, states[|plies|]);
  }
}
