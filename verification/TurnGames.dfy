/** Two-player games as the Python search sees them, and Nim. */
module TurnGames {

  /** The players are numbered one and two. */
  type Turn = p: int | p == 1 || p == 2 witness 1

  /** The legal moves of a state, the state after a move, the player who just moved, the result of a
      finished game for a player, and a rank that every move lowers. */
  datatype Game<!S, !M> = Game(moves: S -> seq<M>, next: (S, M) -> S, justMoved: S -> Turn, result: (S, Turn) -> real,
                               rank: S -> nat)

  /** Players take turns, and every play comes to an end. */
  ghost predicate TakeTurns<S(!new), M(!new)>(g: Game<S, M>) {
    forall s, m | m in g.moves(s) :: g.justMoved(g.next(s, m)) == 3 - g.justMoved(s) && g.rank(g.next(s, m)) < g.rank(s)
  }

  /** The results of the two players lie between zero and one and sum to one. */
  ghost predicate ResultsSumToOne<S(!new), M>(g: Game<S, M>) {
    forall s, p: Turn | g.moves(s) == [] :: 0.0 <= g.result(s, p) <= 1.0 && g.result(s, p) + g.result(s, 3 - p) == 1.0
  }

  // ----- Plays

  ghost predicate IsStep<S, M>(g: Game<S, M>, s: S, t: S) {
    exists m :: m in g.moves(s) && t == g.next(s, m)
  }

  ghost predicate IsTrace<S, M>(g: Game<S, M>, states: seq<S>) {
    |states| > 0 && forall i | 0 <= i < |states| - 1 :: IsStep(g, states[i], states[i + 1])
  }

  /** Legal moves lead from `s` to `t`. */
  ghost predicate Reaches<S(!new), M>(g: Game<S, M>, s: S, t: S) {
    exists states :: IsTrace(g, states) && states[0] == s && states[|states| - 1] == t
  }

  lemma TraceGrows<S, M>(g: Game<S, M>, states: seq<S>, m: M)
    requires IsTrace(g, states) && m in g.moves(states[|states| - 1])
    ensures IsTrace(g, states + [g.next(states[|states| - 1], m)])
  {
    assert IsStep(g, states[|states| - 1], g.next(states[|states| - 1], m));
  }

  // ----- Nim

  datatype Nim = Nim(chips: nat, justMoved: Turn)

  /** The numbers from one to `n`. */
  function OneTo(n: nat): (r: seq<nat>)
    ensures forall m :: m in r <==> 1 <= m <= n
    ensures |r| == n && forall i | 0 <= i < n :: r[i] == i + 1
  {
    if n == 0 then [] else OneTo(n - 1) + [n]
  }

  /** One, two or three chips, as far as there are that many. */
  function NimMoves(s: Nim): seq<nat> {
    OneTo(if s.chips + 1 < 4 then s.chips else 3)
  }

  lemma NimMovesExact(s: Nim)
    ensures forall m :: m in NimMoves(s) <==> 1 <= m <= 3 && m <= s.chips
  {
  }

  function NimNext(s: Nim, m: nat): Nim {
    Nim(if m <= s.chips then s.chips - m else 0, 3 - s.justMoved)
  }

  function NimResult(s: Nim, player: Turn): real {
    if s.justMoved == player then 1.0 else 0.0
  }

  function NimGame(): Game<Nim, nat> {
    Game(NimMoves, NimNext, (s: Nim) => s.justMoved, NimResult, (s: Nim) => s.chips)
  }

  lemma NimIsFair()
    ensures TakeTurns(NimGame()) && ResultsSumToOne(NimGame())
  {
  }

  /** The player to move can force taking the last chip. */
  ghost predicate NimWins(s: Nim)
    decreases s.chips
  {
    exists m | m in NimMoves(s) :: !NimWins(NimNext(s, m))
  }

  /** Player `p` can force a play to end in a result of one for `p`. */
  ghost predicate CanForce(s: Nim, p: Turn)
    decreases s.chips
  {
    if s.chips == 0 then NimResult(s, p) == 1.0
    else if s.justMoved == p then forall m | m in NimMoves(s) :: CanForce(NimNext(s, m), p)
    else exists m | m in NimMoves(s) :: CanForce(NimNext(s, m), p)
  }

  /** To win is to take the last chip: the player to move can force a result of one exactly if it wins,
      and the other player exactly if it does not. */
  lemma {:induction false} NimForced(s: Nim)
    ensures CanForce(s, 3 - s.justMoved) <==> NimWins(s)
    ensures CanForce(s, s.justMoved) <==> !NimWins(s)
    decreases s.chips
  {
    hide NimMoves;
    NimMovesExact(s);
    forall m | m in NimMoves(s)
      ensures CanForce(NimNext(s, m), 3 - s.justMoved) <==> !NimWins(NimNext(s, m))
      ensures CanForce(NimNext(s, m), s.justMoved) <==> NimWins(NimNext(s, m))
    {
      NimForced(NimNext(s, m));
    }
    if s.chips > 0 { assert 1 in NimMoves(s); }
  }

  /** The player to move wins exactly if the number of chips is not a multiple of four, and then by
      taking the remainder. */
  lemma {:induction false} NimValue(s: Nim)
    ensures NimWins(s) <==> s.chips % 4 != 0
    ensures s.chips % 4 != 0 ==> s.chips % 4 in NimMoves(s) && !NimWins(NimNext(s, s.chips % 4))
    decreases s.chips
  {
    hide NimMoves;
    NimMovesExact(s);
    forall m | m in NimMoves(s) ensures NimWins(NimNext(s, m)) <==> (s.chips - m) % 4 != 0 {
      NimValue(NimNext(s, m));
    }
    var k := s.chips % 4;
    assert k != 0 ==> k in NimMoves(s) && !NimWins(NimNext(s, k));
  }
}
