/** A match between two searches, as the main program plays it. */
module SearchMatch {
  import opened Players
  import opened Lists
  import opened Graphs
  import opened SearchTree
  import opened SearchRun
  import opened MctsSearch

  /** One move of a match: the trees that the search went through, whether it went on with a tree that
      was kept, and the number of its player's move before, -1 if there was none. */
  datatype Ply<S, M> = Ply(run: seq<Snapshot<S, M>>, kept: bool, prev: int)

  /** The play-outs of the `n`-th move. */
  function OfPly<S>(playOut: (int, int, S, int) -> Player, n: int): PlayOut<S> {
    (it: int, s: S, k: int) => playOut(n, it, s, k)
  }

  /** What a player's search ended with at its last move, if it has made one. */
  ghost function Ended<S, M>(plies: seq<Ply<S, M>>, j: int): Option<Snapshot<S, M>> {
    if 0 <= j < |plies| && |plies[j].run| > 0 then Some(plies[j].run[|plies[j].run| - 1]) else None
  }

  /** Move `j` is the last one before `n` by player `agent`; -1 if there is none. */
  ghost predicate LastBy<S>(agentToMove: S -> bool, states: seq<S>, n: int, agent: bool, j: int)
    requires n <= |states|
  {
    && -1 <= j < n && (j >= 0 ==> agentToMove(states[j]) == agent)
    && forall k | j < k < n && 0 <= k :: agentToMove(states[k]) != agent
  }

  /** A search starts from scratch if its player has not moved before, and else with what its last tree
      holds below the position. */
  ghost predicate StartsFrom<S, M>(g: Game<S, M>, held: Option<Snapshot<S, M>>, s: S, x: Snapshot<S, M>, kept: bool) {
    match held
    case None => !kept && x == FreshSnapshot(g, s)
    case Some(y) => GoesOnWith(g, y, s, x, kept)
  }

  /** The parameters of a match. */
  datatype Setting<!S, !M> = Setting(ended: S -> bool, agentToMove: S -> bool,
                                     agentIterations: int, humanIterations: int,
                                     uct: Score<M>, playOut: (int, int, S, int) -> Player) {
    function Iterations(s: S): int { if agentToMove(s) then agentIterations else humanIterations }
  }

  ghost predicate PlyOk<S(!new), M(!new)>(g: Game<S, M>, w: Setting<S, M>, states: seq<S>, plies: seq<Ply<S, M>>,
                                          i: int)
    requires 0 <= i < |plies| && |states| == |plies| + 1
  {
    var p, s := plies[i], states[i];
    && !w.ended(s) && |p.run| == 1 + (if w.agentToMove(s) then w.agentIterations else w.humanIterations) && |p.run| > 0
    && IsTurn(g, w.uct, OfPly(w.playOut, i), w.Iterations(s), p.kept, p.run, s, states[i + 1])
    && LastBy(w.agentToMove, states, i, w.agentToMove(s), p.prev)
    && StartsFrom(g, Ended(plies, p.prev), s, p.run[0], p.kept)
  }

  /** Every move is the result of a search of the full number of iterations, which starts where the
      last search of the same player left off; only the last position may end the match. */
  ghost predicate IsMatch<S(!new), M(!new)>(g: Game<S, M>, w: Setting<S, M>, states: seq<S>, plies: seq<Ply<S, M>>) {
    |states| == |plies| + 1 && forall i | 0 <= i < |plies| :: PlyOk(g, w, states, plies, i)
  }

  // ----- The two searches between moves

  /** The search is as its last move left it. */
  ghost predicate Keeps<S(!new), M(!new)>(o: Mcts<S, M>, held: Option<Snapshot<S, M>>)
    reads o
  {
    match held
    case None => o.notInitialized
    case Some(x) => !o.notInitialized && o.Snap() == x
  }

  /** The search has been cut down to the position. */
  ghost predicate Ready<S(!new), M(!new)>(o: Mcts<S, M>, held: Option<Snapshot<S, M>>, s: S)
    reads o
  {
    && o.StartsAt(s)
    && match held
       case None => o.notInitialized
       case Some(x) =>
         && (o.notInitialized <==> s !in x.pos)
         && (!o.notInitialized ==> exists olds :: CutDown(o.g, x, s, o.Snap(), olds))
  }

  /** The search goes on with what it holds below the position. */
  method CutTo<S(!new, ==), M(!new, ==)>(o: Mcts<S, M>, s: S, ghost held: Option<Snapshot<S, M>>)
      returns (o': Mcts<S, M>)
    requires o.Valid() && Sound(o.g) && o.g.inPlay(s) && Keeps(o, held)
    ensures fresh(o') && o'.Valid() && o'.g == o.g && Ready(o', held, s)
  {
    hide Sound, Structure, Ranked, Counted, CutDown;
    ghost var olds;
    o', olds := o.Prune(s);
  }

  /** One turn of a match: the search computes a move, which is played. */
  method Turn<S(!new, ==), M(!new, ==)>(o: Mcts<S, M>, s: S, iterations: int, uct: Score<M>, playOut: PlayOut<S>,
                                        ghost held: Option<Snapshot<S, M>>)
      returns (next: S, ghost run: seq<Snapshot<S, M>>, ghost kept: bool)
    requires o.Valid() && Sound(o.g) && o.g.inPlay(s) && Ready(o, held, s)
    requires iterations > 0 && o.g.moves(s) != []
    modifies o
    ensures o.Valid() && |run| == 1 + iterations && Keeps(o, Some(run[|run| - 1]))
    ensures IsTurn(o.g, uct, playOut, iterations, kept, run, s, next) && StartsFrom(o.g, held, s, run[0], kept)
    ensures o.g.inPlay(next) && o.g.rank(next) < o.g.rank(s)
  {
    hide Sound, Structure, Ranked, Counted, CutDown, IsSearch;
    kept := !o.notInitialized;
    var r;
    r, run := o.Compute(s, iterations, uct, playOut);
    MoveStaysInPlay(o.g, s, r.value);
    next := o.g.next(s, r.value);
  }

  lemma MoveStaysInPlay<S(!new), M(!new)>(g: Game<S, M>, s: S, m: M)
    requires Sound(g) && g.inPlay(s) && m in g.moves(s)
    ensures g.inPlay(g.next(s, m)) && g.rank(g.next(s, m)) < g.rank(s)
  {
  }

  // ----- The match

  /** A match between two searches: the one to move computes a move, the position moves on, and the
      search that is to move next is cut down to the new position. The match comes to an end. */
  method Match<S(!new, ==), M(!new, ==)>(g: Game<S, M>, w: Setting<S, M>, start: S)
      returns (states: seq<S>, ghost plies: seq<Ply<S, M>>)
    requires Sound(g) && g.inPlay(start) && !w.ended(start) && w.agentIterations > 0 && w.humanIterations > 0
    requires forall s | g.inPlay(s) && !w.ended(s) :: g.moves(s) != []
    ensures IsMatch(g, w, states, plies) && states[0] == start && |states| > 1 && w.ended(states[|states| - 1])
  {
    hide Sound, Structure, Ranked, Counted, IsMatch, IsTurn, StartsFrom, LastBy, Ended, Keeps, Ready;
    var agent: Mcts<S, M> := new Mcts(g);
    var human: Mcts<S, M> := new Mcts(g);
    ghost var lastAgent, lastHuman := -1, -1;
    var s := start;
    states, plies := [start], [];
    MatchStarts(g, w, start, agent, human);
    while !w.ended(s)
      invariant agent.Valid() && human.Valid() && agent != human && agent.g == human.g == g
      invariant fresh(agent) && fresh(human)
      invariant g.inPlay(s) && IsMatch(g, w, states, plies) && |states| == |plies| + 1
      invariant states[0] == start && states[|plies|] == s && (plies == [] ==> s == start)
      invariant LastBy(w.agentToMove, states, |plies|, true, lastAgent)
      invariant LastBy(w.agentToMove, states, |plies|, false, lastHuman)
      invariant if w.agentToMove(s) then Ready(agent, Ended(plies, lastAgent), s)
                else Keeps(agent, Ended(plies, lastAgent))
      invariant if w.agentToMove(s) then Keeps(human, Ended(plies, lastHuman))
                else Ready(human, Ended(plies, lastHuman), s)
      decreases g.rank(s)
    {
      ghost var run, kept;
      ghost var n, prev := |plies|, if w.agentToMove(s) then lastAgent else lastHuman;
      var next;
      next, run, kept := Turn(if w.agentToMove(s) then agent else human, s, w.Iterations(s), w.uct,
                              OfPly(w.playOut, |states| - 1), Ended(plies, prev));
      ghost var p := Ply(run, kept, prev);
      MatchGoesOn(g, w, states, plies, next, p);
      LastByStep(w.agentToMove, states, next, lastAgent, true);
      LastByStep(w.agentToMove, states, next, lastHuman, false);
      EndedStep(plies, p, lastAgent);
      EndedStep(plies, p, lastHuman);
      if w.agentToMove(s) { lastAgent := n; } else { lastHuman := n; }
      states, plies := states + [next], plies + [p];
      s := next;
      if w.agentToMove(s) {
        agent := CutTo(agent, s, Ended(plies, lastAgent));
      } else {
        human := CutTo(human, s, Ended(plies, lastHuman));
      }
    }
  }

  lemma MatchStarts<S(!new), M(!new)>(g: Game<S, M>, w: Setting<S, M>, s: S, agent: Mcts<S, M>, human: Mcts<S, M>)
    requires agent.notInitialized && human.notInitialized
    ensures IsMatch(g, w, [s], [])
    ensures LastBy(w.agentToMove, [s], 0, true, -1) && LastBy(w.agentToMove, [s], 0, false, -1)
    ensures Ended<S, M>([], -1) == None
    ensures Keeps(agent, None) && Keeps(human, None) && Ready(agent, None, s) && Ready(human, None, s)
  {
  }

  lemma LastByStep<S>(agentToMove: S -> bool, states: seq<S>, s: S, j: int, agent: bool)
    requires |states| > 0 && LastBy(agentToMove, states, |states| - 1, agent, j)
    ensures -1 <= j < |states| - 1
    ensures var n := |states| - 1;
            LastBy(agentToMove, states + [s], n + 1, agent, if agentToMove(states[n]) == agent then n else j)
  {
  }

  /** A further move changes nothing about the earlier ones, and is the last one of its player. */
  lemma EndedStep<S, M>(plies: seq<Ply<S, M>>, p: Ply<S, M>, j: int)
    requires -1 <= j < |plies| && |p.run| > 0
    ensures Ended(plies + [p], j) == Ended(plies, j) && Ended(plies + [p], |plies|) == Some(p.run[|p.run| - 1])
  {
  }

  lemma MatchGoesOn<S(!new), M(!new)>(g: Game<S, M>, w: Setting<S, M>, states: seq<S>, plies: seq<Ply<S, M>>, s: S,
                                      p: Ply<S, M>)
    requires IsMatch(g, w, states, plies) && |states| == |plies| + 1
    requires var n := |plies|;
             && !w.ended(states[n]) && |p.run| > 0
             && |p.run| == 1 + (if w.agentToMove(states[n]) then w.agentIterations else w.humanIterations)
             && IsTurn(g, w.uct, OfPly(w.playOut, n), w.Iterations(states[n]), p.kept, p.run, states[n], s)
             && LastBy(w.agentToMove, states, n, w.agentToMove(states[n]), p.prev)
             && StartsFrom(g, Ended(plies, p.prev), states[n], p.run[0], p.kept)
    ensures IsMatch(g, w, states + [s], plies + [p])
  {
    hide IsTurn, StartsFrom;
    forall i | 0 <= i <= |plies| ensures PlyOk(g, w, states + [s], plies + [p], i) {
      if i < |plies| { assert PlyOk(g, w, states, plies, i); }
    }
  }

  /** Every move of a match is legal. */
  lemma TurnIsMove<S(!new), M(!new)>(g: Game<S, M>, w: Setting<S, M>, states: seq<S>, plies: seq<Ply<S, M>>, i: int)
      returns (m: M)
    requires IsMatch(g, w, states, plies) && 0 <= i < |plies|
    ensures m in g.moves(states[i]) && states[i + 1] == g.next(states[i], m)
  {
    hide IsSearch, LastBy, StartsFrom, Structure, Ranked, Counted;
    assert PlyOk(g, w, states, plies, i);
    var x := plies[i].run[|plies[i].run| - 1];
    var k :| BestChild(x.tree, k) && x.tree.out[0][k].data in g.moves(states[i])
             && states[i + 1] == g.next(states[i], x.tree.out[0][k].data);
    m := x.tree.out[0][k].data;
  }
}
