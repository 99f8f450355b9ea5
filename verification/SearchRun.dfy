/** What one iteration of the search does to a search tree, and what a whole search and a whole match
    are: runs of such iterations, step by step. */
module SearchRun {
  import opened Players
  import opened Lists
  import opened Graphs
  import opened Slicing
  import opened SearchTree

  /** A search tree, the position that each of its nodes stands for, and the transposition table. */
  datatype Snapshot<S, M> = Snapshot(tree: Tree<M>, pos: seq<S>, table: map<int, int>)

  /** The score of a child, given the data of the parent and of the child. */
  type Score<!M> = (NodeData<M>, NodeData<M>) -> real

  /** The winner of a play-out: the number of the iteration, where it starts, and its number. */
  type PlayOut<!S> = (int, S, int) -> Player

  /** The score of a finished play-out for the player who just moved. */
  function Result(winner: Player, justMoved: Player): (r: int)
    ensures -1 <= r <= 1
  {
    if winner == Vacant then 0 else if winner == justMoved then 1 else -1
  }

  ghost predicate OnTree(path: seq<int>, n: nat) {
    forall i | 0 <= i < |path| :: 0 <= path[i] < n
  }

  // ----- Selection

  /** Child `k` of node `n` is one of those with the highest score. */
  ghost predicate BestScored<M>(t: Tree<M>, uct: Score<M>, n: int, k: int) {
    && 0 <= n < |t.out| && n < |t.nodes| && 0 <= k < |t.out[n]|
    && (forall j | 0 <= j < |t.out[n]| :: 0 <= t.out[n][j].target < |t.nodes|)
    && forall j | 0 <= j < |t.out[n]| ::
         uct(t.nodes[n], t.nodes[t.out[n][j].target]) <= uct(t.nodes[n], t.nodes[t.out[n][k].target])
  }

  /** All moves of `n` have been tried, and `c` is a child of highest score. */
  ghost predicate Selects<M>(t: Tree<M>, uct: Score<M>, n: int, c: int) {
    && 0 <= n < |t.nodes| && t.nodes[n].untried == []
    && exists k :: BestScored(t, uct, n, k) && t.out[n][k].target == c
  }

  /** The nodes `d` lead from the root down along selected children. */
  ghost predicate IsDescent<M>(t: Tree<M>, uct: Score<M>, d: seq<int>) {
    |d| > 0 && d[0] == 0 && forall i | 0 <= i < |d| - 1 :: Selects(t, uct, d[i], d[i + 1])
  }

  // ----- Expansion

  /** The node that the `i`-th untried move of `n` leads to. */
  ghost function ChildNode<S, M>(g: Game<S, M>, x: Snapshot<S, M>, n: int, i: nat): int
    requires 0 <= n < |x.tree.nodes| && n < |x.pos| && i < |x.tree.nodes[n].untried|
  {
    var z := g.hash(g.next(x.pos[n], x.tree.nodes[n].untried[i]));
    if z in x.table then x.table[z] else |x.pos|
  }

  /** The tree once the `i`-th untried move of `n` has been tried. */
  ghost function Expanded<S, M>(g: Game<S, M>, x: Snapshot<S, M>, n: int, i: nat): Snapshot<S, M>
    requires 0 <= n < |x.tree.nodes| && n < |x.pos| && n < |x.tree.out| && i < |x.tree.nodes[n].untried|
  {
    var m := x.tree.nodes[n].untried[i];
    var s := g.next(x.pos[n], m);
    var z, t := g.hash(s), TakeMove(x.tree, n, i);
    if z in x.table then x.(tree := AddArc(t, n, x.table[z], m))
    else Snapshot(AddNode(t, n, m, NewData(g, s)), x.pos + [s], x.table[z := |x.pos|])
  }

  /** Selection and expansion lead from `x` to `y`: down to a node with untried moves, one of which is
      tried, or to one without any moves. `path` are the nodes to be updated, `leaf` the last of them. */
  ghost predicate Grew<S, M>(g: Game<S, M>, uct: Score<M>, prefix: seq<int>, x: Snapshot<S, M>, d: seq<int>,
                             y: Snapshot<S, M>, path: seq<int>, leaf: int) {
    && IsDescent(x.tree, uct, d)
    && var n := d[|d| - 1];
       && 0 <= n < |x.tree.nodes| && n < |x.pos| && n < |x.tree.out|
       && if x.tree.nodes[n].untried == []
          then x.tree.out[n] == [] && y == x && leaf == n && path == prefix + d[1..]
          else exists i: nat ::
                 && i < |x.tree.nodes[n].untried| && y == Expanded(g, x, n, i) && leaf == ChildNode(g, x, n, i)
                 && path == prefix + d[1..] + [leaf]
  }

  // ----- Play-outs

  /** The tree after one result was entered along the path. */
  ghost function VisitPath<M>(t: Tree<M>, path: seq<int>, winner: Player): (t': Tree<M>)
    requires OnTree(path, |t.nodes|)
    ensures |t'.nodes| == |t.nodes|
  {
    if path == [] then t
    else
      var u, n := VisitPath(t, path[..|path| - 1], winner), path[|path| - 1];
      Visit(u, n, Result(winner, u.nodes[n].justMoved))
  }

  /** The tree after `k` play-outs from `s`. */
  ghost function PlayedOut<S, M>(t: Tree<M>, path: seq<int>, playOut: PlayOut<S>, it: int, s: S, k: nat): (t': Tree<M>)
    requires OnTree(path, |t.nodes|)
    ensures |t'.nodes| == |t.nodes|
  {
    if k == 0 then t else VisitPath(PlayedOut(t, path, playOut, it, s, k - 1), path, playOut(it, s, k - 1))
  }

  /** The iteration `it` leads from `x` to `x'`: selection, expansion, and three play-outs whose results
      are entered along the path. */
  ghost predicate IsIteration<S(!new), M(!new)>(g: Game<S, M>, uct: Score<M>, playOut: PlayOut<S>, it: int,
                                                prefix: seq<int>, x: Snapshot<S, M>, x': Snapshot<S, M>) {
    exists d, y, path, leaf ::
      && Grew(g, uct, prefix, x, d, y, path, leaf) && OnTree(path, |y.tree.nodes|) && 0 <= leaf < |y.pos|
      && x' == y.(tree := PlayedOut(y.tree, path, playOut, it, y.pos[leaf], 3))
  }

  /** Entering a result adds one visit for each time a node lies on the path, and for each of them a
      point if the player who moved to the node has won, takes one if not, and neither for a draw. */
  lemma {:induction false} VisitPathCounts<M>(t: Tree<M>, path: seq<int>, winner: Player, n: int)
    requires OnTree(path, |t.nodes|) && 0 <= n < |t.nodes|
    ensures var v, v', times := t.nodes[n], VisitPath(t, path, winner).nodes[n], multiset(path)[n];
            && v'.visits == v.visits + times && v'.justMoved == v.justMoved && v'.untried == v.untried
            && (winner == Vacant ==> v'.score == v.score)
            && (winner != Vacant && winner == v.justMoved ==> v'.score == v.score + times)
            && (winner != Vacant && winner != v.justMoved ==> v'.score == v.score - times)
  {
    if path != [] {
      var rest, last := path[..|path| - 1], path[|path| - 1];
      assert path == rest + [last];
      VisitPathCounts(t, rest, winner, n);
    }
  }

  /** How many of the first `k` play-outs player `q` wins. */
  ghost function Won<S>(playOut: PlayOut<S>, it: int, s: S, k: nat, q: Player): nat {
    if k == 0 then 0 else Won(playOut, it, s, k - 1, q) + if playOut(it, s, k - 1) == q then 1 else 0
  }

  /** How many of them neither `q` wins nor nobody. */
  ghost function Lost<S>(playOut: PlayOut<S>, it: int, s: S, k: nat, q: Player): nat {
    if k == 0 then 0
    else Lost(playOut, it, s, k - 1, q) + if playOut(it, s, k - 1) != Vacant && playOut(it, s, k - 1) != q then 1 else 0
  }

  /** In finished games one side's losses are the other side's wins. */
  lemma {:induction false} LostIsWonByOther<S>(playOut: PlayOut<S>, it: int, s: S, k: nat, q: Player)
    requires q.Occupied() && forall i | 0 <= i < k :: playOut(it, s, i) != Invalid
    ensures Lost(playOut, it, s, k, q) == Won(playOut, it, s, k, q.Opponent())
  {
    if k > 0 {
      LostIsWonByOther(playOut, it, s, k - 1, q);
      assert playOut(it, s, k - 1) != Invalid;
    }
  }

  /** Visits and score after `k` play-outs: so many visits for each time on the path, and so many points
      as the player who moved to the node has won more of them than lost. */
  lemma {:induction false} PlayedOutCounts<S, M>(t: Tree<M>, path: seq<int>, playOut: PlayOut<S>, it: int, s: S, k: nat,
                                                 n: int)
    requires OnTree(path, |t.nodes|) && 0 <= n < |t.nodes| && t.nodes[n].justMoved != Vacant
    ensures var v, v', times := t.nodes[n], PlayedOut(t, path, playOut, it, s, k).nodes[n], multiset(path)[n];
            && v'.visits == v.visits + k * times && v'.justMoved == v.justMoved && v'.untried == v.untried
            && v'.score
               == v.score + (Won(playOut, it, s, k, v.justMoved) - Lost(playOut, it, s, k, v.justMoved)) * times
  {
    hide VisitPath;
    if k > 0 {
      PlayedOutCounts(t, path, playOut, it, s, k - 1, n);
      VisitPathCounts(PlayedOut(t, path, playOut, it, s, k - 1), path, playOut(it, s, k - 1), n);
      var q, times := t.nodes[n].justMoved, multiset(path)[n];
      OneMoreTimes(k - 1, times);
      OneMoreTimes(Won(playOut, it, s, k - 1, q) - Lost(playOut, it, s, k - 1, q), times);
    }
  }

  lemma OneMoreTimes(k: int, times: int)
    ensures (k + 1) * times == k * times + times && (k - 1) * times == k * times - times
  {
  }

  /** What an iteration does to the counts: every node gains three visits for each time it lies on the
      path, and as many points as the player who moved there has won more of the three play-outs than
      lost; a new node starts from nothing. So the most visited child of the root is the one taken
      most often, and a high score is one for the player who moves there. */
  lemma IterationCounts<S(!new), M(!new)>(g: Game<S, M>, uct: Score<M>, playOut: PlayOut<S>, it: int, prefix: seq<int>,
                                          x: Snapshot<S, M>, x': Snapshot<S, M>)
      returns (d: seq<int>, y: Snapshot<S, M>, path: seq<int>, leaf: int)
    requires IsIteration(g, uct, playOut, it, prefix, x, x')
    ensures Grew(g, uct, prefix, x, d, y, path, leaf) && |x.tree.nodes| <= |x'.tree.nodes| && 0 <= leaf < |y.pos|
    ensures forall n | 0 <= n < |x'.tree.nodes| && x'.tree.nodes[n].justMoved != Vacant ::
              var v', times, s := x'.tree.nodes[n], multiset(path)[n], y.pos[leaf];
              var won := Won(playOut, it, s, 3, v'.justMoved) - Lost(playOut, it, s, 3, v'.justMoved);
              if n < |x.tree.nodes|
              then v'.visits == x.tree.nodes[n].visits + 3 * times && v'.score == x.tree.nodes[n].score + won * times
              else v'.visits == 3 * times && v'.score == won * times
  {
    hide PlayedOut, IsDescent, ChildNode, Won, Lost;
    d, y, path, leaf :| && Grew(g, uct, prefix, x, d, y, path, leaf)
                        && OnTree(path, |y.tree.nodes|) && 0 <= leaf < |y.pos|
                        && x' == y.(tree := PlayedOut(y.tree, path, playOut, it, y.pos[leaf], 3));
    GrewSizes(g, uct, prefix, x, d, y, path, leaf);
    forall n | 0 <= n < |x'.tree.nodes| && x'.tree.nodes[n].justMoved != Vacant
      ensures var v', times, s := x'.tree.nodes[n], multiset(path)[n], y.pos[leaf];
              var won := Won(playOut, it, s, 3, v'.justMoved) - Lost(playOut, it, s, 3, v'.justMoved);
              if n < |x.tree.nodes|
              then v'.visits == x.tree.nodes[n].visits + 3 * times && v'.score == x.tree.nodes[n].score + won * times
              else v'.visits == 3 * times && v'.score == won * times
    {
      PlayedOutKeepsPlayer(y.tree, path, playOut, it, y.pos[leaf], 3, n);
      GrewKeepsCounts(g, uct, prefix, x, d, y, path, leaf, n);
      PlayedOutCounts(y.tree, path, playOut, it, y.pos[leaf], 3, n);
    }
  }

  lemma {:induction false} PlayedOutKeepsPlayer<S, M>(t: Tree<M>, path: seq<int>, playOut: PlayOut<S>, it: int, s: S,
                                                      k: nat, n: int)
    requires OnTree(path, |t.nodes|) && 0 <= n < |t.nodes|
    ensures PlayedOut(t, path, playOut, it, s, k).nodes[n].justMoved == t.nodes[n].justMoved
  {
    hide VisitPath;
    if k > 0 {
      PlayedOutKeepsPlayer(t, path, playOut, it, s, k - 1, n);
      VisitPathCounts(PlayedOut(t, path, playOut, it, s, k - 1), path, playOut(it, s, k - 1), n);
    }
  }

  /** Once all moves of the root have been tried, an iteration takes a child of highest score. */
  lemma FullRootSelects<S, M>(g: Game<S, M>, uct: Score<M>, prefix: seq<int>, x: Snapshot<S, M>, d: seq<int>,
                              y: Snapshot<S, M>, path: seq<int>, leaf: int)
    requires Grew(g, uct, prefix, x, d, y, path, leaf)
    requires |x.tree.nodes| > 0 && x.tree.nodes[0].untried == [] && |x.tree.out| > 0 && x.tree.out[0] != []
    ensures |d| > 1 && Selects(x.tree, uct, 0, d[1]) && |path| > |prefix| && path[|prefix|] == d[1]
  {
    hide Expanded, ChildNode, Selects;
    assert |d| > 1;
    assert Selects(x.tree, uct, d[0], d[0 + 1]);
  }

  lemma GrewSizes<S, M>(g: Game<S, M>, uct: Score<M>, prefix: seq<int>, x: Snapshot<S, M>, d: seq<int>,
                        y: Snapshot<S, M>, path: seq<int>, leaf: int)
    requires Grew(g, uct, prefix, x, d, y, path, leaf)
    ensures |x.tree.nodes| <= |y.tree.nodes|
  {
    hide IsDescent, ChildNode;
  }

  lemma GrewKeepsCounts<S, M>(g: Game<S, M>, uct: Score<M>, prefix: seq<int>, x: Snapshot<S, M>, d: seq<int>,
                              y: Snapshot<S, M>, path: seq<int>, leaf: int, n: int)
    requires Grew(g, uct, prefix, x, d, y, path, leaf) && 0 <= n < |y.tree.nodes|
    ensures var v := y.tree.nodes[n];
            if n < |x.tree.nodes| then v.visits == x.tree.nodes[n].visits && v.score == x.tree.nodes[n].score
            else v.visits == 0 && v.score == 0
  {
    hide IsDescent, ChildNode;
  }

  // ----- Searches

  /** The tree of a search about to start at `s`. */
  function FreshSnapshot<S, M>(g: Game<S, M>, s: S): Snapshot<S, M> {
    Snapshot(Graph([NewData(g, s)], [[]]), [s], map[g.hash(s) := 0])
  }

  /** What lies on the path before an iteration: the root, and once more if the tree was kept. */
  function Prefix(kept: bool): seq<int> {
    if kept then [0] + [0] else [0]
  }

  /** `run` are the trees of a search, from the first to the last, one iteration apart. */
  ghost predicate IsSearch<S(!new), M(!new)>(g: Game<S, M>, uct: Score<M>, playOut: PlayOut<S>, kept: bool,
                                             run: seq<Snapshot<S, M>>) {
    && |run| > 0
    && forall i | 0 <= i < |run| - 1 :: IsIteration(g, uct, playOut, i, Prefix(kept), run[i], run[i + 1])
  }

  /** Child `k` of the root is the first of those with the most visits. */
  ghost predicate BestChild<M>(t: Tree<M>, k: int) {
    && |t.out| > 0 && 0 <= k < |t.out[0]|
    && (forall j | 0 <= j < |t.out[0]| :: 0 <= t.out[0][j].target < |t.nodes|)
    && forall j | 0 <= j < |t.out[0]| ::
         var v, best := t.nodes[t.out[0][j].target].visits, t.nodes[t.out[0][k].target].visits;
         v <= best && (j < k ==> v < best)
  }

  /** A search of the given number of iterations leads from `s` to `t`: the tree it ends with is in order,
      and `t` follows by the move to the first most visited child of its root. */
  ghost predicate IsTurn<S(!new), M(!new)>(g: Game<S, M>, uct: Score<M>, playOut: PlayOut<S>, iterations: int,
                                           kept: bool, run: seq<Snapshot<S, M>>, s: S, t: S) {
    && |run| == iterations + 1 && IsSearch(g, uct, playOut, kept, run)
    && var x := run[|run| - 1];
       && Structure(g, x.tree, x.pos, x.table) && Ranked(g, x.pos) && Counted(x.tree) && x.pos[0] == s
       && exists k ::
            BestChild(x.tree, k) && x.tree.out[0][k].data in g.moves(s) && t == g.next(s, x.tree.out[0][k].data)
  }

  // ----- Cutting down

  /** A key is in the new table exactly if it was the key of a node that `root` reaches, and it leads
      to the node that stands for that one. */
  ghost predicate TablePurged<M>(t: Tree<M>, root: int, table: map<int, int>, table': map<int, int>, olds: seq<int>) {
    && (forall z :: z in table' <==> z in table && Reachable(t, root, table[z]))
    && (forall z | z in table' :: z in table && 0 <= table'[z] < |olds| && olds[table'[z]] == table[z])
  }

  /** `x'` is what `x` holds below position `s`: nodes `olds` under new names, with their positions. */
  ghost predicate CutDown<S, M>(g: Game<S, M>, x: Snapshot<S, M>, s: S, x': Snapshot<S, M>, olds: seq<int>) {
    && g.hash(s) in x.table
    && IsCopy(x.tree, x.table[g.hash(s)], x'.tree, olds)
    && TablePurged(x.tree, x.table[g.hash(s)], x.table, x'.table, olds)
    && |x'.pos| == |olds| && forall i | 0 <= i < |olds| :: 0 <= olds[i] < |x.pos| && x'.pos[i] == x.pos[olds[i]]
  }

  /** A search that ended with `x` goes on at `s` with `y`: with what `x` holds below `s`, or, if `s` is
      not there, from scratch. */
  ghost predicate GoesOnWith<S, M>(g: Game<S, M>, x: Snapshot<S, M>, s: S, y: Snapshot<S, M>, kept: bool) {
    && (kept <==> s in x.pos)
    && if kept then exists olds :: CutDown(g, x, s, y, olds) else y == FreshSnapshot(g, s)
  }
}
