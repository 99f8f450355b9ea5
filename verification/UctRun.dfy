/** What one iteration of the Python search does to its tree, and what a whole search is. */
module UctRun {
  import opened Lists
  import opened TurnGames
  import opened UctTree
  import opened UctLog

  /** The score of a child, given the parent and the child. */
  type Score<!M> = (Node<M>, Node<M>) -> real

  /** The tree between two iterations, and the state that each of its nodes stands for. */
  datatype Snapshot<S, M> = Snapshot(nodes: seq<Node<M>>, pos: seq<S>)

  /** `c` is the last of the children of `n` with the highest score. */
  ghost predicate SelectedChild<M>(nodes: seq<Node<M>>, score: Score<M>, n: int, c: int) {
    && 0 <= n < |nodes|
    && (forall j | 0 <= j < |nodes[n].children| :: 0 <= nodes[n].children[j] < |nodes|)
    && exists k ::
         && 0 <= k < |nodes[n].children| && c == nodes[n].children[k]
         && forall j | 0 <= j < |nodes[n].children| ::
              && score(nodes[n], nodes[nodes[n].children[j]]) <= score(nodes[n], nodes[c])
              && (j > k ==> score(nodes[n], nodes[nodes[n].children[j]]) < score(nodes[n], nodes[c]))
  }

  /** The nodes `d` lead from the root down along selected children, through nodes without untried moves. */
  ghost predicate IsDescent<M>(nodes: seq<Node<M>>, score: Score<M>, d: seq<int>) {
    && |d| > 0 && d[0] == 0
    && forall i | 0 <= i < |d| - 1 ::
         0 <= d[i] < |nodes| && nodes[d[i]].untried == [] && SelectedChild(nodes, score, d[i], d[i + 1])
  }

  /** The tree once the result of the finished game `end` has been entered at `n` and at all nodes above. */
  ghost function Entered<S, M>(g: Game<S, M>, nodes: seq<Node<M>>, n: int, end: S): (nodes': seq<Node<M>>)
    ensures |nodes'| == |nodes|
    decreases if n < 0 then 0 else n + 1
  {
    if !(0 <= n < |nodes|) then nodes
    else
      var nodes', up := Updated(nodes, n, g.result(end, nodes[n].justMoved)), nodes[n].parent;
      if up < n then Entered(g, nodes', up, end) else nodes'
  }

  /** Selection and expansion lead from `x` to `y` and end at `leaf`: a node of a finished game, or a new
      child of a node with untried moves, for one of these. */
  ghost predicate Grew<S, M>(g: Game<S, M>, score: Score<M>, x: Snapshot<S, M>, d: seq<int>, y: Snapshot<S, M>,
                             leaf: int) {
    && IsDescent(x.nodes, score, d)
    && var n := d[|d| - 1];
       && 0 <= n < |x.nodes| && n < |x.pos|
       && if x.nodes[n].untried == [] then x.nodes[n].children == [] && y == x && leaf == n
          else exists m | m in x.nodes[n].untried ::
                 var s := g.next(x.pos[n], m);
                 && leaf == |x.nodes| && y.pos == x.pos + [s]
                 && y.nodes == Grown(x.nodes, n, m, g.moves(s), g.justMoved(s))
  }

  /** An iteration leads from `x` to `x'`: selection, expansion, a play-out that ends with `e.end`, and
      the result is entered from the node on at which selection and expansion ended. */
  ghost predicate IsIteration<S(!new), M(!new)>(g: Game<S, M>, score: Score<M>, x: Snapshot<S, M>, e: Entry<S>,
                                                x': Snapshot<S, M>) {
    exists d, y ::
      && Grew(g, score, x, d, y, e.leaf) && 0 <= e.leaf < |y.pos|
      && g.moves(e.end) == [] && Reaches(g, y.pos[e.leaf], e.end)
      && x' == Snapshot(Entered(g, y.nodes, e.leaf, e.end), y.pos)
  }

  /** The tree before the first iteration. */
  function Bare<S, M>(g: Game<S, M>, root: S): Snapshot<S, M> {
    Snapshot([Node(None, NO_PARENT, [], 0.0, 0, g.moves(root), g.justMoved(root))], [root])
  }

  /** `run` are the trees of a search, one iteration apart, and `log` records the iterations. */
  ghost predicate IsSearch<S(!new), M(!new)>(g: Game<S, M>, score: Score<M>, root: S, run: seq<Snapshot<S, M>>,
                                             log: seq<Entry<S>>) {
    && |run| == |log| + 1 && run[0] == Bare(g, root)
    && forall i | 0 <= i < |log| :: IsIteration(g, score, run[i], log[i], run[i + 1])
  }

  lemma SearchStarts<S(!new), M(!new)>(g: Game<S, M>, score: Score<M>, root: S)
    ensures IsSearch(g, score, root, [Bare(g, root)], [])
  {
  }

  lemma SearchGoesOn<S(!new), M(!new)>(g: Game<S, M>, score: Score<M>, root: S, run: seq<Snapshot<S, M>>,
                                       log: seq<Entry<S>>, e: Entry<S>, x: Snapshot<S, M>)
    requires IsSearch(g, score, root, run, log) && IsIteration(g, score, run[|log|], e, x)
    ensures IsSearch(g, score, root, run + [x], log + [e])
  {
    hide IsIteration;
  }

  lemma EnteredStep<S, M>(g: Game<S, M>, nodes: seq<Node<M>>, n: int, end: S)
    requires 0 <= n < |nodes| && nodes[n].parent < n
    ensures Entered(g, nodes, n, end)
         == Entered(g, Updated(nodes, n, g.result(end, nodes[n].justMoved)), nodes[n].parent, end)
  {
  }

  lemma DescentGrows<M>(nodes: seq<Node<M>>, score: Score<M>, d: seq<int>, c: int)
    requires IsDescent(nodes, score, d)
    requires var n := d[|d| - 1]; 0 <= n < |nodes| && nodes[n].untried == [] && SelectedChild(nodes, score, n, c)
    ensures IsDescent(nodes, score, d + [c])
  {
    hide SelectedChild;
  }
}
