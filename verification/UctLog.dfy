/** The record of a Python search: for each iteration the node it ended at and the finished game that
    its play-out came to. The counts of every node are those of the iterations that went through it. */
module UctLog {
  import opened TurnGames
  import opened UctTree

  datatype Entry<+S> = Entry(leaf: int, end: S)

  /** Node `n` lies on the way from the root to `leaf`. */
  ghost predicate Above<M>(nodes: seq<Node<M>>, n: int, leaf: int)
    decreases if leaf < 0 then 0 else leaf
  {
    leaf == n
    || (0 < leaf < |nodes| && 0 <= nodes[leaf].parent < leaf && Above(nodes, n, nodes[leaf].parent))
  }

  /** How many iterations went through `n`. */
  ghost function Passes<S, M>(nodes: seq<Node<M>>, log: seq<Entry<S>>, n: int): int {
    if log == [] then 0
    else Passes(nodes, log[..|log| - 1], n) + if Above(nodes, n, log[|log| - 1].leaf) then 1 else 0
  }

  /** What the games of those iterations come to for player `p`. */
  ghost function Gains<S, M>(g: Game<S, M>, nodes: seq<Node<M>>, log: seq<Entry<S>>, n: int, p: Turn): real {
    if log == [] then 0.0
    else Gains(g, nodes, log[..|log| - 1], n, p)
         + if Above(nodes, n, log[|log| - 1].leaf) then g.result(log[|log| - 1].end, p) else 0.0
  }

  /** Iteration `k` is the first that went through `n`. */
  ghost predicate FirstVisit<S, M>(nodes: seq<Node<M>>, log: seq<Entry<S>>, n: int, k: int) {
    && 0 <= k < |log| && Above(nodes, n, log[k].leaf)
    && forall i | 0 <= i < k :: !Above(nodes, n, log[i].leaf)
  }

  /** The counts of all nodes are those of the iterations through them, except that the visit of the
      latest one, with the game `end`, is still to be entered from `cur` upwards. */
  ghost predicate Accounted<S, M>(g: Game<S, M>, nodes: seq<Node<M>>, log: seq<Entry<S>>, cur: int, end: S) {
    forall n | 0 <= n < |nodes| ::
      && nodes[n].visits + (if Above(nodes, n, cur) then 1 else 0) == Passes(nodes, log, n)
      && nodes[n].wins + (if Above(nodes, n, cur) then g.result(end, nodes[n].justMoved) else 0.0)
         == Gains(g, nodes, log, n, nodes[n].justMoved)
  }

  /** Every entry names a node and a finished game that legal moves reach from the node's state. */
  ghost predicate EntriesOk<S(!new), M>(g: Game<S, M>, pos: seq<S>, log: seq<Entry<S>>) {
    forall i | 0 <= i < |log| ::
      0 <= log[i].leaf < |pos| && g.moves(log[i].end) == [] && Reaches(g, pos[log[i].leaf], log[i].end)
  }

  /** Every node but the root was made by one iteration, ended it, and was in no earlier one; `firsts`
      are the results of those iterations. */
  ghost predicate Births<S, M>(g: Game<S, M>, nodes: seq<Node<M>>, log: seq<Entry<S>>, births: seq<int>,
                               firsts: seq<real>) {
    && |births| == |firsts| == |nodes|
    && forall n | 0 < n < |nodes| ::
         && 0 <= births[n] < |log| && log[births[n]].leaf == n
         && (forall i | 0 <= i < births[n] :: log[i].leaf < n)
         && firsts[n] == g.result(log[births[n]].end, nodes[n].justMoved)
  }

  // ----- What parents alone decide

  ghost predicate SameParents<M>(nodes: seq<Node<M>>, nodes': seq<Node<M>>) {
    |nodes| <= |nodes'| && forall n | 0 <= n < |nodes| :: nodes'[n].parent == nodes[n].parent
  }

  lemma {:induction false} AboveStays<M>(nodes: seq<Node<M>>, nodes': seq<Node<M>>, n: int, leaf: int)
    requires SameParents(nodes, nodes') && leaf < |nodes|
    ensures Above(nodes', n, leaf) <==> Above(nodes, n, leaf)
    decreases if leaf < 0 then 0 else leaf
  {
    if 0 < leaf && 0 <= nodes[leaf].parent < leaf { AboveStays(nodes, nodes', n, nodes[leaf].parent); }
  }

  lemma {:induction false} AboveIsEarlier<M>(nodes: seq<Node<M>>, n: int, leaf: int)
    requires Above(nodes, n, leaf)
    ensures n <= leaf
    decreases if leaf < 0 then 0 else leaf
  {
    if leaf != n { AboveIsEarlier(nodes, n, nodes[leaf].parent); }
  }

  lemma {:induction false} PassesStay<S, M>(g: Game<S, M>, nodes: seq<Node<M>>, nodes': seq<Node<M>>,
                                            log: seq<Entry<S>>, n: int, p: Turn)
    requires SameParents(nodes, nodes') && forall i | 0 <= i < |log| :: log[i].leaf < |nodes|
    ensures Passes(nodes', log, n) == Passes(nodes, log, n) && Gains(g, nodes', log, n, p) == Gains(g, nodes, log, n, p)
  {
    if log != [] {
      PassesStay(g, nodes, nodes', log[..|log| - 1], n, p);
      AboveStays(nodes, nodes', n, log[|log| - 1].leaf);
    }
  }

  lemma {:induction false} NoPasses<S, M>(g: Game<S, M>, nodes: seq<Node<M>>, log: seq<Entry<S>>, n: int, p: Turn)
    requires forall i | 0 <= i < |log| :: log[i].leaf < n
    ensures Passes(nodes, log, n) == 0 && Gains(g, nodes, log, n, p) == 0.0
  {
    if log != [] {
      NoPasses(g, nodes, log[..|log| - 1], n, p);
      if Above(nodes, n, log[|log| - 1].leaf) { AboveIsEarlier(nodes, n, log[|log| - 1].leaf); }
    }
  }

  // ----- An iteration

  /** Writing an iteration down makes its visit due at the node it ended at. */
  lemma LogEntry<S, M>(g: Game<S, M>, nodes: seq<Node<M>>, log: seq<Entry<S>>, e: Entry<S>, x: S)
    requires Accounted(g, nodes, log, NO_PARENT, x)
    ensures Accounted(g, nodes, log + [e], e.leaf, e.end)
  {
    hide Above;
    assert (log + [e])[..|log|] == log;
    forall n | 0 <= n < |nodes| ensures !Above(nodes, n, NO_PARENT) { NothingAboveNone(nodes, n); }
  }

  lemma NothingAboveNone<M>(nodes: seq<Node<M>>, n: int)
    requires n >= 0
    ensures !Above(nodes, n, NO_PARENT)
  {
  }

  /** Entering the visit at `cur` leaves it due at the nodes above. */
  lemma EnterVisit<S, M>(g: Game<S, M>, nodes: seq<Node<M>>, pos: seq<S>, log: seq<Entry<S>>, cur: int, end: S)
    requires TreeOk(g, nodes, pos) && 0 <= cur < |nodes| && Accounted(g, nodes, log, cur, end)
    requires forall i | 0 <= i < |log| :: log[i].leaf < |nodes|
    ensures Accounted(g, Updated(nodes, cur, g.result(end, nodes[cur].justMoved)), log, nodes[cur].parent, end)
  {
    hide TreeOk, Above, Passes, Gains;
    var nodes', up := Updated(nodes, cur, g.result(end, nodes[cur].justMoved)), nodes[cur].parent;
    ParentIsOther(g, nodes, pos, cur);
    forall n | 0 <= n < |nodes|
      ensures Passes(nodes', log, n) == Passes(nodes, log, n)
      ensures Gains(g, nodes', log, n, nodes[n].justMoved) == Gains(g, nodes, log, n, nodes[n].justMoved)
      ensures Above(nodes', n, up) <==> Above(nodes, n, cur) && n != cur
      ensures n == cur ==> Above(nodes, n, cur)
    {
      PassesStay(g, nodes, nodes', log, n, nodes[n].justMoved);
      AboveStays(nodes, nodes', n, up);
      AboveParent(nodes, n, cur);
    }
  }

  lemma AboveParent<M>(nodes: seq<Node<M>>, n: int, cur: int)
    requires 0 <= cur < |nodes| && 0 <= n && nodes[cur].parent < cur
    requires if cur == 0 then nodes[cur].parent == NO_PARENT else 0 <= nodes[cur].parent
    ensures Above(nodes, cur, cur) && (Above(nodes, n, nodes[cur].parent) <==> Above(nodes, n, cur) && n != cur)
  {
    if Above(nodes, n, nodes[cur].parent) { AboveIsEarlier(nodes, n, nodes[cur].parent); }
  }

  /** A new node has been in no iteration yet. */
  lemma GrowAccounted<S, M>(g: Game<S, M>, nodes: seq<Node<M>>, log: seq<Entry<S>>, n: int, m: M, moves: seq<M>,
                            p: Turn, x: S)
    requires 0 <= n < |nodes| && m in nodes[n].untried && Accounted(g, nodes, log, NO_PARENT, x)
    requires forall i | 0 <= i < |log| :: log[i].leaf < |nodes|
    ensures Accounted(g, Grown(nodes, n, m, moves, p), log, NO_PARENT, x)
  {
    hide Above, Passes, Gains;
    var nodes' := Grown(nodes, n, m, moves, p);
    forall k | 0 <= k < |nodes'|
      ensures !Above(nodes, k, NO_PARENT) && !Above(nodes', k, NO_PARENT)
      ensures k < |nodes| ==> Passes(nodes', log, k) == Passes(nodes, log, k)
      ensures k < |nodes| ==>
                Gains(g, nodes', log, k, nodes[k].justMoved) == Gains(g, nodes, log, k, nodes[k].justMoved)
      ensures k == |nodes| ==> Passes(nodes', log, k) == 0 && Gains(g, nodes', log, k, p) == 0.0
    {
      NothingAboveNone(nodes, k);
      NothingAboveNone(nodes', k);
      if k < |nodes| {
        PassesStay(g, nodes, nodes', log, k, nodes[k].justMoved);
      } else {
        NoPasses(g, nodes', log, k, p);
      }
    }
  }

  /** The iteration that made a node is the first one through it. */
  lemma BirthIsFirst<S, M>(g: Game<S, M>, nodes: seq<Node<M>>, log: seq<Entry<S>>, births: seq<int>, firsts: seq<real>,
                           n: int)
    requires Births(g, nodes, log, births, firsts) && 0 < n < |nodes|
    ensures forall k :: FirstVisit(nodes, log, n, k) <==> k == births[n]
  {
    hide Above;
    forall i | 0 <= i < births[n] ensures !Above(nodes, n, log[i].leaf) {
      if Above(nodes, n, log[i].leaf) { AboveIsEarlier(nodes, n, log[i].leaf); }
    }
    AboveSelf(nodes, n);
  }

  lemma AboveSelf<M>(nodes: seq<Node<M>>, n: int)
    ensures Above(nodes, n, n)
  {
  }
}
