/** The Monte Carlo tree search object: a search graph, a transposition table and the path of the
    current iteration, all updated in place. */
module MctsSearch {
  import opened Ids
  import opened Players
  import opened Lists
  import opened Graphs
  import opened Slicing
  import opened SearchTree
  import opened SearchRun

  /** Scores never exceed visits. */
  ghost predicate Bounded<M>(t: Tree<M>) {
    forall n | 0 <= n < |t.nodes| ::
        0 <= t.nodes[n].visits && -t.nodes[n].visits <= t.nodes[n].score <= t.nodes[n].visits
  }

  /** Every node but the root and, possibly, `c` has been visited. */
  ghost predicate VisitedBut<M>(t: Tree<M>, c: int) {
    forall n | 0 < n < |t.nodes| && n != c :: t.nodes[n].visits > 0
  }

  class Mcts<S(!new, ==), M(!new, ==)> {
    const g: Game<S, M>
    var tree: Tree<M>
    var table: map<int, int>
    var notInitialized: bool
    var path: seq<int>        // the targets of the links on the path
    var pathSize: nat
    ghost var pos: seq<S>     // the position each node stands for

    ghost predicate Valid()
      reads this
    {
      if notInitialized then |tree.nodes| == 1 && tree.out == [[]] && table == map[]
      else Sound(g) && Structure(g, tree, pos, table) && Ranked(g, pos) && Counted(tree)
    }

    /** The path is that of an iteration about to start. */
    ghost predicate PathReady()
      reads this
    {
      |path| == pathSize && pathSize > 0 && OnTree(path, |tree.nodes|) && path[0] == 0
    }

    /** The search is empty or stands, with a fresh path, at the position. */
    ghost predicate StartsAt(s: S)
      reads this
    {
      !notInitialized ==> |pos| > 0 && s == pos[0] && path == [0] && pathSize == 1
    }

    ghost function Snap(): Snapshot<S, M>
      reads this
    {
      Snapshot(tree, pos, table)
    }

    constructor (g: Game<S, M>)
      ensures Valid() && notInitialized && this.g == g
    {
      this.g := g;
      tree, table, notInitialized := Graph([NodeData([], 0, 0, Invalid)], [[]]), map[], true;
      path, pathSize, pos := [], 0, [];
    }

    method Initialize(s: S)
      requires Valid() && notInitialized && Sound(g) && g.inPlay(s)
      modifies this
      ensures Valid() && !notInitialized && PathReady() && pos == [s] && path == [0]
      ensures Snap() == FreshSnapshot(g, s)
    {
      hide Sound;
      RootStructure(g, s);
      tree := tree.(nodes := tree.nodes[0 := NewData(g, s)]);
      assert tree == Graph([NewData(g, s)], [[]]);
      table := table[g.hash(s) := 0];
      notInitialized, path, pathSize, pos := false, [0], 1, [s];
    }

    function GetNode(z: int): (n: int)
      reads this
      ensures z in table ==> n == table[z]
      ensures z !in table ==> n == NO_NODE
    {
      if z in table then table[z] else NO_NODE
    }

    /** `selectChildUCT`: a child with the highest score, ties broken arbitrarily. Every child has been
        visited, so no score divides by zero. */
    method SelectChild(parent: int, uct: Score<M>) returns (k: nat)
      requires Valid() && !notInitialized && 0 <= parent < |pos| && tree.out[parent] != []
      ensures BestScored(tree, uct, parent, k)
      ensures forall j | 0 <= j < |tree.out[parent]| :: tree.nodes[tree.out[parent][j].target].visits > 0
    {
      hide Sound, Structure;
      SizesMatch(g, tree, pos, table);
      ChildrenVisited(parent);
      ghost var t := tree;
      ghost var f := (j: int)
                     requires 0 <= j < |t.out[parent]| && 0 <= t.out[parent][j].target < |t.nodes| && parent < |t.nodes|
                     => uct(t.nodes[parent], t.nodes[t.out[parent][j].target]);
      var best := [0];
      var bestScore := uct(tree.nodes[parent], tree.nodes[tree.out[parent][0].target]);
      for j := 1 to |tree.out[parent]|
        invariant |best| > 0
        invariant forall i | 0 <= i < |best| :: 0 <= best[i] < |t.out[parent]| && f(best[i]) == bestScore
        invariant forall i | 0 <= i < j :: f(i) <= bestScore
      {
        var score := uct(tree.nodes[parent], tree.nodes[tree.out[parent][j].target]);
        if score > bestScore {
          best, bestScore := [j], score;
        } else if score == bestScore {
          best := best + [j];
        }
      }
      var i :| 0 <= i < |best|;
      k := best[i];
      forall j | 0 <= j < |tree.out[parent]|
        ensures uct(tree.nodes[parent], tree.nodes[tree.out[parent][j].target])
                <= uct(tree.nodes[parent], tree.nodes[tree.out[parent][k].target])
      {
        assert f(j) <= f(k);
      }
    }

    /** `getUntriedMove`: any of the untried moves, which is taken off the list. */
    method GetUntriedMove(n: int) returns (m: M, ghost i: nat)
      requires 0 <= n < |tree.nodes| && tree.nodes[n].untried != []
      modifies this`tree
      ensures i < |old(tree).nodes[n].untried| && m == old(tree).nodes[n].untried[i]
      ensures tree == TakeMove(old(tree), n, i)
    {
      var untried := tree.nodes[n].untried;
      if |untried| == 1 {
        m, i := untried[0], 0;
        tree := tree.(nodes := tree.nodes[n := tree.nodes[n].(untried := [])]);
        assert Drawn(untried, 0) == [];
      } else {
        var k: nat :| k < |untried|;
        m, i := untried[k], k;
        tree := tree.(nodes := tree.nodes[n := tree.nodes[n].(untried := Drawn(untried, k))]);
      }
    }

    /** `addChild`: the position after move `m` becomes a new node unless the table knows it. */
    method AddChild(parent: int, m: M, s: S) returns (c: int)
      requires 0 <= parent < |tree.out| && |tree.nodes| == |pos|
      modifies this`tree, this`table, this`pos
      ensures var z := g.hash(s);
              if z in old(table)
              then table == old(table) && c == table[z] && pos == old(pos) && tree == AddArc(old(tree), parent, c, m)
              else c == |old(pos)| && table == old(table)[z := c] && pos == old(pos) + [s]
                   && tree == AddNode(old(tree), parent, m, NewData(g, s))
    {
      var z := g.hash(s);
      if z in table {
        c := table[z];
        tree := AddArc(tree, parent, c, m);
      } else {
        c := |tree.nodes|;
        tree := AddNode(tree, parent, m, NewData(g, s));
        table := table[z := c];
        pos := pos + [s];
      }
    }

    /** Walks down from the root while every move of a node has been tried; ranks fall on the way. */
    method Descend(s: S, uct: Score<M>) returns (node: int, state: S, ghost d: seq<int>)
      requires Valid() && !notInitialized && s == pos[0] && OnTree(path, |pos|)
      modifies this`path
      ensures 0 <= node < |pos| && state == pos[node] && OnTree(path, |pos|)
      ensures tree.nodes[node].untried != [] || tree.out[node] == []
      ensures node == 0 <==> tree.nodes[0].untried != [] || tree.out[0] == []
      ensures IsDescent(tree, uct, d) && node == d[|d| - 1] && path == old(path) + d[1..]
      ensures (forall i | 0 < i < |d| :: d[i] > 0) && (node > 0 ==> node in path)
    {
      hide Sound, Structure, Ranked, BestScored;
      SizesMatch(g, tree, pos, table);
      node, state, d := 0, s, [0];
      while tree.nodes[node].untried == [] && tree.out[node] != []
        invariant 0 <= node < |pos| == |tree.nodes| == |tree.out| && state == pos[node] && OnTree(path, |pos|)
        invariant IsDescent(tree, uct, d) && node == d[|d| - 1] && path == old(path) + d[1..]
        invariant forall i | 0 < i < |d| :: d[i] > 0
        invariant node > 0 ==> node in path && tree.nodes[0].untried == [] && tree.out[0] != []
        decreases g.rank(pos[node])
      {
        var k := SelectChild(node, uct);
        BestInRange(tree, uct, node, k);
        ChildRank(g, tree, pos, table, node, k);
        ArcIsMove(g, tree, pos, table, node, k);
        var c := tree.out[node][k].target;
        assert Selects(tree, uct, node, c);
        state := g.next(state, tree.out[node][k].data);
        node, d := c, d + [c];
        path := path + [node];
      }
    }

    /** Plays an untried move of `node` and puts the node it leads to on the path. */
    method Expand(node: int, state: S) returns (state': S, c: int, ghost i: nat)
      requires Valid() && !notInitialized && 0 <= node < |pos| && state == pos[node] && OnTree(path, |pos|)
      requires tree.nodes[node].untried != []
      modifies this`tree, this`table, this`pos, this`path
      ensures Sound(g) && Structure(g, tree, pos, table) && Ranked(g, pos) && Bounded(tree) && VisitedBut(tree, c)
      ensures 0 < c < |pos| && state' == pos[c] && path == old(path) + [c] && OnTree(path, |pos|)
      ensures old(pos) <= pos && |pos| <= |old(pos)| + 1 && tree.nodes[0].visits == old(tree).nodes[0].visits
      ensures |tree.out[0]| == |old(tree).out[0]| + if node == 0 then 1 else 0
      ensures i < |old(tree).nodes[node].untried|
      ensures Snap() == Expanded(g, old(Snap()), node, i) && c == ChildNode(g, old(Snap()), node, i)
    {
      hide Sound, Structure, Ranked, TakeMove;
      SizesMatch(g, tree, pos, table);
      ghost var t, p, tab := tree, pos, table;
      var m;
      m, i := GetUntriedMove(node);
      TakeMoveFacts(t, node, i);
      state' := g.next(state, m);
      c := AddChild(node, m, state');
      MoveFacts(g, t, p, tab, node, i);
      if g.hash(state') in tab {
        HashFinds(g, t, p, tab, state');
        ArcKeepsStructure(g, t, p, tab, node, i, c);
        ArcKeepsCounts(t, node, i, c);
      } else {
        NodeKeepsStructure(g, t, p, tab, node, i);
        NodeKeepsCounts(t, node, i, m, g.moves(state'), g.justMoved(state'));
      }
      MoveRanks(g, t, p, tab, node, m);
      RanksGrow(g, p, pos, state', c);
      path := path + [c];
    }

    /** `updateData` for every link of the path: one visit for each time a node lies on the path. */
    method UpdatePath(winner: Player)
      requires Structure(g, tree, pos, table) && Bounded(tree) && OnTree(path, |pos|)
      modifies this`tree
      ensures Structure(g, tree, pos, table) && Bounded(tree) && SameShape(old(tree), tree)
      ensures forall n | 0 <= n < |tree.nodes| :: tree.nodes[n].visits == old(tree).nodes[n].visits + multiset(path)[n]
      ensures |old(tree).nodes| == |pos| && tree == VisitPath(old(tree), path, winner)
      ensures forall n | 0 <= n < |tree.nodes| ::
                var v, v', times := old(tree).nodes[n], tree.nodes[n], multiset(path)[n];
                && (winner == Vacant ==> v'.score == v.score)
                && (winner != Vacant && winner == v.justMoved ==> v'.score == v.score + times)
                && (winner != Vacant && winner != v.justMoved ==> v'.score == v.score - times)
    {
      hide Structure, Bounded, SameShape, Visit, OnTree, VisitPath;
      SizesMatch(g, tree, pos, table);
      SameShapeSelf(tree);
      NoVisits(tree, winner);
      assert path[..0] == [];
      for i := 0 to |path|
        invariant Structure(g, tree, pos, table) && Bounded(tree) && SameShape(old(tree), tree) && |tree.nodes| == |pos|
        invariant OnTree(path[..i], |pos|) && tree == VisitPath(old(tree), path[..i], winner)
      {
        PathEntry(path, |pos|, i);
        OneMoreVisit(old(tree), path, i, winner);
        var result := Result(winner, tree.nodes[path[i]].justMoved);
        VisitKeepsStructure(g, tree, pos, table, path[i], result);
        VisitCounts(old(tree), tree, path[i], result);
        tree := Visit(tree, path[i], result);
        assert path[..i + 1] == path[..i] + [path[i]];
      }
      assert path[..|path|] == path;
      forall n | 0 <= n < |tree.nodes|
        ensures var v, v', times := old(tree).nodes[n], tree.nodes[n], multiset(path)[n];
                && v'.visits == v.visits + times
                && (winner == Vacant ==> v'.score == v.score)
                && (winner != Vacant && winner == v.justMoved ==> v'.score == v.score + times)
                && (winner != Vacant && winner != v.justMoved ==> v'.score == v.score - times)
      {
        VisitPathCounts(old(tree), path, winner, n);
      }
    }

    /** The three play-outs of iteration `it`; `c` is the node that was just added, if any. */
    method PlayOuts(state: S, playOut: PlayOut<S>, it: int, ghost c: int)
      requires Structure(g, tree, pos, table) && Bounded(tree) && VisitedBut(tree, c) && OnTree(path, |pos|)
      requires c > 0 ==> c in path
      modifies this`tree
      ensures Structure(g, tree, pos, table) && Counted(tree) && tree.out == old(tree).out
      ensures |tree.nodes| == |old(tree).nodes| == |pos|
      ensures forall n | 0 <= n < |tree.nodes| ::
                tree.nodes[n].visits == old(tree).nodes[n].visits + 3 * multiset(path)[n]
      ensures tree == PlayedOut(old(tree), path, playOut, it, state, 3)
    {
      hide Structure, Bounded, VisitedBut, Counted, OnTree, SameShape, VisitPath, PlayedOut;
      SizesMatch(g, tree, pos, table);
      ghost var t := tree;
      NoPlayOuts(t, path, playOut, it, state);
      for i := 0 to 3
        invariant Structure(g, tree, pos, table) && Bounded(tree) && tree.out == t.out && |tree.nodes| == |t.nodes|
        invariant forall n | 0 <= n < |tree.nodes| :: tree.nodes[n].visits == t.nodes[n].visits + i * multiset(path)[n]
        invariant tree == PlayedOut(t, path, playOut, it, state, i)
      {
        ghost var u := tree;
        OneMorePlayOut(t, path, playOut, it, state, i);
        UpdatePath(playOut(it, state, i));
        SameSizes(u, tree);
      }
      EveryVisited(t, tree, c, path);
    }

    /** Selection and expansion: the path grows by nodes other than the root, the last of which is
        new or known already. */
    method Grow(s: S, uct: Score<M>) returns (state: S, ghost c: int, ghost d: seq<int>, ghost leaf: int)
      requires Valid() && !notInitialized && s == pos[0] && OnTree(path, |pos|)
      modifies this`tree, this`table, this`pos, this`path
      ensures Sound(g) && Structure(g, tree, pos, table) && Ranked(g, pos) && Bounded(tree) && VisitedBut(tree, c)
      ensures OnTree(path, |pos|) && (c > 0 ==> c in path) && old(pos) <= pos && |pos| <= |old(pos)| + 1
      ensures old(path) <= path && forall i | |old(path)| <= i < |path| :: path[i] > 0
      ensures |tree.out[0]| == |old(tree).out[0]| + if old(tree).nodes[0].untried != [] then 1 else 0
      ensures tree.nodes[0].visits == old(tree).nodes[0].visits
      ensures Grew(g, uct, old(path), old(Snap()), d, Snap(), path, leaf) && 0 <= leaf < |pos| && state == pos[leaf]
    {
      hide Sound, Structure, Ranked, Counted, Bounded, VisitedBut, OnTree, IsDescent, Expanded, ChildNode;
      SizesMatch(g, tree, pos, table);
      CountedParts(tree);
      ghost var p0 := path;
      var node;
      node, state, d := Descend(s, uct);
      DescentStarts(tree, uct, d);
      c, leaf := 0, node;
      if tree.nodes[node].untried != [] {
        ghost var i;
        state, c, i := Expand(node, state);
        leaf := c;
      }
    }

    /** One search iteration: the path is restored, and the root is visited three times for each
        time it lies on the path. `playOut` gives the winner of each of the three play-outs. */
    method Iterate(s: S, uct: Score<M>, playOut: PlayOut<S>, it: int)
      requires Valid() && !notInitialized && s == pos[0] && PathReady()
      modifies this`tree, this`table, this`pos, this`path
      ensures Valid() && PathReady() && path == old(path) && old(pos) <= pos && |pos| <= |old(pos)| + 1
      ensures |old(tree).out[0]| <= |g.moves(s)|
      ensures |tree.out[0]| == |old(tree).out[0]| + if |old(tree).out[0]| < |g.moves(s)| then 1 else 0
      ensures tree.nodes[0].visits == old(tree).nodes[0].visits + 3 * multiset(path)[0]
      ensures IsIteration(g, uct, playOut, it, path, old(Snap()), Snap())
    {
      hide Sound, Structure, Ranked, Counted, Bounded, VisitedBut, OnTree, Grew, PlayedOut;
      SizesMatch(g, tree, pos, table);
      RootMoves(g, tree, pos, table);
      ghost var p0, n0 := path, |pos|;
      var state, c, d, leaf := Grow(s, uct);
      OldRootCount(p0, path);
      SizesMatch(g, tree, pos, table);
      PlayOuts(state, playOut, it, c);
      SizesMatch(g, tree, pos, table);
      path := path[..pathSize];
      assert path == p0;
      StillOnTree(p0, n0, |pos|);
    }

    /** `getBestMove`: the move to the first of the most visited children of the root. */
    method GetBestMove() returns (r: Option<M>)
      requires Valid() && !notInitialized
      modifies this`path, this`pathSize
      ensures pathSize == old(pathSize) + 1 && |path| == |old(path)| + 1 && path[..|old(path)|] == old(path)
      ensures |tree.out| > 0 && (tree.out[0] == [] ==> r == None && path[|old(path)|] == NO_NODE)
      ensures tree.out[0] != [] ==> exists k ::
                BestChild(tree, k) && r == Some(tree.out[0][k].data) && path[|old(path)|] == tree.out[0][k].target
    {
      hide Sound, Structure, Ranked;
      SizesMatch(g, tree, pos, table);
      ChildrenVisited(0);
      var bestVisits, out := INT_MIN, tree.out[0];
      r := None;
      path, pathSize := path + [NO_NODE], pathSize + 1;
      var last := |path| - 1;
      ghost var k := 0;
      for j := 0 to |out|
        modifies this`path
        invariant last == |old(path)| && |path| == last + 1 && path[..last] == old(path)
        invariant j == 0 ==> bestVisits == INT_MIN && r == None && path[last] == NO_NODE
        invariant j > 0 ==> 0 <= k < j && r == Some(out[k].data) && path[last] == out[k].target
        invariant j > 0 ==> bestVisits == tree.nodes[out[k].target].visits
        invariant forall i | 0 <= i < j ::
                    var v := tree.nodes[out[i].target].visits; v <= bestVisits && (i < k ==> v < bestVisits)
      {
        var visits := tree.nodes[out[j].target].visits;
        if visits > bestVisits {
          bestVisits, r := visits, Some(out[j].data);
          path := path[last := out[j].target];
          k := j;
        }
      }
      assert out != [] ==> BestChild(tree, k);
    }

    /** `connectStatesPath`: the position's node is put on the path; a position that the tree does not
        know becomes a child of the last node on the path by its last move `m`. */
    method ConnectStatesPath(s: S, m: M)
      requires Valid() && !notInitialized && g.inPlay(s) && PathReady()
      modifies this`tree, this`table, this`pos, this`path, this`pathSize
      ensures pathSize == old(pathSize) + 1 && |path| == |old(path)| + 1 && path[..|old(path)|] == old(path)
      ensures 0 <= path[|old(path)|] < |pos| && pos[path[|old(path)|]] == s
      ensures s in old(pos) ==> Snap() == old(Snap())
      ensures s !in old(pos) ==>
                var parent := old(path)[|old(path)| - 1];
                && 0 <= parent < |old(tree).out| && tree == AddNode(old(tree), parent, m, NewData(g, s))
                && pos == old(pos) + [s] && table == old(table)[g.hash(s) := |old(pos)|]
    {
      hide Sound, Structure, Ranked, Counted;
      SizesMatch(g, tree, pos, table);
      KnowsPosition(g, tree, pos, table, s);
      if GetNode(g.hash(s)) == NO_NODE {
        var c := AddChild(path[|path| - 1], m, s);
        path, pathSize := path + [c], pathSize + 1;
      } else {
        ConnectKnown(s);
      }
    }

    /** The branch for a position that the tree knows. */
    method ConnectKnown(s: S)
      requires Valid() && !notInitialized && g.inPlay(s) && s in pos && PathReady()
      modifies this`path, this`pathSize
      ensures PathReady() && |path| == |old(path)| + 1 && path[..|old(path)|] == old(path)
      ensures 0 <= path[|old(path)|] < |pos| && pos[path[|old(path)|]] == s
    {
      hide Sound, Structure, Ranked, Counted;
      SizesMatch(g, tree, pos, table);
      KnowsPosition(g, tree, pos, table, s);
      HashFinds(g, tree, pos, table, s);
      var child := GetNode(g.hash(s));
      path, pathSize := path + [child], pathSize + 1;
    }

    /** `compute`: starts a tree or goes on with the one whose root is `s`, makes the given number of
        iterations, and returns the move to the first most visited child; that move is legal whenever
        there is one to make. The root of a tree that was kept lies on the path twice and so counts
        every play-out twice. `run` are the trees that the search went through. */
    method Compute(s: S, iterations: int, uct: Score<M>, playOut: PlayOut<S>)
        returns (r: Option<M>, ghost run: seq<Snapshot<S, M>>)
      requires Valid() && Sound(g) && g.inPlay(s)
      requires StartsAt(s)
      modifies this
      ensures Valid() && !notInitialized && s == pos[0]
      ensures IsSearch(g, uct, playOut, !old(notInitialized), run) && |run| == 1 + Max(iterations, 0)
      ensures run[0] == (if old(notInitialized) then FreshSnapshot(g, s) else old(Snap())) && run[|run| - 1] == Snap()
      ensures |tree.out[0]| == Min(|run[0].tree.out[0]| + Max(iterations, 0), |g.moves(s)|)
      ensures tree.out[0] == [] ==> r == None
      ensures tree.out[0] != [] ==>
                exists k ::
                  && BestChild(tree, k) && r == Some(tree.out[0][k].data)
                  && r.value in g.moves(s) && pos[tree.out[0][k].target] == g.next(s, r.value)
      ensures var n := Max(iterations, 0);
              && tree.nodes[0].visits == (if old(notInitialized) then 3 * n else old(tree).nodes[0].visits + 6 * n)
              && (if old(notInitialized) then |pos| <= 1 + n else old(pos) <= pos && |pos| <= |old(pos)| + n)
    {
      hide Sound, Structure, Ranked, Counted, IsSearch, BestChild, Prefix;
      ghost var kept := !notInitialized;
      Start(s);
      run := Search(s, iterations, uct, playOut, kept);
      r := GetBestMove();
      if tree.out[0] != [] {
        BestIsMove(g, tree, pos, table, r);
      }
    }

    /** The tree and the path with which a search at `s` starts. */
    method Start(s: S)
      requires Valid() && Sound(g) && g.inPlay(s) && StartsAt(s)
      modifies this
      ensures Valid() && !notInitialized && PathReady() && s == pos[0] && path == Prefix(!old(notInitialized))
      ensures Snap() == if old(notInitialized) then FreshSnapshot(g, s) else old(Snap())
    {
      hide Sound, Structure, Ranked, Counted;
      if notInitialized {
        Initialize(s);
      } else {
        SizesMatch(g, tree, pos, table);
        ConnectKnown(s);
        OnlyOne(g, tree, pos, table, path[1]);
        assert path == [0] + [0];
      }
    }

    /** The iterations of a search. Each of them tries a further move of the root as long as there is
        one, and enters three results at the root for each time that it lies on the path. */
    method Search(s: S, iterations: int, uct: Score<M>, playOut: PlayOut<S>, ghost kept: bool)
        returns (ghost run: seq<Snapshot<S, M>>)
      requires Valid() && !notInitialized && PathReady() && s == pos[0] && path == Prefix(kept)
      modifies this`tree, this`table, this`pos, this`path
      ensures Valid() && !notInitialized && PathReady() && path == old(path) && s == pos[0]
      ensures IsSearch(g, uct, playOut, kept, run) && |run| == 1 + Max(iterations, 0)
      ensures run[0] == old(Snap()) && run[|run| - 1] == Snap()
      ensures |old(tree).out| > 0 && |tree.out[0]| == Min(|old(tree).out[0]| + Max(iterations, 0), |g.moves(s)|)
      ensures |old(tree).nodes| > 0
      ensures tree.nodes[0].visits == old(tree).nodes[0].visits + (if kept then 6 else 3) * Max(iterations, 0)
      ensures old(pos) <= pos && |pos| <= |old(pos)| + Max(iterations, 0)
    {
      hide Sound, Structure, Ranked, Counted, IsIteration, IsSearch, OnTree;
      SizesMatch(g, tree, pos, table);
      RootMoves(g, tree, pos, table);
      ghost var x := Snap();
      ghost var per := if kept then 6 else 3;
      ConstCount();
      assert 3 * multiset(path)[0] == per;
      run := [x];
      SearchStarts(g, uct, playOut, kept, x);
      var i := 0;
      while i < iterations
        invariant 0 <= i <= Max(iterations, 0)
        invariant Valid() && !notInitialized && PathReady() && path == old(path)
        invariant |tree.nodes| > 0 && |tree.out| > 0 && x.pos <= pos && |pos| <= |x.pos| + i
        invariant |tree.out[0]| == Min(|x.tree.out[0]| + i, |g.moves(s)|)
        invariant tree.nodes[0].visits == x.tree.nodes[0].visits + per * i
        invariant |run| == i + 1 && run[0] == x && run[i] == Snap() && IsSearch(g, uct, playOut, kept, run)
      {
        Iterate(s, uct, playOut, i);
        SizesMatch(g, tree, pos, table);
        SearchGoesOn(g, uct, playOut, kept, run, Snap());
        run := run + [Snap()];
        i := i + 1;
      }
    }

    /** The inner loop of `prune_impl`: copies the out-arcs of `parent` in order, adding each target
        that is met for the first time. */
    method CopyOut(newTree: Tree<M>, parent: int, visited: seq<int>, ghost root: int, ghost olds: seq<int>,
                   ghost todo: set<int>)
      returns (newTree': Tree<M>, visited': seq<int>, found: seq<int>, ghost olds': seq<int>)
      requires 0 <= parent < |visited| && Copying(tree, root, newTree, visited, olds, todo, parent, 0)
      ensures Copying(tree, root, newTree', visited', olds', todo + (set x | x in found), -1, 0)
      ensures NoRepeats(found)
      ensures forall i | 0 <= i < |found| ::
                found[i] !in todo && found[i] != parent && 0 <= found[i] < |visited| && visited[found[i]] == NO_NODE
      ensures |visited'| == |visited|
      ensures forall n | 0 <= n < |visited| && visited[n] != NO_NODE :: visited'[n] == visited[n]
    {
      hide Copying;
      newTree', visited', found, olds' := newTree, visited, [], olds;
      CopyingSizes(tree, root, newTree, visited, olds, todo, parent, 0);
      CopyingTodo(tree, root, newTree, visited, olds, todo, parent, 0);
      NoneFound(todo);
      for k := 0 to |tree.out[parent]|
        invariant Copying(tree, root, newTree', visited', olds', todo + (set x | x in found), parent, k)
        invariant |visited'| == |visited| == |tree.nodes| && |tree.out| == |tree.nodes|
        invariant forall n | 0 <= n < |visited| && visited[n] != NO_NODE :: visited'[n] == visited[n]
        invariant forall i | 0 <= i < |found| ::
                    0 <= found[i] < |visited| && visited[found[i]] == NO_NODE && visited'[found[i]] >= 0
        invariant NoRepeats(found)
      {
        ghost var doing := todo + (set x | x in found);
        CopyingTarget(tree, root, newTree', visited', olds', doing, parent, k);
        CopyingSizes(tree, root, newTree', visited', olds', doing, parent, k);
        var e := tree.out[parent][k];
        if visited'[e.target] == NO_NODE {
          CopyNew(tree, root, newTree', visited', olds', doing, parent, k);
          NodeThenArc(newTree', visited'[parent], e.data, tree.nodes[e.target]);
          visited' := visited'[e.target := |newTree'.nodes|];
          newTree' := Graph(newTree'.nodes + [tree.nodes[e.target]], newTree'.out + [[]]);
          OneMore(todo, found, e.target);
          found, olds' := found + [e.target], olds' + [e.target];
        } else {
          CopySeen(tree, root, newTree', visited', olds', doing, parent, k);
        }
        newTree' := AddArc(newTree', visited'[parent], visited'[e.target], e.data);
      }
      CopyEnd(tree, root, newTree', visited', olds', todo + (set x | x in found), parent);
    }

    /** The tree of `prune_impl`: a copy of what `root` reaches. */
    method CopyTree(root: int) returns (newTree: Tree<M>, visited: seq<int>, ghost olds: seq<int>)
      requires WellFormed(tree) && 0 <= root < |tree.nodes|
      ensures IsCopy(tree, root, newTree, olds) && |visited| == |tree.nodes| && Renaming(visited, olds)
      ensures forall n :: 0 <= n < |visited| && visited[n] >= 0 <==> Reachable(tree, root, n)
    {
      hide Copying, IsCopy;
      newTree := Graph([tree.nodes[root]], [[]]);
      visited := seq(|tree.nodes|, i => NO_NODE)[root := 0];
      var stack := [root];
      CopyStart(tree, root, tree.nodes[root]);
      olds := [root];
      ghost var todo, done := {root}, {};
      while |stack| != 0
        invariant Copying(tree, root, newTree, visited, olds, todo, -1, 0)
        invariant Worklist(stack, todo, done, |tree.nodes|) && |visited| == |tree.nodes|
        invariant forall n | n in done :: 0 <= n < |visited| && visited[n] != NO_NODE
        decreases Range(|tree.nodes|) - done
      {
        var parent := stack[|stack| - 1];
        PopBack(stack, todo, done, |tree.nodes|);
        stack := stack[..|stack| - 1];
        CopyBegin(tree, root, newTree, visited, olds, todo, parent);
        CopyingSizes(tree, root, newTree, visited, olds, todo, -1, 0);
        todo := todo - {parent};
        var found;
        newTree, visited, found, olds := CopyOut(newTree, parent, visited, root, olds, todo);
        Push(stack, todo, done + {parent}, |tree.nodes|, found);
        stack := stack + found;
        todo, done := todo + (set x | x in found), done + {parent};
      }
      EmptyTodo(stack, todo, done, |tree.nodes|);
      CopyDone(tree, root, newTree, visited, olds);
      CopyRenames(tree, root, newTree, visited, olds);
    }

    /** `prune`: the tree is cut down to what the position reaches, the table to the nodes that stay,
        under their new names. If the position is not in the tree, an empty search takes its place. */
    method Prune(s: S) returns (pruned: Mcts<S, M>, ghost olds: seq<int>)
      requires Valid() && Sound(g) && g.inPlay(s)
      ensures fresh(pruned) && pruned.Valid() && pruned.g == g
      ensures pruned.notInitialized <==> notInitialized || g.hash(s) !in table
      ensures !notInitialized ==> (g.hash(s) in table <==> s in pos)
      ensures !pruned.notInitialized ==> pruned.StartsAt(s) && CutDown(g, Snap(), s, pruned.Snap(), olds)
    {
      hide Sound, Structure, Ranked, Counted, IsCopy, Renaming, Reachable, WellFormed;
      pruned := new Mcts(g);
      olds := [];
      if !notInitialized { KnowsPosition(g, tree, pos, table, s); }
      if !notInitialized && GetNode(g.hash(s)) != NO_NODE {
        SizesMatch(g, tree, pos, table);
        HashFinds(g, tree, pos, table, s);
        StructureWellFormed(g, tree, pos, table);
        TableOnTree(g, tree, pos, table);
        var root := table[g.hash(s)];
        var visited;
        pruned.tree, visited, olds := CopyTree(root);
        pruned.table := PurgeTable(table, visited);
        pruned.notInitialized, pruned.path, pruned.pathSize := false, [0], 1;
        CopyKeepsStructure(g, tree, pos, table, root, pruned.tree, visited, olds, pruned.table);
        CopyKeepsRanks(g, tree, pos, table, root, pruned.tree, olds);
        CopyKeepsCounts(g, tree, pos, table, root, pruned.tree, olds);
        CopySizes(g, tree, pos, table, root, pruned.tree, olds);
        pruned.pos := Select(pos, olds);
        PurgeExact(tree, root, table, visited, olds, pruned.table);
      }
    }

    /** A child is never the root, since ranks fall along arcs; so it has been visited. */
    lemma ChildrenVisited(n: int)
      requires Valid() && !notInitialized && 0 <= n < |pos| && |tree.out| == |pos| == |tree.nodes|
      ensures forall k | 0 <= k < |tree.out[n]| ::
                0 < tree.out[n][k].target < |tree.nodes| && tree.nodes[tree.out[n][k].target].visits > 0
    {
      hide Sound, Structure, Ranked;
      forall k | 0 <= k < |tree.out[n]|
        ensures 0 < tree.out[n][k].target < |tree.nodes| && tree.nodes[tree.out[n][k].target].visits > 0
      {
        ChildRank(g, tree, pos, table, n, k);
      }
    }
  }

  lemma SizesMatch<S, M>(g: Game<S, M>, t: Tree<M>, pos: seq<S>, table: map<int, int>)
    requires Structure(g, t, pos, table)
    ensures |t.nodes| == |t.out| == |pos| && |pos| > 0
  {
  }

  lemma PurgeExact<M>(t: Tree<M>, root: int, table: map<int, int>, visited: seq<int>, olds: seq<int>,
                      table': map<int, int>)
    requires Kept(table, visited, table') && Renaming(visited, olds)
    requires forall n :: 0 <= n < |visited| && visited[n] >= 0 <==> Reachable(t, root, n)
    ensures TablePurged(t, root, table, table', olds)
  {
    hide Reachable;
  }

  lemma NodeThenArc<M>(t: Tree<M>, n: int, m: M, d: NodeData<M>)
    requires 0 <= n < |t.out| == |t.nodes|
    ensures AddArc(Graph(t.nodes + [d], t.out + [[]]), n, |t.nodes|, m) == AddNode(t, n, m, d)
  {
  }

  lemma CopyRenames<M>(t: Tree<M>, root: int, t': Tree<M>, visited: seq<int>, olds: seq<int>)
    requires Copying(t, root, t', visited, olds, {}, -1, 0)
    ensures Renaming(visited, olds) && |visited| == |t.nodes|
  {
  }

  lemma TableOnTree<S, M>(g: Game<S, M>, t: Tree<M>, pos: seq<S>, table: map<int, int>)
    requires Structure(g, t, pos, table)
    ensures forall z | z in table :: 0 <= table[z] < |pos|
  {
  }

  lemma KnowsPosition<S(!new), M(!new)>(g: Game<S, M>, t: Tree<M>, pos: seq<S>, table: map<int, int>, s: S)
    requires Sound(g) && Structure(g, t, pos, table) && g.inPlay(s)
    ensures g.hash(s) in table <==> s in pos
    ensures g.hash(s) in table ==> 0 <= table[g.hash(s)]
  {
    if g.hash(s) in table { HashFinds(g, t, pos, table, s); }
  }

  lemma SomeKey(keys: set<int>)
    ensures keys == {} || exists z :: z in keys
  {
    if forall z :: z !in keys { assert keys == {}; }
  }

  /** Purging: entries of dropped nodes go, the others get the new names. */
  method PurgeTable(table: map<int, int>, visited: seq<int>) returns (table': map<int, int>)
    requires forall z | z in table :: 0 <= table[z] < |visited|
    ensures Kept(table, visited, table')
  {
    table' := table;
    var keys := table.Keys;
    while keys != {}
      invariant keys <= table.Keys
      invariant forall z | z in keys :: z in table' && table'[z] == table[z]
      invariant forall z | z !in keys :: z in table' <==> z in table && visited[table[z]] != NO_NODE
      invariant forall z | z !in keys && z in table' :: z in table && table'[z] == visited[table[z]]
    {
      SomeKey(keys);
      var z :| z in keys;
      keys := keys - {z};
      var n := visited[table'[z]];
      if n == NO_NODE { table' := table' - {z}; } else { table' := table'[z := n]; }
    }
    assert forall z :: z !in keys;
  }

  const INT_MIN := -0x8000_0000

  function Max(a: int, b: int): int { if a > b then a else b }

  function Min(a: int, b: int): int { if a < b then a else b }

  lemma BestInRange<M>(t: Tree<M>, uct: Score<M>, n: int, k: int)
    requires BestScored(t, uct, n, k)
    ensures 0 <= n < |t.out| && 0 <= k < |t.out[n]|
  {
  }

  lemma DescentStarts<M>(t: Tree<M>, uct: Score<M>, d: seq<int>)
    requires IsDescent(t, uct, d)
    ensures |d| > 0 && d[0] == 0
  {
  }

  lemma NoVisits<M>(t: Tree<M>, winner: Player)
    ensures OnTree([], |t.nodes|) && VisitPath(t, [], winner) == t
  {
  }

  lemma OneMoreVisit<M>(t: Tree<M>, path: seq<int>, i: nat, winner: Player)
    requires i < |path| && OnTree(path, |t.nodes|)
    ensures OnTree(path[..i], |t.nodes|) && OnTree(path[..i + 1], |t.nodes|)
    ensures var u := VisitPath(t, path[..i], winner);
            VisitPath(t, path[..i + 1], winner) == Visit(u, path[i], Result(winner, u.nodes[path[i]].justMoved))
  {
    assert path[..i + 1][..i] == path[..i];
  }

  lemma NoPlayOuts<S, M>(t: Tree<M>, path: seq<int>, playOut: PlayOut<S>, it: int, s: S)
    requires OnTree(path, |t.nodes|)
    ensures PlayedOut(t, path, playOut, it, s, 0) == t
  {
  }

  lemma OneMorePlayOut<S, M>(t: Tree<M>, path: seq<int>, playOut: PlayOut<S>, it: int, s: S, k: nat)
    requires OnTree(path, |t.nodes|)
    ensures PlayedOut(t, path, playOut, it, s, k + 1)
         == VisitPath(PlayedOut(t, path, playOut, it, s, k), path, playOut(it, s, k))
  {
  }

  /** The tried and the untried moves of the root are as many as it has moves. */
  lemma RootMoves<S, M>(g: Game<S, M>, t: Tree<M>, pos: seq<S>, table: map<int, int>)
    requires Structure(g, t, pos, table) && |pos| > 0
    ensures |t.out[0]| + |t.nodes[0].untried| == |g.moves(pos[0])|
  {
    hide Labels;
    assert Partition(g, t, pos, 0);
    LabelsLength(t.out[0]);
    var a, b := Labels(t.out[0]), t.nodes[0].untried;
    assert |multiset(a) + multiset(b)| == |a| + |b|;
  }

  lemma SearchStarts<S(!new), M(!new)>(g: Game<S, M>, uct: Score<M>, playOut: PlayOut<S>, kept: bool, x: Snapshot<S, M>)
    ensures IsSearch(g, uct, playOut, kept, [x])
  {
  }

  lemma SearchGoesOn<S(!new), M(!new)>(g: Game<S, M>, uct: Score<M>, playOut: PlayOut<S>, kept: bool,
                                       run: seq<Snapshot<S, M>>, x: Snapshot<S, M>)
    requires IsSearch(g, uct, playOut, kept, run) && |run| > 0
    requires IsIteration(g, uct, playOut, |run| - 1, Prefix(kept), run[|run| - 1], x)
    ensures IsSearch(g, uct, playOut, kept, run + [x])
  {
    hide IsIteration;
  }

  /** The best child is one legal move away. */
  lemma BestIsMove<S, M>(g: Game<S, M>, t: Tree<M>, pos: seq<S>, table: map<int, int>, r: Option<M>)
    requires Structure(g, t, pos, table) && |t.out| > 0 && exists k :: BestChild(t, k) && r == Some(t.out[0][k].data)
    ensures exists k ::
              && BestChild(t, k) && r == Some(t.out[0][k].data)
              && r.value in g.moves(pos[0]) && pos[t.out[0][k].target] == g.next(pos[0], r.value)
  {
    hide Structure;
    var k :| BestChild(t, k) && r == Some(t.out[0][k].data);
    SizesMatch(g, t, pos, table);
    ArcIsMove(g, t, pos, table, 0, k);
  }

  lemma OnlyOne<S, M>(g: Game<S, M>, t: Tree<M>, pos: seq<S>, table: map<int, int>, n: int)
    requires Structure(g, t, pos, table) && 0 <= n < |pos| && pos[n] == pos[0]
    ensures n == 0
  {
    hide Structure;
    PositionsDistinct(g, t, pos, table, n, 0);
  }

  lemma ConstCount()
    ensures multiset([0])[0] == 1 && multiset([0] + [0])[0] == 2
  {
  }

  /** Only counts differ. */
  ghost predicate SameShape<M>(t: Tree<M>, t': Tree<M>) {
    && t'.out == t.out && |t'.nodes| == |t.nodes|
    && forall n | 0 <= n < |t.nodes| ::
        t'.nodes[n].untried == t.nodes[n].untried && t'.nodes[n].justMoved == t.nodes[n].justMoved
  }

  lemma SameShapeSelf<M>(t: Tree<M>)
    ensures SameShape(t, t)
  {
  }

  lemma PathEntry(path: seq<int>, n: nat, i: nat)
    requires OnTree(path, n) && i < |path|
    ensures 0 <= path[i] < n
  {
  }

  /** A visit adds one to one node's visits and keeps its score within them. */
  lemma VisitCounts<M>(t0: Tree<M>, t: Tree<M>, n: int, result: int)
    requires 0 <= n < |t.nodes| && Bounded(t) && SameShape(t0, t) && -1 <= result <= 1
    ensures var t' := Visit(t, n, result);
            && Bounded(t') && SameShape(t0, t') && |t'.nodes| == |t.nodes|
            && forall k | 0 <= k < |t.nodes| :: t'.nodes[k].visits == t.nodes[k].visits + if k == n then 1 else 0
  {
  }

  lemma StillOnTree(path: seq<int>, n: nat, n': nat)
    requires OnTree(path, n) && n <= n'
    ensures OnTree(path, n')
  {
  }

  lemma SameSizes<M>(t: Tree<M>, t': Tree<M>)
    requires SameShape(t, t')
    ensures t'.out == t.out && |t'.nodes| == |t.nodes|
  {
  }

  lemma CountedParts<M>(t: Tree<M>)
    requires Counted(t)
    ensures Bounded(t) && VisitedBut(t, 0)
  {
  }

  lemma EveryVisited<M>(t: Tree<M>, t': Tree<M>, c: int, path: seq<int>)
    requires VisitedBut(t, c) && Bounded(t') && |t'.nodes| == |t.nodes| && (c > 0 ==> c in path)
    requires forall n | 0 <= n < |t.nodes| :: t'.nodes[n].visits == t.nodes[n].visits + 3 * multiset(path)[n]
    requires Bounded(t)
    ensures Counted(t')
  {
  }

  lemma ArcIsMove<S, M>(g: Game<S, M>, t: Tree<M>, pos: seq<S>, table: map<int, int>, n: int, k: int)
    requires Structure(g, t, pos, table) && 0 <= n < |pos| && 0 <= k < |t.out[n]|
    ensures var e := t.out[n][k];
            0 <= e.target < |pos| && e.data in g.moves(pos[n]) && pos[e.target] == g.next(pos[n], e.data)
  {
  }

  lemma TakeMoveFacts<M>(t: Tree<M>, n: int, i: nat)
    requires 0 <= n < |t.nodes| && i < |t.nodes[n].untried|
    ensures TakeMove(t, n, i).out == t.out && |TakeMove(t, n, i).nodes| == |t.nodes|
  {
  }

  lemma MoveFacts<S(!new), M(!new)>(g: Game<S, M>, t: Tree<M>, pos: seq<S>, table: map<int, int>, n: int, i: nat)
    requires Sound(g) && Structure(g, t, pos, table) && 0 <= n < |pos| && i < |t.nodes[n].untried|
    ensures t.nodes[n].untried[i] in g.moves(pos[n]) && g.inPlay(g.next(pos[n], t.nodes[n].untried[i]))
  {
    assert Partition(g, t, pos, n);
    UntriedIsLegal(g, t, pos, n, i);
  }

  /** The table finds the node of a position in play: keys do not clash. */
  lemma HashFinds<S(!new), M(!new)>(g: Game<S, M>, t: Tree<M>, pos: seq<S>, table: map<int, int>, s: S)
    requires Sound(g) && Structure(g, t, pos, table) && g.inPlay(s) && g.hash(s) in table
    ensures 0 <= table[g.hash(s)] < |pos| && pos[table[g.hash(s)]] == s
  {
    var z := g.hash(s);
    assert z in table;
    assert g.hash(pos[table[z]]) == z && g.inPlay(pos[table[z]]);
  }

  lemma MoveRanks<S(!new), M(!new)>(g: Game<S, M>, t: Tree<M>, pos: seq<S>, table: map<int, int>, n: int, m: M)
    requires Sound(g) && Structure(g, t, pos, table) && Ranked(g, pos) && 0 <= n < |pos| && m in g.moves(pos[n])
    ensures g.rank(g.next(pos[n], m)) < g.rank(pos[0])
  {
  }

  lemma RanksGrow<S, M>(g: Game<S, M>, pos: seq<S>, pos': seq<S>, s: S, c: int)
    requires Ranked(g, pos) && (pos' == pos || pos' == pos + [s]) && 0 <= c < |pos'| && pos'[c] == s
    requires g.rank(s) < g.rank(pos[0])
    ensures Ranked(g, pos') && c > 0
  {
  }

  lemma ArcKeepsCounts<M>(t: Tree<M>, n: int, i: nat, c: int)
    requires Counted(t) && 0 <= n < |t.nodes| && |t.nodes| == |t.out| && i < |t.nodes[n].untried|
    ensures var t' := AddArc(TakeMove(t, n, i), n, c, t.nodes[n].untried[i]);
            && Bounded(t') && VisitedBut(t', c) && t'.nodes[0].visits == t.nodes[0].visits && |t'.out[n]| > 0
            && forall k | 0 <= k < |t.out| :: |t'.out[k]| >= |t.out[k]|
  {
  }

  lemma NodeKeepsCounts<M>(t: Tree<M>, n: int, i: nat, m: M, moves: seq<M>, p: Player)
    requires Counted(t) && 0 <= n < |t.nodes| && |t.nodes| == |t.out| && i < |t.nodes[n].untried|
    ensures var t' := AddNode(TakeMove(t, n, i), n, m, NodeData(moves, 0, 0, p));
            && Bounded(t') && VisitedBut(t', |t.nodes|) && t'.nodes[0].visits == t.nodes[0].visits && |t'.out[n]| > 0
            && forall k | 0 <= k < |t.out| :: |t'.out[k]| >= |t.out[k]|
  {
  }

  /** Nodes other than the root, appended to the path, do not change how often the root is on it. */
  lemma OldRootCount(p: seq<int>, path: seq<int>)
    requires p <= path && forall i | |p| <= i < |path| :: path[i] > 0
    ensures multiset(path)[0] == multiset(p)[0]
  {
    var rest := path[|p|..];
    assert path == p + rest;
    assert 0 !in rest;
  }
}
