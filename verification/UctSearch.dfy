/** The Python search: selection, expansion, play-out and backpropagation on a tree of nodes that is
    kept in an arena and updated in place. */
module UctSearch {
  import opened Lists
  import opened TurnGames
  import opened UctTree
  import opened UctLog
  import opened UctRun

  /** Entry `k` is the last of the greatest ones: the end of the sorted list. */
  ghost predicate LastBest(keys: seq<real>, k: int) {
    0 <= k < |keys| && forall j | 0 <= j < |keys| :: keys[j] <= keys[k] && (j > k ==> keys[j] < keys[k])
  }

  method SortedLast(keys: seq<real>) returns (k: nat)
    requires keys != []
    ensures LastBest(keys, k)
  {
    k := 0;
    for j := 1 to |keys|
      invariant LastBest(keys[..j], k)
    {
      if keys[j] >= keys[k] { k := j; }
    }
    assert keys[..|keys|] == keys;
  }

  /** A play-out: any sequence of legal moves to the end of the game. */
  method PlayOut<S(!new), M(!new)>(g: Game<S, M>, start: S) returns (state: S)
    requires TakeTurns(g)
    ensures g.moves(state) == [] && Reaches(g, start, state)
  {
    state := start;
    ghost var states := [start];
    while g.moves(state) != []
      invariant IsTrace(g, states) && states[0] == start && states[|states| - 1] == state
      decreases g.rank(state)
    {
      var i :| 0 <= i < |g.moves(state)|;
      var m := g.moves(state)[i];
      TraceGrows(g, states, m);
      state := g.next(state, m);
      states := states + [state];
    }
  }

  class Search<S(!new), M(!new, ==)> {
    const g: Game<S, M>
    var nodes: seq<Node<M>>
    ghost var pos: seq<S>           // the state each node stands for
    ghost var log: seq<Entry<S>>    // where each iteration ended, and the game it played out
    ghost var births: seq<int>      // the iteration that made each node
    ghost var firsts: seq<real>     // the result of each node's first play-out
    ghost const fair: bool

    ghost predicate Shaped()
      reads this
    {
      TakeTurns(g) && (fair ==> ResultsSumToOne(g)) && TreeOk(g, nodes, pos)
    }

    /** The record names finished games, and the iteration that made each node. */
    ghost predicate Recorded()
      reads this
    {
      EntriesOk(g, pos, log) && Births(g, nodes, log, births, firsts)
    }

    /** Every node's counts balance those of its children and are those of the iterations through it. */
    ghost predicate Valid()
      reads this
    {
      && Shaped() && AllBalanced(g, nodes, pos, firsts, fair, NO_PARENT, 0.0)
      && Recorded() && |pos| > 0 && Accounted(g, nodes, log, NO_PARENT, pos[0])
    }

    constructor (g: Game<S, M>, root: S, ghost fair: bool)
      requires TakeTurns(g) && (fair ==> ResultsSumToOne(g))
      ensures Valid() && this.g == g && this.fair == fair && pos == [root] && log == []
      ensures Snapshot(nodes, pos) == Bare(g, root)
      ensures nodes[0].visits == 0 && nodes[0].children == []
    {
      this.g, this.fair := g, fair;
      nodes := [Node(None, NO_PARENT, [], 0.0, 0, g.moves(root), g.justMoved(root))];
      pos, firsts, log, births := [root], [0.0], [], [0];
      new;
      LeafOk(g, nodes, pos, 0);
    }

    /** `UCTSelectChild`: the last of the children with the highest score. Every child has been
        visited, so the score is defined. */
    method SelectChild(n: int, score: Score<M>) returns (c: int)
      requires Valid() && 0 <= n < |nodes| && nodes[n].children != []
      ensures ChildOk(g, nodes, pos, n, c)
      ensures forall k | 0 <= k < |nodes[n].children| ::
                0 < nodes[n].children[k] < |nodes| && nodes[nodes[n].children[k]].visits > 0
      ensures SelectedChild(nodes, score, n, c)
    {
      hide TakeTurns, TreeOk, Balanced, Accounted, EntriesOk, Births;
      ChildFacts(g, nodes, pos, n);
      var ns, cs := nodes, nodes[n].children;
      var keys := seq(|cs|, k requires 0 <= k < |cs| && 0 <= n < |ns| && 0 <= cs[k] < |ns| => score(ns[n], ns[cs[k]]));
      var k := SortedLast(keys);
      c := nodes[n].children[k];
      assert forall j | 0 <= j < |nodes[n].children| :: score(nodes[n], nodes[nodes[n].children[j]]) == keys[j];
    }

    /** Descends along selected children to a node that has untried moves or stands for a finished game. */
    method Select(root: S, score: Score<M>) returns (n: int, state: S, ghost d: seq<int>)
      requires Valid() && root == pos[0]
      ensures 0 <= n < |nodes| && state == pos[n] && (nodes[n].untried != [] || g.moves(state) == [])
      ensures IsDescent(nodes, score, d) && n == d[|d| - 1] && (nodes[n].untried == [] ==> nodes[n].children == [])
      ensures g.moves(root) == [] ==> n == 0
      ensures nodes[0].untried != [] ==> n == 0
    {
      hide TakeTurns, TreeOk, AllBalanced, Accounted, EntriesOk, Births, IsDescent, SelectedChild;
      n, state, d := 0, root, [0];
      Sizes(g, nodes, pos);
      RootDescent(nodes, score);
      while nodes[n].untried == [] && nodes[n].children != []
        invariant 0 <= n < |nodes| == |pos| && state == pos[n]
        invariant |d| > 0 && n == d[|d| - 1] && IsDescent(nodes, score, d)
        invariant n > 0 ==> nodes[0].untried == [] && nodes[0].children != []
        decreases |nodes| - n
      {
        var c := SelectChild(n, score);
        DescentGrows(nodes, score, d, c);
        n, d := c, d + [c];
        state := g.next(state, nodes[n].move.value);
      }
      NothingLeft(g, nodes, pos, n);
      NothingLeft(g, nodes, pos, 0);
    }

    /** `AddChild`. */
    method AddChild(n: int, m: M, s: S) returns (c: int)
      requires 0 <= n < |nodes| == |pos| && m in nodes[n].untried
      modifies this`nodes, this`pos
      ensures c == |old(nodes)| && nodes == Grown(old(nodes), n, m, g.moves(s), g.justMoved(s)) && pos == old(pos) + [s]
    {
      c := |nodes|;
      nodes := nodes + [Node(Some(m), n, [], 0.0, 0, g.moves(s), g.justMoved(s))];
      nodes := nodes[n := nodes[n].(untried := Without(nodes[n].untried, m))];
      nodes := nodes[n := nodes[n].(children := nodes[n].children + [c])];
      pos := pos + [s];
    }

    /** Enters the result of a finished game at `n` and at all nodes above it. */
    method Backpropagate(n: int, end: S)
      requires Shaped() && 0 <= n < |nodes| && g.moves(end) == [] && Recorded()
      requires AllBalanced(g, nodes, pos, firsts, fair, n, g.result(end, nodes[n].justMoved))
      requires Accounted(g, nodes, log, n, end)
      modifies this`nodes
      ensures Valid() && SameButCounts(old(nodes), nodes) && nodes[0].visits == old(nodes)[0].visits + 1
      ensures nodes == Entered(g, old(nodes), n, end)
      ensures nodes[n].visits == old(nodes)[n].visits + 1
      ensures nodes[n].wins == old(nodes)[n].wins + g.result(end, old(nodes)[n].justMoved)
    {
      hide TakeTurns, ResultsSumToOne, TreeOk, AllBalanced, Accounted, EntriesOk, Births, Entered;
      var cur := n;
      ghost var r := g.result(end, nodes[n].justMoved);
      Sizes(g, nodes, pos);
      LeavesExist(g, pos, log);
      while cur != NO_PARENT
        invariant Shaped() && |nodes| == |old(nodes)| == |pos| && (cur == NO_PARENT || 0 <= cur < |nodes|)
        invariant AllBalanced(g, nodes, pos, firsts, fair, cur, r) && Accounted(g, nodes, log, cur, end)
        invariant cur != NO_PARENT ==> r == g.result(end, nodes[cur].justMoved)
        invariant SameButCounts(old(nodes), nodes) && Entered(g, nodes, cur, end) == Entered(g, old(nodes), n, end)
        invariant nodes[0].visits == old(nodes)[0].visits + if cur == NO_PARENT then 1 else 0
        invariant cur <= n && (cur == n ==> nodes == old(nodes))
        invariant cur < n ==> nodes[n].visits == old(nodes)[n].visits + 1
        invariant cur < n ==> nodes[n].wins == old(nodes)[n].wins + g.result(end, old(nodes)[n].justMoved)
        decreases cur
      {
        ParentIsOther(g, nodes, pos, cur);
        EnteredStep(g, nodes, cur, end);
        ghost var up := OtherResult(cur, end);
        if fair { TurnsAlternate(cur, end); }
        UpdateMovesUp(g, nodes, pos, firsts, fair, cur, r, up);
        EnterVisit(g, nodes, pos, log, cur, end);
        nodes := Updated(nodes, cur, g.result(end, nodes[cur].justMoved));
        cur, r := nodes[cur].parent, up;
      }
      EnteredNowhere(g, nodes, end);
      NoneDue(g, nodes, pos, firsts, fair, r);
      NoneToEnter(g, nodes, log, end, pos[0]);
      BirthsStay(g, old(nodes), nodes, log, births, firsts);
    }

    /** The result that is due one level up. */
    ghost function OtherResult(n: int, end: S): real
      requires 0 <= n < |nodes|
      reads this
    {
      var p := nodes[n].parent;
      g.result(end, if 0 <= p < |nodes| then nodes[p].justMoved else 3 - nodes[n].justMoved)
    }

    lemma TurnsAlternate(n: int, end: S)
      requires Shaped() && fair && 0 <= n < |nodes| && g.moves(end) == []
      ensures var r := g.result(end, nodes[n].justMoved); 0.0 <= r <= 1.0 && r + OtherResult(n, end) == 1.0
    {
      assert NodeOk(g, nodes, pos, n);
      if n > 0 {
        var p := nodes[n].parent;
        assert NodeOk(g, nodes, pos, p);
        var k :| 0 <= k < |nodes[p].children| && nodes[p].children[k] == n;
        assert ChildOk(g, nodes, pos, p, nodes[p].children[k]);
      }
    }

    /** One iteration, which is written down: the root gains one visit, and everything stays balanced.
        A node that it makes has one visit and the result of its play-out as wins. */
    method Iterate(root: S, score: Score<M>)
      requires Valid() && root == pos[0]
      modifies this
      ensures Valid() && root == pos[0] && nodes[0].visits == old(nodes)[0].visits + 1
      ensures g.moves(root) != [] ==> nodes[0].children != []
      ensures |old(nodes)| <= |nodes| <= |old(nodes)| + 1 && |log| == |old(log)| + 1 && log[..|old(log)|] == old(log)
      ensures var e := log[|old(log)|];
              && 0 <= e.leaf < |nodes|
              && (|nodes| > |old(nodes)| ==>
                    && e.leaf == |old(nodes)| && nodes[e.leaf].visits == 1
                    && nodes[e.leaf].wins == g.result(e.end, nodes[e.leaf].justMoved))
      ensures IsIteration(g, score, Snapshot(old(nodes), old(pos)), log[|old(log)|], Snapshot(nodes, pos))
    {
      hide TakeTurns, ResultsSumToOne, TreeOk, AllBalanced, Accounted, EntriesOk, Births, Reaches, Recorded;
      hide IsDescent, Entered;
      Sizes(g, nodes, pos);
      NothingLeft(g, nodes, pos, 0);
      ghost var x := Snapshot(nodes, pos);
      var n, state;
      ghost var d;
      n, state, d := Select(root, score);
      DescentStarts(nodes, score, d);
      if nodes[n].untried != [] {
        n, state := ExpandAndPlay(n, state);
      } else {
        state := PlayOut(g, state);
        Revisit(n, state);
      }
      ghost var y := Snapshot(nodes, pos);
      assert Grew(g, score, x, d, y, n);
      Sizes(g, nodes, pos);
      Backpropagate(n, state);
    }

    /** Expansion and play-out; the iteration is written down, and its visit is due at the new node. */
    method ExpandAndPlay(p: int, at: S) returns (n: int, end: S)
      requires Valid() && 0 <= p < |nodes| && at == pos[p] && nodes[p].untried != []
      modifies this
      ensures Due(n, end) && n == |old(nodes)| == |nodes| - 1 && |pos| > 0 && pos[0] == old(pos)[0]
      ensures log == old(log) + [Entry(n, end)]
      ensures nodes[0].visits == old(nodes)[0].visits && nodes[p].children != []
      ensures old(nodes)[0].children != [] ==> nodes[0].children != []
      ensures nodes[n].visits == 0 && nodes[n].wins == 0.0
      ensures exists m | m in old(nodes)[p].untried ::
                var s := g.next(at, m);
                && nodes == Grown(old(nodes), p, m, g.moves(s), g.justMoved(s)) && pos == old(pos) + [s]
      ensures g.moves(end) == [] && Reaches(g, pos[n], end)
    {
      hide TakeTurns, ResultsSumToOne, TreeOk, AllBalanced, Accounted, EntriesOk, Births, Reaches;
      Sizes(g, nodes, pos);
      LeavesExist(g, pos, log);
      ghost var nodes0, pos0, log0 := nodes, pos, log;
      var i :| 0 <= i < |nodes[p].untried|;
      var m := nodes[p].untried[i];
      var state := g.next(at, m);
      n := AddChild(p, m, state);
      end := PlayOut(g, state);
      ghost var r := g.result(end, nodes[n].justMoved);
      GrowKeepsTree(g, nodes0, pos0, p, m);
      GrowBalances(g, nodes0, pos0, firsts, fair, p, m, r);
      GrowAccounted(g, nodes0, log0, p, m, g.moves(state), g.justMoved(state), pos0[0]);
      LogEntry(g, nodes, log0, Entry(n, end), pos0[0]);
      EntryAdded(g, pos0, pos, log0, Entry(n, end));
      BirthAdded(g, nodes0, nodes, log0, births, firsts, Entry(n, end));
      log, births, firsts := log + [Entry(n, end)], births + [|log|], firsts + [r];
    }

    /** A play-out from a finished game that has been visited before, written down. */
    ghost method Revisit(n: int, end: S)
      requires Valid() && 0 <= n < |nodes| && g.moves(pos[n]) == [] && g.moves(end) == [] && Reaches(g, pos[n], end)
      modifies this`log
      ensures Due(n, end) && log == old(log) + [Entry(n, end)]
    {
      hide TakeTurns, ResultsSumToOne, TreeOk, AllBalanced, Accounted, EntriesOk, Births, Reaches;
      Sizes(g, nodes, pos);
      RevisitIsDue(g, nodes, pos, firsts, fair, n, g.result(end, nodes[n].justMoved));
      LogEntry(g, nodes, log, Entry(n, end), pos[0]);
      EntryAdded(g, pos, pos, log, Entry(n, end));
      BirthsKept(g, nodes, log, births, firsts, Entry(n, end));
      log := log + [Entry(n, end)];
    }

    /** All is in order but for the visit that is due from `n` upwards. */
    ghost predicate Due(n: int, end: S)
      reads this
    {
      && Shaped() && Recorded() && 0 <= n < |nodes| && g.moves(end) == []
      && AllBalanced(g, nodes, pos, firsts, fair, n, g.result(end, nodes[n].justMoved))
      && Accounted(g, nodes, log, n, end)
    }
  }

  ghost predicate SameButCounts<M>(nodes: seq<Node<M>>, nodes': seq<Node<M>>) {
    && |nodes| == |nodes'|
    && forall n | 0 <= n < |nodes| ::
         && nodes'[n].children == nodes[n].children
         && nodes'[n].parent == nodes[n].parent && nodes'[n].justMoved == nodes[n].justMoved
  }

  lemma LeavesExist<S(!new), M>(g: Game<S, M>, pos: seq<S>, log: seq<Entry<S>>)
    requires EntriesOk(g, pos, log)
    ensures forall i | 0 <= i < |log| :: log[i].leaf < |pos|
  {
  }

  lemma NoneToEnter<S, M>(g: Game<S, M>, nodes: seq<Node<M>>, log: seq<Entry<S>>, x: S, y: S)
    requires Accounted(g, nodes, log, NO_PARENT, x)
    ensures Accounted(g, nodes, log, NO_PARENT, y)
  {
    hide Passes, Gains;
  }

  lemma BirthsStay<S, M>(g: Game<S, M>, nodes: seq<Node<M>>, nodes': seq<Node<M>>, log: seq<Entry<S>>, births: seq<int>,
                         firsts: seq<real>)
    requires Births(g, nodes, log, births, firsts) && SameButCounts(nodes, nodes')
    ensures Births(g, nodes', log, births, firsts)
  {
  }

  lemma EntryAdded<S(!new), M>(g: Game<S, M>, pos: seq<S>, pos': seq<S>, log: seq<Entry<S>>, e: Entry<S>)
    requires EntriesOk(g, pos, log) && pos <= pos' && 0 <= e.leaf < |pos'|
    requires g.moves(e.end) == [] && Reaches(g, pos'[e.leaf], e.end)
    ensures EntriesOk(g, pos', log + [e])
  {
    hide Reaches;
  }

  /** A later iteration leaves the births as they were. */
  lemma BirthsKept<S, M>(g: Game<S, M>, nodes: seq<Node<M>>, log: seq<Entry<S>>, births: seq<int>, firsts: seq<real>,
                         e: Entry<S>)
    requires Births(g, nodes, log, births, firsts)
    ensures Births(g, nodes, log + [e], births, firsts)
  {
  }

  /** The iteration that makes a node is the birth of that node. */
  lemma BirthAdded<S, M>(g: Game<S, M>, nodes: seq<Node<M>>, nodes': seq<Node<M>>, log: seq<Entry<S>>, births: seq<int>,
                         firsts: seq<real>, e: Entry<S>)
    requires Births(g, nodes, log, births, firsts) && |nodes'| == |nodes| + 1 && e.leaf == |nodes| > 0
    requires forall n | 0 <= n < |nodes| :: nodes'[n].justMoved == nodes[n].justMoved
    requires forall i | 0 <= i < |log| :: log[i].leaf < |nodes|
    ensures Births(g, nodes', log + [e], births + [|log|], firsts + [g.result(e.end, nodes'[|nodes|].justMoved)])
  {
  }

  lemma Sizes<S, M>(g: Game<S, M>, nodes: seq<Node<M>>, pos: seq<S>)
    requires TreeOk(g, nodes, pos)
    ensures |nodes| == |pos| && |pos| > 0
  {
  }

  lemma NoneDue<S, M>(g: Game<S, M>, nodes: seq<Node<M>>, pos: seq<S>, firsts: seq<real>, fair: bool, r: real)
    requires AllBalanced(g, nodes, pos, firsts, fair, NO_PARENT, r)
    ensures AllBalanced(g, nodes, pos, firsts, fair, NO_PARENT, 0.0)
  {
    hide Balanced;
  }

  /** The tree that a search leaves behind, given its record. The visits and wins of every node are
      those of the iterations that went through it. Every node of an unfinished game has one visit more
      than its children together, the root as many; and if the results of the two players sum to one,
      a node's wins and those of its children make up the children's visits and, but for the root, the
      result of the node's first play-out, a game that legal moves reach from the node's state. */
  ghost predicate Tallied<S(!new), M>(g: Game<S, M>, nodes: seq<Node<M>>, pos: seq<S>, log: seq<Entry<S>>, fair: bool) {
    && |nodes| == |pos| && EntriesOk(g, pos, log)
    && (forall n | 0 <= n < |nodes| ::
          && nodes[n].visits == Passes(nodes, log, n)
          && nodes[n].wins == Gains(g, nodes, log, n, nodes[n].justMoved)
          && (fair ==> 0.0 <= nodes[n].wins <= nodes[n].visits as real))
    && (forall n | 0 < n < |nodes| :: FirstPlayed(g, nodes, pos, log, n, fair))
    && (|nodes| > 0 && g.moves(pos[0]) != [] ==> Tally(nodes, 0, 0.0, fair))
  }

  /** Some iteration is the first through `n`; it made `n`, and its result enters the tally of `n`. */
  ghost predicate FirstPlayed<S, M>(g: Game<S, M>, nodes: seq<Node<M>>, pos: seq<S>, log: seq<Entry<S>>, n: int,
                                    fair: bool)
    requires 0 <= n < |nodes| == |pos|
  {
    exists k :: FirstVisit(nodes, log, n, k) && log[k].leaf == n
                && (g.moves(pos[n]) != [] ==> Tally(nodes, n, g.result(log[k].end, nodes[n].justMoved), fair))
  }

  ghost predicate Tally<M>(nodes: seq<Node<M>>, n: int, first: real, fair: bool)
    requires 0 <= n < |nodes|
  {
    var cs := nodes[n].children;
    && (forall k | 0 <= k < |cs| :: 0 <= cs[k] < |nodes|)
    && nodes[n].visits == (if n == 0 then 0 else 1) + SumVisits(nodes, cs)
    && (fair ==> nodes[n].wins + SumWins(nodes, cs) == SumVisits(nodes, cs) as real + (if n == 0 then 0.0 else first))
  }

  lemma ValidIsTallied<S(!new), M(!new)>(s: Search<S, M>)
    requires s.Valid()
    ensures Tallied(s.g, s.nodes, s.pos, s.log, s.fair)
  {
    hide SumVisits, SumWins, Reaches, TreeOk, TakeTurns, ResultsSumToOne, Passes, Gains, FirstVisit;
    forall n | 0 < n < |s.nodes| ensures FirstPlayed(s.g, s.nodes, s.pos, s.log, n, s.fair) {
      BirthIsFirst(s.g, s.nodes, s.log, s.births, s.firsts, n);
      FirstInLog(s.nodes, s.log, n, s.births[n]);
    }
    forall n | 0 <= n < |s.nodes| ensures !Above(s.nodes, n, NO_PARENT) { NothingAboveNone(s.nodes, n); }
  }

  lemma FirstInLog<S, M>(nodes: seq<Node<M>>, log: seq<Entry<S>>, n: int, k: int)
    requires FirstVisit(nodes, log, n, k)
    ensures 0 <= k < |log|
  {
  }

  /** `UCT`: after any number of iterations the tree is balanced, and the move returned is that of the
      last of the most visited children; there is none exactly if no iteration was made or the game is
      over, where the original fails on an empty list. */
  method Run<S(!new), M(!new, ==)>(g: Game<S, M>, root: S, iterations: int, score: Score<M>,
                                   ghost fair: bool)
      returns (r: Option<M>, search: Search<S, M>, ghost run: seq<Snapshot<S, M>>)
    requires TakeTurns(g) && (fair ==> ResultsSumToOne(g))
    ensures fresh(search) && search.Valid() && search.g == g && search.fair == fair && search.pos[0] == root
    ensures Tallied(g, search.nodes, search.pos, search.log, fair)
    ensures IsSearch(g, score, root, run, search.log) && run[|search.log|] == Snapshot(search.nodes, search.pos)
    ensures search.nodes[0].visits == |search.log| == if iterations > 0 then iterations else 0
    ensures r.None? <==> iterations <= 0 || g.moves(root) == []
    ensures r.Some? ==> r.value in g.moves(root) && MostVisited(search.nodes, r.value)
  {
    hide TakeTurns, ResultsSumToOne, TreeOk, AllBalanced, Tallied, MostVisited, Accounted, EntriesOk, Births;
    hide IsSearch, IsIteration;
    search := new Search(g, root, fair);
    Sizes(g, search.nodes, search.pos);
    NothingLeft(g, search.nodes, search.pos, 0);
    run := [Snapshot(search.nodes, search.pos)];
    SearchStarts(g, score, root);
    var i := 0;
    while i < iterations
      invariant 0 <= i && (iterations > 0 ==> i <= iterations) && (iterations <= 0 ==> i == 0)
      invariant fresh(search) && search.Valid() && search.g == g && search.fair == fair
      invariant |search.nodes| == |search.pos| > 0 && search.pos[0] == root
      invariant search.nodes[0].visits == |search.log| == i
      invariant IsSearch(g, score, root, run, search.log) && |run| == i + 1
      invariant run[i] == Snapshot(search.nodes, search.pos)
      invariant i > 0 && g.moves(root) != [] ==> search.nodes[0].children != []
      invariant i == 0 || g.moves(root) == [] ==> search.nodes[0].children == []
    {
      ghost var log := search.log;
      search.Iterate(root, score);
      SearchGoesOn(g, score, root, run, log, search.log[i], Snapshot(search.nodes, search.pos));
      assert search.log == log + [search.log[i]];
      run := run + [Snapshot(search.nodes, search.pos)];
      Sizes(g, search.nodes, search.pos);
      NothingLeft(g, search.nodes, search.pos, 0);
      i := i + 1;
    }
    ValidIsTallied(search);
    r := BestMove(g, search.nodes, search.pos);
  }

  /** Move `m` leads to the last of the children of the root with the most visits. */
  ghost predicate MostVisited<M>(nodes: seq<Node<M>>, m: M) {
    && |nodes| > 0 && (forall k | 0 <= k < |nodes[0].children| :: 0 <= nodes[0].children[k] < |nodes|)
    && exists k ::
         && 0 <= k < |nodes[0].children| && nodes[nodes[0].children[k]].move == Some(m)
         && forall j | 0 <= j < |nodes[0].children| ::
              && nodes[nodes[0].children[j]].visits <= nodes[nodes[0].children[k]].visits
              && (j > k ==> nodes[nodes[0].children[j]].visits < nodes[nodes[0].children[k]].visits)
  }

  function Visits<M>(nodes: seq<Node<M>>, cs: seq<int>): seq<real>
    requires forall k | 0 <= k < |cs| :: 0 <= cs[k] < |nodes|
  {
    seq(|cs|, k requires 0 <= k < |cs| => nodes[cs[k]].visits as real)
  }

  method BestMove<S, M>(g: Game<S, M>, nodes: seq<Node<M>>, ghost pos: seq<S>) returns (r: Option<M>)
    requires TreeOk(g, nodes, pos)
    ensures r.None? <==> nodes[0].children == []
    ensures r.Some? ==> r.value in g.moves(pos[0]) && MostVisited(nodes, r.value)
  {
    hide NodeOk;
    ChildFacts(g, nodes, pos, 0);
    var cs := nodes[0].children;
    if cs == [] { return None; }
    var keys := Visits(nodes, cs);
    var k := SortedLast(keys);
    r := nodes[cs[k]].move;
    forall j | 0 <= j < |cs|
      ensures nodes[cs[j]].visits <= nodes[cs[k]].visits && (j > k ==> nodes[cs[j]].visits < nodes[cs[k]].visits)
    {
      assert keys[j] <= keys[k] && (j > k ==> keys[j] < keys[k]);
    }
  }

  lemma RootDescent<M>(nodes: seq<Node<M>>, score: Score<M>)
    ensures IsDescent(nodes, score, [0])
  {
  }

  lemma DescentStarts<M>(nodes: seq<Node<M>>, score: Score<M>, d: seq<int>)
    requires IsDescent(nodes, score, d)
    ensures |d| > 0
  {
  }

  lemma EnteredNowhere<S, M>(g: Game<S, M>, nodes: seq<Node<M>>, end: S)
    ensures Entered(g, nodes, NO_PARENT, end) == nodes
  {
  }
}
