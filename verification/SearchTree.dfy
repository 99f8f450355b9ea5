/** The search graph of the Monte Carlo tree search over an abstract game, and what it always keeps. */
module SearchTree {
  import opened Ids
  import opened Players
  import opened Lists
  import opened Graphs
  import opened Slicing

  /** A game: the legal moves of a position, the position after a move, its hash key, the player who
      just moved, and a rank that every move lowers. `inPlay` are the positions of the game at hand. */
  datatype Game<!S, !M> = Game(moves: S -> seq<M>, next: (S, M) -> S, hash: S -> int, justMoved: S -> Player,
                               rank: S -> nat, inPlay: S -> bool)

  /** Moves of positions in play are listed once, stay in play and lower the rank; no two positions in
      play share a key. */
  ghost predicate Sound<S(!new), M(!new)>(g: Game<S, M>) {
    && (forall s | g.inPlay(s) :: NoRepeats(g.moves(s)))
    && (forall s, m | g.inPlay(s) && m in g.moves(s) :: g.rank(g.next(s, m)) < g.rank(s) && g.inPlay(g.next(s, m)))
    && (forall s, t | g.inPlay(s) && g.inPlay(t) && g.hash(s) == g.hash(t) :: s == t)
  }

  /** `untried` empty stands for the null pointer; scores are whole numbers. */
  datatype NodeData<+M> = NodeData(untried: seq<M>, score: int, visits: int, justMoved: Player)

  type Tree<M> = Graph<M, NodeData<M>>

  /** The moves on a list of arcs. */
  function Labels<M>(es: seq<Edge<M>>): seq<M> {
    if es == [] then [] else Labels(es[..|es| - 1]) + [es[|es| - 1].data]
  }

  lemma LabelsAppend<M>(es: seq<Edge<M>>, e: Edge<M>)
    ensures Labels(es + [e]) == Labels(es) + [e.data]
  {
    assert (es + [e])[..|es|] == es;
  }

  lemma {:induction false} LabelAt<M>(es: seq<Edge<M>>, k: nat)
    requires k < |es|
    ensures |Labels(es)| == |es| && Labels(es)[k] == es[k].data
  {
    LabelsLength(es);
    if k < |es| - 1 { LabelAt(es[..|es| - 1], k); LabelsLength(es[..|es| - 1]); }
    else { LabelsLength(es[..|es| - 1]); }
  }

  lemma {:induction false} LabelsLength<M>(es: seq<Edge<M>>)
    ensures |Labels(es)| == |es|
  {
    if es != [] { LabelsLength(es[..|es| - 1]); }
  }

  // ----- The invariant

  /** Every arc is a real move between the positions of its nodes. */
  ghost predicate ArcsAreMoves<S, M>(g: Game<S, M>, t: Tree<M>, pos: seq<S>) {
    forall n, k | 0 <= n < |t.out| && n < |pos| && 0 <= k < |t.out[n]| ::
      && 0 <= t.out[n][k].target < |pos|
      && t.out[n][k].data in g.moves(pos[n]) && pos[t.out[n][k].target] == g.next(pos[n], t.out[n][k].data)
  }

  /** Tried and untried moves of a node together are its legal moves, each exactly once. */
  ghost predicate Partition<S, M>(g: Game<S, M>, t: Tree<M>, pos: seq<S>, n: int)
    requires 0 <= n < |t.nodes| && n < |t.out| && n < |pos|
  {
    multiset(Labels(t.out[n])) + multiset(t.nodes[n].untried) == multiset(g.moves(pos[n]))
  }

  /** The table is a bijection between the keys of the positions and the nodes. */
  ghost predicate TableExact<S, M>(g: Game<S, M>, pos: seq<S>, table: map<int, int>) {
    && (forall n | 0 <= n < |pos| :: g.hash(pos[n]) in table && table[g.hash(pos[n])] == n)
    && (forall z | z in table :: 0 <= table[z] < |pos| && g.hash(pos[table[z]]) == z)
  }

  ghost predicate Structure<S, M>(g: Game<S, M>, t: Tree<M>, pos: seq<S>, table: map<int, int>) {
    && |t.nodes| == |t.out| == |pos| && |pos| > 0
    && (forall n | 0 <= n < |pos| :: g.inPlay(pos[n]) && t.nodes[n].justMoved == g.justMoved(pos[n]))
    && ArcsAreMoves(g, t, pos)
    && (forall n | 0 <= n < |pos| :: Partition(g, t, pos, n))
    && TableExact(g, pos, table)
  }

  /** Scores never exceed visits, and every node but the root has been visited. */
  ghost predicate Counted<M>(t: Tree<M>) {
    forall n | 0 <= n < |t.nodes| ::
      && 0 <= t.nodes[n].visits && -t.nodes[n].visits <= t.nodes[n].score <= t.nodes[n].visits
      && (n > 0 ==> t.nodes[n].visits > 0)
  }

  /** The root has the highest rank. */
  ghost predicate Ranked<S, M>(g: Game<S, M>, pos: seq<S>) {
    |pos| > 0 && forall n | 0 < n < |pos| :: g.rank(pos[n]) < g.rank(pos[0])
  }

  /** Ranks fall along arcs, so no arc leads back to the root. */
  lemma ChildRank<S(!new), M(!new)>(g: Game<S, M>, t: Tree<M>, pos: seq<S>, table: map<int, int>, n: int, k: int)
    requires Sound(g) && Structure(g, t, pos, table) && Ranked(g, pos) && 0 <= n < |pos| && 0 <= k < |t.out[n]|
    ensures var c := t.out[n][k].target; 0 < c < |pos| && g.rank(pos[c]) < g.rank(pos[n])
  {
  }

  /** Whatever a node reaches ranks below it. */
  lemma {:induction false} PathRank<S(!new), M(!new)>(g: Game<S, M>, t: Tree<M>, pos: seq<S>, table: map<int, int>,
                                                      p: seq<int>)
    requires Sound(g) && Structure(g, t, pos, table) && Ranked(g, pos) && IsPath(t, p) && 0 <= p[0] < |pos|
    ensures var b := p[|p| - 1]; 0 <= b < |pos| && (|p| > 1 ==> g.rank(pos[b]) < g.rank(pos[p[0]]))
  {
    if |p| > 1 {
      assert HasArc(t, p[0], p[1]);
      var k :| 0 <= k < |t.out[p[0]]| && t.out[p[0]][k].target == p[1];
      ChildRank(g, t, pos, table, p[0], k);
      PathRank(g, t, pos, table, p[1..]);
    }
  }

  lemma StructureWellFormed<S, M>(g: Game<S, M>, t: Tree<M>, pos: seq<S>, table: map<int, int>)
    requires Structure(g, t, pos, table)
    ensures WellFormed(t)
  {
  }

  /** No two nodes stand for the same position. */
  lemma PositionsDistinct<S, M>(g: Game<S, M>, t: Tree<M>, pos: seq<S>, table: map<int, int>, a: int, b: int)
    requires Structure(g, t, pos, table) && 0 <= a < |pos| && 0 <= b < |pos| && pos[a] == pos[b]
    ensures a == b
  {
    assert table[g.hash(pos[a])] == a;
  }

  // ----- Growing the tree by one move

  /** Node `n` after its `i`-th untried move was taken out. */
  function TakeMove<M>(t: Tree<M>, n: int, i: nat): Tree<M>
    requires 0 <= n < |t.nodes| && i < |t.nodes[n].untried|
  {
    t.(nodes := t.nodes[n := t.nodes[n].(untried := Drawn(t.nodes[n].untried, i))])
  }

  /** A move that changes from untried to tried stays accounted for. */
  lemma MoveChangesSides<M>(out: seq<Edge<M>>, untried: seq<M>, i: nat, c: int, all: multiset<M>)
    requires i < |untried| && multiset(Labels(out)) + multiset(untried) == all
    ensures multiset(Labels(out + [Edge(untried[i], c)])) + multiset(Drawn(untried, i)) == all
  {
    hide Labels, Drawn;
    DrawnRest(untried, i);
    LabelsAppend(out, Edge(untried[i], c));
  }

  /** The move taken out becomes an arc to a node that exists already: a transposition. */
  lemma ArcKeepsStructure<S(!new), M(!new)>(g: Game<S, M>, t: Tree<M>, pos: seq<S>, table: map<int, int>, n: int,
                                            i: nat, c: int)
    requires Structure(g, t, pos, table) && 0 <= n < |pos| && i < |t.nodes[n].untried| && 0 <= c < |pos|
    requires pos[c] == g.next(pos[n], t.nodes[n].untried[i])
    ensures Structure(g, AddArc(TakeMove(t, n, i), n, c, t.nodes[n].untried[i]), pos, table)
  {
    hide Labels, Drawn, TableExact;
    var m := t.nodes[n].untried[i];
    var t' := AddArc(TakeMove(t, n, i), n, c, m);
    UntriedIsLegal(g, t, pos, n, i);
    forall k | 0 <= k < |pos| ensures Partition(g, t', pos, k) {
      assert Partition(g, t, pos, k);
      if k == n { MoveChangesSides(t.out[n], t.nodes[n].untried, i, c, multiset(g.moves(pos[n]))); }
    }
  }

  lemma UntriedIsLegal<S, M>(g: Game<S, M>, t: Tree<M>, pos: seq<S>, n: int, i: nat)
    requires 0 <= n < |t.nodes| && n < |t.out| && n < |pos| && Partition(g, t, pos, n) && i < |t.nodes[n].untried|
    ensures t.nodes[n].untried[i] in g.moves(pos[n])
  {
    assert t.nodes[n].untried[i] in multiset(t.nodes[n].untried);
    assert t.nodes[n].untried[i] in multiset(g.moves(pos[n]));
  }

  /** The data of a node made for a position. */
  function NewData<S, M>(g: Game<S, M>, s: S): NodeData<M> {
    NodeData(g.moves(s), 0, 0, g.justMoved(s))
  }

  lemma TableLearns<S, M>(g: Game<S, M>, pos: seq<S>, table: map<int, int>, s: S)
    requires TableExact(g, pos, table) && g.hash(s) !in table
    ensures TableExact(g, pos + [s], table[g.hash(s) := |pos|])
  {
  }

  /** The move taken out becomes an arc to a new node, which the table learns. */
  lemma NodeKeepsStructure<S(!new), M(!new)>(g: Game<S, M>, t: Tree<M>, pos: seq<S>, table: map<int, int>, n: int,
                                             i: nat)
    requires Structure(g, t, pos, table) && 0 <= n < |pos| && i < |t.nodes[n].untried|
    requires var s := g.next(pos[n], t.nodes[n].untried[i]); g.hash(s) !in table && g.inPlay(s)
    ensures var m := t.nodes[n].untried[i];
            var s := g.next(pos[n], m);
            Structure(g, AddNode(TakeMove(t, n, i), n, m, NewData(g, s)), pos + [s], table[g.hash(s) := |pos|])
  {
    hide Labels, Drawn, TableExact;
    var m := t.nodes[n].untried[i];
    var s := g.next(pos[n], m);
    var t', pos' := AddNode(TakeMove(t, n, i), n, m, NewData(g, s)), pos + [s];
    UntriedIsLegal(g, t, pos, n, i);
    TableLearns(g, pos, table, s);
    NoLabels<M>();
    forall k | 0 <= k < |pos'| ensures Partition(g, t', pos', k) {
      if k < |pos| {
        assert Partition(g, t, pos, k);
        if k == n { MoveChangesSides(t.out[n], t.nodes[n].untried, i, |t.nodes|, multiset(g.moves(pos[n]))); }
      }
    }
  }

  /** A node for an unknown position that is added without taking its move off the untried ones, as
      `connectStatesPath` does, always breaks the partition of its parent. */
  lemma MissingNodeBreaksPartition<S, M>(g: Game<S, M>, t: Tree<M>, pos: seq<S>, table: map<int, int>, n: int, m: M)
    requires Structure(g, t, pos, table) && 0 <= n < |pos| && g.hash(g.next(pos[n], m)) !in table
    ensures var s := g.next(pos[n], m); !Partition(g, AddNode(t, n, m, NewData(g, s)), pos + [s], n)
  {
    hide Labels, TableExact;
    assert Partition(g, t, pos, n);
    LabelsAppend(t.out[n], Edge(m, |t.nodes|));
    var a, b := multiset(Labels(t.out[n])), multiset(t.nodes[n].untried);
    assert ((a + multiset{m}) + b)[m] == (a + b)[m] + 1;
  }

  lemma NoLabels<M>()
    ensures Labels<M>([]) == []
  {
  }

  /** The root of a fresh tree. */
  lemma RootStructure<S, M>(g: Game<S, M>, s: S)
    requires g.inPlay(s)
    ensures Structure(g, Graph([NewData(g, s)], [[]]), [s], map[g.hash(s) := 0])
  {
  }

  // ----- Updating the counts

  /** One visit with the given result. */
  function Visit<M>(t: Tree<M>, n: int, result: int): Tree<M>
    requires 0 <= n < |t.nodes|
  {
    var d := t.nodes[n];
    t.(nodes := t.nodes[n := d.(visits := d.visits + 1, score := d.score + result)])
  }

  lemma VisitKeepsStructure<S, M>(g: Game<S, M>, t: Tree<M>, pos: seq<S>, table: map<int, int>, n: int, result: int)
    requires Structure(g, t, pos, table) && 0 <= n < |pos|
    ensures Structure(g, Visit(t, n, result), pos, table)
  {
    var t' := Visit(t, n, result);
    forall k | 0 <= k < |pos| ensures Partition(g, t', pos, k) {
      assert Partition(g, t, pos, k);
    }
  }

  // ----- Cutting the tree down to a new root

  ghost function Select<T>(s: seq<T>, olds: seq<int>): seq<T>
    requires forall i | 0 <= i < |olds| :: 0 <= olds[i] < |s|
  {
    seq(|olds|, i requires 0 <= i < |olds| => s[olds[i]])
  }

  /** The table entries of the nodes that were kept, under their new names. */
  ghost predicate Kept(table: map<int, int>, visited: seq<int>, table': map<int, int>) {
    && (forall z :: z in table' <==> z in table && 0 <= table[z] < |visited| && visited[table[z]] != NO_NODE)
    && (forall z | z in table' :: z in table && 0 <= table[z] < |visited| && table'[z] == visited[table[z]])
  }

  lemma {:induction false} SameLabels<M>(es: seq<Edge<M>>, fs: seq<Edge<M>>)
    requires |es| == |fs| && forall k | 0 <= k < |es| :: es[k].data == fs[k].data
    ensures Labels(es) == Labels(fs)
  {
    if es != [] { SameLabels(es[..|es| - 1], fs[..|fs| - 1]); }
  }

  /** A copy of the part below a new root, with the purged table, is again a search tree. */
  lemma CopyKeepsStructure<S, M>(g: Game<S, M>, t: Tree<M>, pos: seq<S>, table: map<int, int>, root: int,
                                 t': Tree<M>, visited: seq<int>, olds: seq<int>, table': map<int, int>)
    requires Structure(g, t, pos, table) && IsCopy(t, root, t', olds) && |visited| == |pos| && Renaming(visited, olds)
    requires Kept(table, visited, table')
    ensures Structure(g, t', Select(pos, olds), table')
  {
    hide Reachable;
    var pos' := Select(pos, olds);
    forall i | 0 <= i < |olds| ensures Partition(g, t', pos', i) {
      assert Partition(g, t, pos, olds[i]);
      SameLabels(t'.out[i], t.out[olds[i]]);
    }
    forall i | 0 <= i < |pos'| ensures g.hash(pos'[i]) in table' && table'[g.hash(pos'[i])] == i {
      var z := g.hash(pos[olds[i]]);
      assert z in table && table[z] == olds[i];
      assert z in table';
    }
    assert TableExact(g, pos', table');
    assert ArcsAreMoves(g, t', pos');
  }

  lemma ReachRank<S(!new), M(!new)>(g: Game<S, M>, t: Tree<M>, pos: seq<S>, table: map<int, int>, a: int, b: int)
    requires Sound(g) && Structure(g, t, pos, table) && Ranked(g, pos) && 0 <= a < |pos| && Reachable(t, a, b)
    ensures 0 <= b < |pos| && (a != b ==> g.rank(pos[b]) < g.rank(pos[a]))
  {
    hide Sound, Structure, Ranked;
    var p :| IsPath(t, p) && p[0] == a && p[|p| - 1] == b;
    PathRank(g, t, pos, table, p);
    PathEnds(t, p);
  }

  lemma CopyKeepsRanks<S(!new), M(!new)>(g: Game<S, M>, t: Tree<M>, pos: seq<S>, table: map<int, int>, root: int,
                                         t': Tree<M>, olds: seq<int>)
    requires Sound(g) && Structure(g, t, pos, table) && Ranked(g, pos) && IsCopy(t, root, t', olds)
    ensures Ranked(g, Select(pos, olds))
  {
    hide Sound, Structure, Ranked, Reachable, IsCopy;
    CopySizes(g, t, pos, table, root, t', olds);
    var pos' := Select(pos, olds);
    forall i | 0 < i < |pos'| ensures g.rank(pos'[i]) < g.rank(pos'[0]) {
      ReachRank(g, t, pos, table, root, olds[i]);
    }
    MakeRanked(g, pos');
  }

  lemma CopySizes<S, M>(g: Game<S, M>, t: Tree<M>, pos: seq<S>, table: map<int, int>, root: int, t': Tree<M>,
                        olds: seq<int>)
    requires Structure(g, t, pos, table) && IsCopy(t, root, t', olds)
    ensures |olds| > 0 && olds[0] == root && 0 <= root < |pos|
    ensures forall i | 0 <= i < |olds| ::
              0 <= olds[i] < |pos| && Reachable(t, root, olds[i]) && (i > 0 ==> olds[i] != root)
  {
    hide Reachable;
    forall i | 0 <= i < |olds| ensures Reachable(t, root, olds[i]) {
      assert olds[i] in olds;
    }
  }

  /** Every node of the copy but its root was no root before, and so has been visited. */
  lemma CopyKeepsCounts<S(!new), M(!new)>(g: Game<S, M>, t: Tree<M>, pos: seq<S>, table: map<int, int>, root: int,
                                          t': Tree<M>, olds: seq<int>)
    requires Sound(g) && Structure(g, t, pos, table) && Ranked(g, pos) && Counted(t) && IsCopy(t, root, t', olds)
    ensures Counted(t')
  {
    hide Sound, Structure, Reachable;
    CopySizes(g, t, pos, table, root, t', olds);
    forall i | 0 < i < |olds| ensures olds[i] != 0 {
      ReachRank(g, t, pos, table, root, olds[i]);
    }
  }

  lemma PathEnds<M>(t: Tree<M>, p: seq<int>)
    requires IsPath(t, p)
    ensures |p| > 0 && (p[0] != p[|p| - 1] ==> |p| > 1)
  {
  }

  lemma MakeRanked<S, M>(g: Game<S, M>, pos: seq<S>)
    requires |pos| > 0 && forall n | 0 < n < |pos| :: g.rank(pos[n]) < g.rank(pos[0])
    ensures Ranked(g, pos)
  {
  }
}
