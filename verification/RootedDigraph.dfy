/** The rooted digraph: two arenas in which arcs and nodes are chained into in- and out-lists. */
module RootedDigraph {
  import opened Lists
  import opened Ids
  import opened Graphs
  import opened Slicing
  import opened Traversal

  datatype Arc<+A> = Arc(source: int, target: int, nextIn: int, nextOut: int, data: A)

  datatype Node<+N> = Node(headIn: int, tailIn: int, headOut: int, tailOut: int, data: N)

  datatype Link = Link(arc: int, target: int)

  /** The list `l` as a chain: `next` leads from each arc to the following one and ends in `NO_ARC`. */
  function Following(l: seq<int>, i: int): int
    requires 0 <= i < |l|
  {
    if i + 1 < |l| then l[i + 1] else NO_ARC
  }

  ghost predicate Increasing(l: seq<int>) {
    forall i, j | 0 <= i < j < |l| :: l[i] < l[j]
  }

  ghost predicate OutList<A, N>(arcs: seq<Arc<A>>, n: int, v: Node<N>, l: seq<int>) {
    && Increasing(l)
    && v.headOut == (if l == [] then NO_ARC else l[0]) && v.tailOut == (if l == [] then NO_ARC else l[|l| - 1])
    && forall i | 0 <= i < |l| :: 0 <= l[i] < |arcs| && arcs[l[i]].source == n && arcs[l[i]].nextOut == Following(l, i)
  }

  ghost predicate InList<A, N>(arcs: seq<Arc<A>>, n: int, v: Node<N>, l: seq<int>) {
    && Increasing(l) && l != [] && v.headIn == l[0] && v.tailIn == l[|l| - 1]
    && forall i | 0 <= i < |l| :: 0 <= l[i] < |arcs| && arcs[l[i]].target == n && arcs[l[i]].nextIn == Following(l, i)
  }

  /** Every node's lists are duplicate-free chains from head to tail, every arc lies in the in-list
      of its target, and every arc but the root arc lies in the out-list of its source. */
  ghost predicate Chained<A, N>(arcs: seq<Arc<A>>, nodes: seq<Node<N>>, outs: seq<seq<int>>, ins: seq<seq<int>>) {
    && |outs| == |ins| == |nodes| > 0 && |arcs| > 0
    && (forall n | 0 <= n < |nodes| :: OutList(arcs, n, nodes[n], outs[n]) && InList(arcs, n, nodes[n], ins[n]))
    && (forall a | 0 <= a < |arcs| :: 0 <= arcs[a].target < |nodes| && a in ins[arcs[a].target])
    && (forall a | 0 < a < |arcs| :: 0 <= arcs[a].source < |nodes| && a in outs[arcs[a].source])
    && arcs[0].source == NO_NODE
  }

  function EdgeOf<A>(a: Arc<A>): Edge<A> {
    Edge(a.data, a.target)
  }

  /** The arenas hold the graph `g`. */
  ghost predicate Holds<A, N>(arcs: seq<Arc<A>>, nodes: seq<Node<N>>, outs: seq<seq<int>>, g: Graph<A, N>) {
    && |outs| == |nodes| == |g.nodes| == |g.out|
    && (forall n | 0 <= n < |nodes| :: g.nodes[n] == nodes[n].data && |g.out[n]| == |outs[n]|)
    && (forall n, k | 0 <= n < |nodes| && 0 <= k < |outs[n]| ::
          0 <= outs[n][k] < |arcs| && g.out[n][k] == EdgeOf(arcs[outs[n][k]]))
  }

  lemma HoldsWellFormed<A, N>(arcs: seq<Arc<A>>, nodes: seq<Node<N>>, outs: seq<seq<int>>, ins: seq<seq<int>>,
                              g: Graph<A, N>)
    requires Chained(arcs, nodes, outs, ins) && Holds(arcs, nodes, outs, g)
    ensures WellFormed(g)
  {
    hide OutList, InList;
  }

  // ----- Appending

  lemma InListGrows<A, N>(arcs: seq<Arc<A>>, arcs': seq<Arc<A>>, n: int, v: Node<N>, v': Node<N>, l: seq<int>, a: int)
    requires InList(arcs, n, v, l) && |arcs| == a && |arcs'| == a + 1
    requires arcs'[a].target == n && arcs'[a].nextIn == NO_ARC
    requires forall x | 0 <= x < a ::
               arcs'[x].target == arcs[x].target && arcs'[x].nextIn == if x == v.tailIn then a else arcs[x].nextIn
    requires v'.headIn == v.headIn && v'.tailIn == a
    ensures InList(arcs', n, v', l + [a])
  {
  }

  lemma InListStays<A, N>(arcs: seq<Arc<A>>, arcs': seq<Arc<A>>, n: int, v: Node<N>, v': Node<N>, l: seq<int>)
    requires InList(arcs, n, v, l) && |arcs| <= |arcs'|
    requires forall x | 0 <= x < |arcs| ::
               arcs'[x].target == arcs[x].target && (arcs[x].target == n ==> arcs'[x].nextIn == arcs[x].nextIn)
    requires v'.headIn == v.headIn && v'.tailIn == v.tailIn
    ensures InList(arcs', n, v', l)
  {
  }

  lemma OutListGrows<A, N>(arcs: seq<Arc<A>>, arcs': seq<Arc<A>>, n: int, v: Node<N>, v': Node<N>, l: seq<int>, a: int)
    requires OutList(arcs, n, v, l) && |arcs| == a && |arcs'| == a + 1
    requires arcs'[a].source == n && arcs'[a].nextOut == NO_ARC
    requires forall x | 0 <= x < a ::
               arcs'[x].source == arcs[x].source && arcs'[x].nextOut == if x == v.tailOut then a else arcs[x].nextOut
    requires v'.headOut == (if v.headOut == NO_ARC then a else v.headOut) && v'.tailOut == a
    ensures OutList(arcs', n, v', l + [a])
  {
  }

  lemma OutListStays<A, N>(arcs: seq<Arc<A>>, arcs': seq<Arc<A>>, n: int, v: Node<N>, v': Node<N>, l: seq<int>)
    requires OutList(arcs, n, v, l) && |arcs| <= |arcs'|
    requires forall x | 0 <= x < |arcs| ::
               arcs'[x].source == arcs[x].source && (arcs[x].source == n ==> arcs'[x].nextOut == arcs[x].nextOut)
    requires v'.headOut == v.headOut && v'.tailOut == v.tailOut
    ensures OutList(arcs', n, v', l)
  {
  }

  /** The arenas after `addArcUnsafe`. */
  ghost predicate ArcAdded<A, N>(arcs: seq<Arc<A>>, nodes: seq<Node<N>>, arcs': seq<Arc<A>>, nodes': seq<Node<N>>,
                                 s: int, t: int, d: A) {
    && 0 <= s < |nodes| && 0 <= t < |nodes| && |arcs'| == |arcs| + 1 && |nodes'| == |nodes|
    && arcs'[|arcs|] == Arc(s, t, NO_ARC, NO_ARC, d)
    && (forall x | 0 <= x < |arcs| ::
          arcs'[x] == arcs[x].(nextIn := if x == nodes[t].tailIn then |arcs| else arcs[x].nextIn,
                               nextOut := if x == nodes[s].tailOut then |arcs| else arcs[x].nextOut))
    && (forall n | 0 <= n < |nodes| ::
          nodes'[n] == nodes[n].(tailIn := if n == t then |arcs| else nodes[n].tailIn,
                                 headOut := if n == s && nodes[n].headOut == NO_ARC then |arcs| else nodes[n].headOut,
                                 tailOut := if n == s then |arcs| else nodes[n].tailOut))
  }

  lemma ArcAddedChained<A, N>(arcs: seq<Arc<A>>, nodes: seq<Node<N>>, outs: seq<seq<int>>, ins: seq<seq<int>>,
                              arcs': seq<Arc<A>>, nodes': seq<Node<N>>, s: int, t: int, d: A)
    requires Chained(arcs, nodes, outs, ins) && ArcAdded(arcs, nodes, arcs', nodes', s, t, d)
    ensures var a := |arcs|; Chained(arcs', nodes', outs[s := outs[s] + [a]], ins[t := ins[t] + [a]])
  {
    hide OutList, InList;
    var a := |arcs|;
    var outs', ins' := outs[s := outs[s] + [a]], ins[t := ins[t] + [a]];
    TailsBelong(arcs, nodes, outs, ins, s, t);
    forall n | 0 <= n < |nodes| ensures OutList(arcs', n, nodes'[n], outs'[n]) && InList(arcs', n, nodes'[n], ins'[n]) {
      if n == s { OutListGrows(arcs, arcs', n, nodes[n], nodes'[n], outs[n], a); }
      else { OutListStays(arcs, arcs', n, nodes[n], nodes'[n], outs[n]); }
      if n == t { InListGrows(arcs, arcs', n, nodes[n], nodes'[n], ins[n], a); }
      else { InListStays(arcs, arcs', n, nodes[n], nodes'[n], ins[n]); }
    }
  }

  lemma TailsBelong<A, N>(arcs: seq<Arc<A>>, nodes: seq<Node<N>>, outs: seq<seq<int>>, ins: seq<seq<int>>, s: int,
                          t: int)
    requires Chained(arcs, nodes, outs, ins) && 0 <= s < |nodes| && 0 <= t < |nodes|
    ensures 0 <= nodes[t].tailIn < |arcs| && arcs[nodes[t].tailIn].target == t
    ensures nodes[s].headOut == NO_ARC <==> nodes[s].tailOut == NO_ARC
    ensures nodes[s].headOut != NO_ARC ==> 0 <= nodes[s].tailOut < |arcs| && arcs[nodes[s].tailOut].source == s
  {
    assert OutList(arcs, s, nodes[s], outs[s]) && InList(arcs, t, nodes[t], ins[t]);
  }

  lemma ArcAddedGraph<A, N>(arcs: seq<Arc<A>>, nodes: seq<Node<N>>, outs: seq<seq<int>>, g: Graph<A, N>,
                            arcs': seq<Arc<A>>, nodes': seq<Node<N>>, s: int, t: int, d: A)
    requires Holds(arcs, nodes, outs, g) && ArcAdded(arcs, nodes, arcs', nodes', s, t, d)
    ensures Holds(arcs', nodes', outs[s := outs[s] + [|arcs|]], AddArc(g, s, t, d))
  {
  }

  /** The arenas after `addNodeUnsafe`. */
  ghost predicate NodeAdded<A, N>(arcs: seq<Arc<A>>, nodes: seq<Node<N>>, arcs': seq<Arc<A>>, nodes': seq<Node<N>>,
                                  s: int, d: A, e: N) {
    && 0 <= s < |nodes| && |arcs'| == |arcs| + 1 && |nodes'| == |nodes| + 1
    && arcs'[|arcs|] == Arc(s, |nodes|, NO_ARC, NO_ARC, d)
    && nodes'[|nodes|] == Node(|arcs|, |arcs|, NO_ARC, NO_ARC, e)
    && (forall x | 0 <= x < |arcs| ::
          arcs'[x] == arcs[x].(nextOut := if x == nodes[s].tailOut then |arcs| else arcs[x].nextOut))
    && (forall n | 0 <= n < |nodes| ::
          nodes'[n] == nodes[n].(headOut := if n == s && nodes[n].headOut == NO_ARC then |arcs| else nodes[n].headOut,
                                 tailOut := if n == s then |arcs| else nodes[n].tailOut))
  }

  lemma NodeAddedChained<A, N>(arcs: seq<Arc<A>>, nodes: seq<Node<N>>, outs: seq<seq<int>>, ins: seq<seq<int>>,
                               arcs': seq<Arc<A>>, nodes': seq<Node<N>>, s: int, d: A, e: N)
    requires Chained(arcs, nodes, outs, ins) && NodeAdded(arcs, nodes, arcs', nodes', s, d, e)
    ensures var a := |arcs|; Chained(arcs', nodes', outs[s := outs[s] + [a]] + [[]], ins + [[a]])
  {
    hide OutList, InList;
    var a := |arcs|;
    var outs', ins' := outs[s := outs[s] + [a]] + [[]], ins + [[a]];
    TailsBelong(arcs, nodes, outs, ins, s, s);
    forall n | 0 <= n < |nodes'|
      ensures OutList(arcs', n, nodes'[n], outs'[n]) && InList(arcs', n, nodes'[n], ins'[n])
    {
      if n == |nodes| {
        NewNodeLists(arcs', n, nodes'[n], a);
      } else {
        InListStays(arcs, arcs', n, nodes[n], nodes'[n], ins[n]);
        if n == s { OutListGrows(arcs, arcs', n, nodes[n], nodes'[n], outs[n], a); }
        else { OutListStays(arcs, arcs', n, nodes[n], nodes'[n], outs[n]); }
      }
    }
  }

  lemma NewNodeLists<A, N>(arcs: seq<Arc<A>>, n: int, v: Node<N>, a: int)
    requires 0 <= a < |arcs| && arcs[a].target == n && arcs[a].nextIn == NO_ARC
    requires v.headIn == v.tailIn == a && v.headOut == v.tailOut == NO_ARC
    ensures OutList(arcs, n, v, []) && InList(arcs, n, v, [a])
  {
  }

  lemma NodeAddedGraph<A, N>(arcs: seq<Arc<A>>, nodes: seq<Node<N>>, outs: seq<seq<int>>, g: Graph<A, N>,
                             arcs': seq<Arc<A>>, nodes': seq<Node<N>>, s: int, d: A, e: N)
    requires Holds(arcs, nodes, outs, g) && NodeAdded(arcs, nodes, arcs', nodes', s, d, e)
    ensures Holds(arcs', nodes', outs[s := outs[s] + [|arcs|]] + [[]], AddNode(g, s, d, e))
  {
  }

  class Tree<A, N> {
    var arcs: seq<Arc<A>>
    var nodes: seq<Node<N>>
    var rootArc: int
    var rootNode: int
    ghost var outs: seq<seq<int>>   // the out-list of each node
    ghost var ins: seq<seq<int>>    // the in-list of each node
    ghost var graph: Graph<A, N>

    ghost predicate Valid()
      reads this
    {
      Chained(arcs, nodes, outs, ins) && Holds(arcs, nodes, outs, graph)
    }

    /** One root node with a root arc that comes from nowhere. */
    constructor (a: A, n: N)
      ensures Valid() && graph == Graph([n], [[]]) && rootNode == 0 && rootArc == 0 && ins == [[0]]
    {
      rootArc, rootNode := 0, 0;
      arcs := [Arc(NO_NODE, 0, NO_ARC, NO_ARC, a)];
      nodes := [Node(0, 0, NO_ARC, NO_ARC, n)];
      outs, ins, graph := [[]], [[0]], Graph([n], [[]]);
      new;
      NewNodeLists(arcs, 0, nodes[0], 0);
    }

    /** `addArcUnsafe`: the new arc goes to the end of both lists. */
    method AddArc(s: int, t: int, d: A) returns (l: Link)
      requires Valid() && 0 <= s < |nodes| && 0 <= t < |nodes|
      modifies this`arcs, this`nodes, this`outs, this`ins, this`graph
      ensures Valid() && l == Link(|old(arcs)|, t)
      ensures graph == Slicing.AddArc(old(graph), s, t, d)
      ensures outs == old(outs)[s := old(outs)[s] + [l.arc]] && ins == old(ins)[t := old(ins)[t] + [l.arc]]
    {
      hide Chained, Holds;
      ghost var arcs0, nodes0 := arcs, nodes;
      TailsBelong(arcs, nodes, outs, ins, s, t);
      var a := |arcs|;
      arcs := arcs + [Arc(s, t, NO_ARC, NO_ARC, d)];
      var tail := nodes[t].tailIn;
      arcs := arcs[tail := arcs[tail].(nextIn := a)];
      nodes := nodes[t := nodes[t].(tailIn := a)];
      AppendOut(s, a);
      assert ArcAdded(arcs0, nodes0, arcs, nodes, s, t, d);
      ArcAddedChained(arcs0, nodes0, outs, ins, arcs, nodes, s, t, d);
      ArcAddedGraph(arcs0, nodes0, outs, graph, arcs, nodes, s, t, d);
      SizesMatch(arcs0, nodes0, outs, ins, graph);
      outs, ins, graph := outs[s := outs[s] + [a]], ins[t := ins[t] + [a]], Slicing.AddArc(graph, s, t, d);
      l := Link(a, t);
    }

    /** Puts arc `a` behind the last out-arc of `s`. */
    method AppendOut(s: int, a: int)
      requires 0 <= s < |nodes| && 0 <= a < |arcs|
      requires nodes[s].headOut == NO_ARC <==> nodes[s].tailOut == NO_ARC
      requires nodes[s].headOut != NO_ARC ==> 0 <= nodes[s].tailOut < a
      modifies this`arcs, this`nodes
      ensures |arcs| == |old(arcs)| && |nodes| == |old(nodes)|
      ensures forall x | 0 <= x < |arcs| ::
                arcs[x] == old(arcs)[x].(nextOut := if x == old(nodes)[s].tailOut then a else old(arcs)[x].nextOut)
      ensures forall n | 0 <= n < |nodes| ::
                var v := old(nodes)[n];
                nodes[n] == if n != s then v
                            else v.(headOut := if v.headOut == NO_ARC then a else v.headOut, tailOut := a)
    {
      if nodes[s].headOut == NO_ARC {
        nodes := nodes[s := nodes[s].(headOut := a, tailOut := a)];
      } else {
        var tail := nodes[s].tailOut;
        arcs := arcs[tail := arcs[tail].(nextOut := a)];
        nodes := nodes[s := nodes[s].(tailOut := a)];
      }
    }

    /** `addNodeUnsafe`: a new node together with the arc that leads to it. */
    method AddNode(s: int, d: A, e: N) returns (l: Link)
      requires Valid() && 0 <= s < |nodes|
      modifies this`arcs, this`nodes, this`outs, this`ins, this`graph
      ensures Valid() && l == Link(|old(arcs)|, |old(nodes)|)
      ensures graph == Slicing.AddNode(old(graph), s, d, e)
      ensures outs == old(outs)[s := old(outs)[s] + [l.arc]] + [[]] && ins == old(ins) + [[l.arc]]
    {
      hide Chained, Holds;
      ghost var arcs0, nodes0 := arcs, nodes;
      TailsBelong(arcs, nodes, outs, ins, s, s);
      var a, t := |arcs|, |nodes|;
      arcs := arcs + [Arc(NO_NODE, NO_NODE, NO_ARC, NO_ARC, d)];
      nodes := nodes + [Node(a, a, NO_ARC, NO_ARC, e)];
      arcs := arcs[a := arcs[a].(source := s, target := t)];
      AppendOut(s, a);
      assert NodeAdded(arcs0, nodes0, arcs, nodes, s, d, e);
      NodeAddedChained(arcs0, nodes0, outs, ins, arcs, nodes, s, d, e);
      NodeAddedGraph(arcs0, nodes0, outs, graph, arcs, nodes, s, d, e);
      SizesMatch(arcs0, nodes0, outs, ins, graph);
      outs, ins, graph := outs[s := outs[s] + [a]] + [[]], ins + [[a]], Slicing.AddNode(graph, s, d, e);
      l := Link(a, t);
    }

    /** `outArcNum`: walking the out-list counts its arcs. */
    method OutArcNum(n: int) returns (count: nat)
      requires Valid() && 0 <= n < |nodes|
      ensures count == |graph.out[n]|
    {
      ghost var l := outs[n];
      assert OutList(arcs, n, nodes[n], l);
      count := 0;
      var a := nodes[n].headOut;
      while a != NO_ARC
        invariant count <= |l| && a == if count < |l| then l[count] else NO_ARC
        decreases |l| - count
      {
        a := arcs[a].nextOut;
        count := count + 1;
      }
    }

    /** `inArcNum`: the number of arcs that lead to a node. */
    method InArcNum(n: int) returns (count: nat)
      requires Valid() && 0 <= n < |nodes|
      ensures count == |ins[n]| == |set a | 0 <= a < |arcs| && arcs[a].target == n|
    {
      hide Chained, Holds;
      SizesMatch(arcs, nodes, outs, ins, graph);
      ghost var l := ins[n];
      InListFacts(arcs, nodes, outs, ins, n);
      count := 0;
      var a := nodes[n].headIn;
      while a != NO_ARC
        invariant count <= |l| && a == if count < |l| then l[count] else NO_ARC
        decreases |l| - count
      {
        a := arcs[a].nextIn;
        count := count + 1;
      }
      InListSize(arcs, nodes, outs, ins, n);
    }

    /** `link(s, t)`: the first arc from `s` to `t`, if there is one. */
    method FindLink(s: int, t: int) returns (l: Link)
      requires Valid() && 0 <= s < |nodes|
      ensures l.target == t && (l.arc == NO_ARC <==> !HasArc(graph, s, t))
      ensures l.arc != NO_ARC ==> exists k | 0 <= k < |graph.out[s]| ::
                outs[s][k] == l.arc && graph.out[s][k].target == t && forall j | 0 <= j < k ::
                    graph.out[s][j].target != t
    {
      hide Chained, Holds;
      SizesMatch(arcs, nodes, outs, ins, graph);
      var a, k := HeadOut(s);
      ghost var out := outs[s];
      while a != NO_ARC
        invariant 0 <= k <= |out| == |graph.out[s]| && a == if k < |out| then out[k] else NO_ARC
        invariant forall j | 0 <= j < k :: graph.out[s][j].target != t
        decreases |out| - k
      {
        var target, next := Follow(s, a, k);
        if target == t {
          assert outs[s][k] == a;
          return Link(a, t);
        }
        a, k := next, k + 1;
      }
      l := Link(NO_ARC, t);
    }

    // ----- Slicing

    /** Replaces the data of the root of a tree that has no other node. */
    method SetRootData(e: N)
      requires Valid() && |nodes| == 1
      modifies this`nodes, this`graph
      ensures Valid() && graph == old(graph).(nodes := [e]) && |nodes| == 1
    {
      hide Chained, Holds;
      RootDataSet(arcs, nodes, outs, ins, graph, e);
      nodes := [nodes[0].(data := e)];
      graph := graph.(nodes := [e]);
    }

    /** One turn of the inner loop of both slices: copies the `k`-th out-arc of `parent` and, if its
        target is met for the first time, the target. */
    method CopyArc(newTree: Tree<A, N>, parent: int, a: int, visited: seq<int>, ghost k: int, ghost root: int,
                   ghost olds: seq<int>, ghost todo: set<int>)
      returns (visited': seq<int>, child: int, next: int, ghost olds': seq<int>)
      requires this != newTree && Valid() && newTree.Valid() && 0 <= parent < |graph.out| && |outs| == |graph.out|
      requires 0 <= k < |outs[parent]| == |graph.out[parent]| && a == outs[parent][k]
      requires Copying(graph, root, newTree.graph, visited, olds, todo, parent, k)
      modifies newTree`arcs, newTree`nodes, newTree`outs, newTree`ins, newTree`graph
      ensures newTree.Valid() && 0 <= child < |visited|
      ensures next == if k + 1 < |outs[parent]| then outs[parent][k + 1] else NO_ARC
      ensures var unseen := visited[child] == NO_NODE;
              && Copying(graph, root, newTree.graph, visited', olds', if unseen then todo + {child} else todo,
                         parent, k + 1)
              && |visited'| == |visited| && visited'[child] >= 0
              && child == graph.out[parent][k].target && (unseen <==> child !in olds)
              && olds' == (if unseen then olds + [child] else olds)
              && (forall n | 0 <= n < |visited| && (n != child || !unseen) :: visited'[n] == visited[n])
    {
      hide Chained, Holds, Copying;
      child, next := Follow(parent, a, k);
      CopyingSizes(graph, root, newTree.graph, visited, olds, todo, parent, k);
      CopyingTarget(graph, root, newTree.graph, visited, olds, todo, parent, k);
      CopyingSeen(graph, root, newTree.graph, visited, olds, todo, parent, k, child);
      SizesMatch(newTree.arcs, newTree.nodes, newTree.outs, newTree.ins, newTree.graph);
      if visited[child] == NO_NODE {
        CopyNew(graph, root, newTree.graph, visited, olds, todo, parent, k);
        var link := newTree.AddNode(visited[parent], arcs[a].data, nodes[child].data);
        visited', olds' := visited[child := link.target], olds + [child];
      } else {
        CopySeen(graph, root, newTree.graph, visited, olds, todo, parent, k);
        var link := newTree.AddArc(visited[parent], visited[child], arcs[a].data);
        visited', olds' := visited, olds;
      }
    }

    /** The inner loop of both slices: copies the out-arcs of `parent` in order and tells which
        nodes were met for the first time. */
    method CopyOut(newTree: Tree<A, N>, parent: int, visited: seq<int>, ghost root: int, ghost olds: seq<int>,
                   ghost todo: set<int>)
      returns (visited': seq<int>, found: seq<int>, ghost olds': seq<int>)
      requires this != newTree && Valid() && newTree.Valid() && 0 <= parent < |visited|
      requires Copying(graph, root, newTree.graph, visited, olds, todo, parent, 0)
      modifies newTree`arcs, newTree`nodes, newTree`outs, newTree`ins, newTree`graph
      ensures newTree.Valid()
      ensures Copying(graph, root, newTree.graph, visited', olds', todo + (set x | x in found), -1, 0)
      ensures NoRepeats(found)
      ensures forall i | 0 <= i < |found| ::
                found[i] !in todo && found[i] != parent && 0 <= found[i] < |visited| && visited[found[i]] == NO_NODE
      ensures |visited'| == |visited|
      ensures forall n | 0 <= n < |visited| && visited[n] != NO_NODE :: visited'[n] == visited[n]
      ensures |graph.out| == |visited| && found == Discovered(graph.out[parent], olds) && olds' == olds + found
    {
      hide Chained, Holds, Copying, Discovered;
      visited', found, olds' := visited, [], olds;
      CopyingSizes(graph, root, newTree.graph, visited, olds, todo, parent, 0);
      FoundFresh(graph, root, newTree.graph, visited, olds, todo, parent);
      var a, k := HeadOut(parent);
      NoneFound(todo);
      DiscoveredEnd(graph.out[parent], olds);
      while a != NO_ARC
        invariant newTree.Valid() && 0 <= k <= |outs[parent]| && |outs[parent]| == |graph.out[parent]|
        invariant a == if k < |outs[parent]| then outs[parent][k] else NO_ARC
        invariant forall i | 0 <= i < |outs[parent]| :: outs[parent][i] != NO_ARC
        invariant Copying(graph, root, newTree.graph, visited', olds', todo + (set x | x in found), parent, k)
        invariant |visited'| == |visited| == |graph.nodes| && |graph.out| == |graph.nodes|
        invariant forall n | 0 <= n < |visited| && visited[n] != NO_NODE :: visited'[n] == visited[n]
        invariant found == Discovered(graph.out[parent][..k], olds) && olds' == olds + found
        decreases |outs[parent]| - k
      {
        DiscoveredStep(graph.out[parent], k, olds);
        var before, child := visited', 0;
        visited', child, a, olds' := CopyArc(newTree, parent, a, visited', k, root, olds', todo + (set x | x in found));
        if before[child] == NO_NODE {
          OneMore(todo, found, child);
          found := found + [child];
        }
        k := k + 1;
      }
      CopyEnd(graph, root, newTree.graph, visited', olds', todo + (set x | x in found), parent);
    }

    /** The first out-arc of a node. */
    method HeadOut(n: int) returns (a: int, ghost k: int)
      requires Valid() && 0 <= n < |graph.out|
      ensures k == 0 && |outs| == |graph.out| && |outs[n]| == |graph.out[n]|
      ensures a == if outs[n] != [] then outs[n][0] else NO_ARC
      ensures forall i | 0 <= i < |outs[n]| :: outs[n][i] != NO_ARC
    {
      hide InList;
      assert OutList(arcs, n, nodes[n], outs[n]);
      a, k := nodes[n].headOut, 0;
    }

    /** The target of an out-arc and the arc after it. */
    method Follow(n: int, a: int, ghost k: int) returns (child: int, next: int)
      requires Valid() && 0 <= n < |graph.out| && |outs| == |graph.out| && 0 <= k < |outs[n]| && a == outs[n][k]
      ensures 0 <= a < |arcs| && |graph.out[n]| == |outs[n]| && graph.out[n][k] == Edge(arcs[a].data, child)
      ensures 0 <= child < |nodes| && |graph.nodes| == |nodes| && nodes[child].data == graph.nodes[child]
      ensures next == if k + 1 < |outs[n]| then outs[n][k + 1] else NO_ARC
    {
      hide Chained, Holds;
      OutArcFacts(arcs, nodes, outs, ins, graph, n, k);
      child, next := arcs[a].target, arcs[a].nextOut;
    }

    /** `sliceDF`: a stack decides the order. Nothing happens if the new root does not exist. */
    method SliceDF(newTree: Tree<A, N>, root: int)
        returns (ghost olds: seq<int>, ghost exp: seq<int>, ghost known: seq<int>)
      requires this != newTree && Valid() && rootNode == 0 && (root == NO_NODE || 0 <= root < |nodes|)
      requires newTree.Valid() && |newTree.nodes| == 1 && newTree.graph.out == [[]]
      modifies newTree
      ensures newTree.Valid()
      ensures if root == NO_NODE then newTree.graph == old(newTree.graph) else IsCopy(graph, root, newTree.graph, olds)
      ensures root != NO_NODE ==> IsDepthFirst(graph, olds, exp, known)
    {
      hide Chained, Holds, Copying, IsCopy, Expansions, LatestFirst, StackOrder, StackHolds;
      hide IsDepthFirst, Worklist, Discovered;
      olds, exp, known := [root], [], [1];
      if root == NO_NODE { return; }
      HoldsWellFormed(arcs, nodes, outs, ins, graph);
      SizesMatch(arcs, nodes, outs, ins, graph);
      DataMatch(arcs, nodes, outs, graph, root);
      var visited := seq(|nodes|, i => NO_NODE)[root := rootNode];
      var stack := [root];
      newTree.SetRootData(nodes[root].data);
      CopyStart(graph, root, nodes[root].data);
      ghost var at := [0];      // the positions of the nodes on the stack
      ExpansionsStart(graph, root);
      StackStarts(root);
      ghost var todo, done := {root}, {};
      WorklistStarts(root, |graph.nodes|);
      while |stack| != 0
        invariant newTree.Valid() && Copying(graph, root, newTree.graph, visited, olds, todo, -1, 0)
        invariant Worklist(stack, todo, done, |graph.nodes|) && |visited| == |graph.nodes|
        invariant forall n | n in done :: 0 <= n < |visited| && visited[n] != NO_NODE
        invariant Expansions(graph, olds, exp, known) && |known| == |exp| + 1 && known[|exp|] == |olds|
        invariant LatestFirst(exp, known) && StackOrder(at, exp, |olds|)
        invariant |at| == |stack| && StackHolds(stack, at, olds)
        decreases Range(|graph.nodes|) - done
      {
        var parent := stack[|stack| - 1];
        ghost var whole := stack;
        PopBack(stack, todo, done, |graph.nodes|);
        stack := stack[..|stack| - 1];
        CopyBegin(graph, root, newTree.graph, visited, olds, todo, parent);
        CopyingSizes(graph, root, newTree.graph, visited, olds, todo, -1, 0);
        todo := todo - {parent};
        var found;
        ghost var before, e := olds, at[|at| - 1];
        visited, found, olds := CopyOut(newTree, parent, visited, root, olds, todo);
        StackHoldsStep(whole, at, before, found);
        ExpansionsGrow(graph, before, exp, known, e, found);
        StackStep(at, exp, known, |before|, |found|);
        at := at[..|at| - 1] + seq(|found|, i => |before| + i);
        exp, known := exp + [e], known + [|olds|];
        Push(stack, todo, done + {parent}, |graph.nodes|, found);
        stack := stack + found;
        todo, done := todo + (set x | x in found), done + {parent};
      }
      EmptyTodo(stack, todo, done, |graph.nodes|);
      assert at == [];
      StackEnds(graph, olds, exp, known);
      CopyDone(graph, root, newTree.graph, visited, olds);
    }

    /** `sliceBF`: a queue decides the order. Nothing happens if the new root does not exist. */
    method SliceBF(newTree: Tree<A, N>, root: int) returns (ghost olds: seq<int>, ghost known: seq<int>)
      requires this != newTree && Valid() && rootNode == 0 && (root == NO_NODE || 0 <= root < |nodes|)
      requires newTree.Valid() && |newTree.nodes| == 1 && newTree.graph.out == [[]]
      modifies newTree
      ensures newTree.Valid()
      ensures if root == NO_NODE then newTree.graph == old(newTree.graph) else IsCopy(graph, root, newTree.graph, olds)
      ensures root != NO_NODE ==> IsBreadthFirst(graph, olds, known)
    {
      hide Chained, Holds, Copying, IsCopy, Expansions, FirstNumbers, IsBreadthFirst, Discovered, Worklist;
      olds, known := [root], [1];
      if root == NO_NODE { return; }
      HoldsWellFormed(arcs, nodes, outs, ins, graph);
      SizesMatch(arcs, nodes, outs, ins, graph);
      DataMatch(arcs, nodes, outs, graph, root);
      var visited := seq(|nodes|, i => NO_NODE)[root := rootNode];
      var queue := [root];
      newTree.SetRootData(nodes[root].data);
      CopyStart(graph, root, nodes[root].data);
      ghost var t := 0;
      ExpansionsStart(graph, root);
      NoNumbers();
      ghost var todo, done := {root}, {};
      WorklistStarts(root, |graph.nodes|);
      while |queue| != 0
        invariant newTree.Valid() && Copying(graph, root, newTree.graph, visited, olds, todo, -1, 0)
        invariant Worklist(queue, todo, done, |graph.nodes|) && |visited| == |graph.nodes|
        invariant forall n | n in done :: 0 <= n < |visited| && visited[n] != NO_NODE
        invariant 0 <= t <= |olds| && queue == olds[t..] && Expansions(graph, olds, FirstNumbers(t), known)
        decreases Range(|graph.nodes|) - done
      {
        var parent := queue[0];
        PopFront(queue, todo, done, |graph.nodes|);
        ghost var whole := queue;
        queue := queue[1..];
        CopyBegin(graph, root, newTree.graph, visited, olds, todo, parent);
        CopyingSizes(graph, root, newTree.graph, visited, olds, todo, -1, 0);
        todo := todo - {parent};
        var found;
        ghost var before := olds;
        visited, found, olds := CopyOut(newTree, parent, visited, root, olds, todo);
        QueueStep(whole, before, t, found);
        ExpansionsGrow(graph, before, FirstNumbers(t), known, t, found);
        NextNumber(t);
        t, known := t + 1, known + [|olds|];
        Push(queue, todo, done + {parent}, |graph.nodes|, found);
        queue := queue + found;
        todo, done := todo + (set x | x in found), done + {parent};
      }
      EmptyTodo(queue, todo, done, |graph.nodes|);
      QueueEnds(graph, olds, t, known);
      CopyDone(graph, root, newTree.graph, visited, olds);
    }
  }

  lemma SizesMatch<A, N>(arcs: seq<Arc<A>>, nodes: seq<Node<N>>, outs: seq<seq<int>>, ins: seq<seq<int>>,
                         g: Graph<A, N>)
    requires Chained(arcs, nodes, outs, ins) && Holds(arcs, nodes, outs, g)
    ensures |outs| == |ins| == |nodes| == |g.out| == |g.nodes| && |arcs| > 0
  {
  }

  /** The in-list of a node holds exactly the arcs that lead to it. */
  lemma InListFacts<A, N>(arcs: seq<Arc<A>>, nodes: seq<Node<N>>, outs: seq<seq<int>>, ins: seq<seq<int>>, n: int)
    requires Chained(arcs, nodes, outs, ins) && 0 <= n < |nodes|
    ensures |ins| == |nodes| && InList(arcs, n, nodes[n], ins[n])
    ensures forall a | 0 <= a < |arcs| && arcs[a].target == n :: a in ins[n]
  {
    hide OutList, InList;
  }

  lemma InListSize<A, N>(arcs: seq<Arc<A>>, nodes: seq<Node<N>>, outs: seq<seq<int>>, ins: seq<seq<int>>, n: int)
    requires Chained(arcs, nodes, outs, ins) && 0 <= n < |nodes|
    ensures |ins| == |nodes| && |ins[n]| == |set a | 0 <= a < |arcs| && arcs[a].target == n|
  {
    hide Chained;
    InListFacts(arcs, nodes, outs, ins, n);
    SeqSize(ins[n]);
    assert (set x | x in ins[n]) == set a | 0 <= a < |arcs| && arcs[a].target == n;
  }

  lemma OutArcFacts<A, N>(arcs: seq<Arc<A>>, nodes: seq<Node<N>>, outs: seq<seq<int>>, ins: seq<seq<int>>,
                          g: Graph<A, N>, n: int, k: int)
    requires Chained(arcs, nodes, outs, ins) && Holds(arcs, nodes, outs, g) && 0 <= n < |outs| && 0 <= k < |outs[n]|
    ensures |outs| == |g.out| && |outs[n]| == |g.out[n]| && 0 <= outs[n][k] < |arcs|
    ensures arcs[outs[n][k]].nextOut == Following(outs[n], k)
    ensures var e := arcs[outs[n][k]];
            && 0 <= e.target < |nodes| == |g.nodes|
            && g.out[n][k] == Edge(e.data, e.target) && nodes[e.target].data == g.nodes[e.target]
  {
    hide InList;
    assert OutList(arcs, n, nodes[n], outs[n]);
  }

  lemma RootDataSet<A, N>(arcs: seq<Arc<A>>, nodes: seq<Node<N>>, outs: seq<seq<int>>, ins: seq<seq<int>>,
                          g: Graph<A, N>, e: N)
    requires Chained(arcs, nodes, outs, ins) && Holds(arcs, nodes, outs, g) && |nodes| == 1
    ensures var nodes' := [nodes[0].(data := e)];
            Chained(arcs, nodes', outs, ins) && Holds(arcs, nodes', outs, g.(nodes := [e]))
  {
    hide OutList, InList;
    RootLists(arcs, nodes[0], e, outs[0], ins[0]);
  }

  lemma RootLists<A, N>(arcs: seq<Arc<A>>, v: Node<N>, e: N, out: seq<int>, in': seq<int>)
    requires OutList(arcs, 0, v, out) && InList(arcs, 0, v, in')
    ensures OutList(arcs, 0, v.(data := e), out) && InList(arcs, 0, v.(data := e), in')
  {
  }

  /** What a node leads to that has no copy yet is neither to do nor being done. */
  lemma FoundFresh<A, N>(g: Graph<A, N>, root: int, h: Graph<A, N>, visited: seq<int>, olds: seq<int>, todo: set<int>,
                         n: int)
    requires Copying(g, root, h, visited, olds, todo, n, 0) && 0 <= n < |visited|
    ensures |visited| == |g.out|
    ensures var found := Discovered(g.out[n], olds);
            && NoRepeats(found)
            && forall i | 0 <= i < |found| ::
                 found[i] !in todo && found[i] != n && 0 <= found[i] < |visited| && visited[found[i]] == NO_NODE
  {
    hide Copying, Discovered;
    CopyingSizes(g, root, h, visited, olds, todo, n, 0);
    CopyingTodo(g, root, h, visited, olds, todo, n, 0);
    var found := Discovered(g.out[n], olds);
    DiscoveredExact(g.out[n], olds, n);
    forall i | 0 <= i < |found|
      ensures found[i] !in todo && found[i] != n && 0 <= found[i] < |visited| && visited[found[i]] == NO_NODE
    {
      assert found[i] in found;
      DiscoveredExact(g.out[n], olds, found[i]);
      var k :| IsTarget(g.out[n], k, found[i]);
      TargetInRange(g, root, h, visited, olds, todo, n, k);
      CopyingSeen(g, root, h, visited, olds, todo, n, 0, found[i]);
    }
  }

  lemma TargetInRange<A, N>(g: Graph<A, N>, root: int, h: Graph<A, N>, visited: seq<int>, olds: seq<int>,
                            todo: set<int>, n: int, k: int)
    requires Copying(g, root, h, visited, olds, todo, n, 0) && 0 <= n < |g.out| && 0 <= k < |g.out[n]|
    ensures 0 <= g.out[n][k].target < |visited|
  {
  }

  lemma DataMatch<A, N>(arcs: seq<Arc<A>>, nodes: seq<Node<N>>, outs: seq<seq<int>>, g: Graph<A, N>, n: int)
    requires Holds(arcs, nodes, outs, g) && 0 <= n < |nodes|
    ensures |g.nodes| == |nodes| && nodes[n].data == g.nodes[n]
  {
  }
}
