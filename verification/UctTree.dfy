/** The tree that the Python search grows, and the balance it keeps between a node's counts and those
    of its children. */
module UctTree {
  import opened Lists
  import opened TurnGames

  const NO_PARENT := -1

  datatype Node<+M> = Node(move: Option<M>, parent: int, children: seq<int>, wins: real, visits: int, untried: seq<M>,
                           justMoved: Turn)

  /** `remove`: drops the first entry that equals `x`. */
  function Without<T(==)>(s: seq<T>, x: T): (r: seq<T>)
    requires x in s
    ensures multiset(r) + multiset{x} == multiset(s)
  {
    assert s == [s[0]] + s[1..];
    if s[0] == x then s[1..] else [s[0]] + Without(s[1..], x)
  }

  // ----- Shape

  ghost predicate ChildOk<S, M>(g: Game<S, M>, nodes: seq<Node<M>>, pos: seq<S>, n: int, c: int)
    requires 0 <= n < |nodes| == |pos|
  {
    && n < c < |nodes| && nodes[c].parent == n && nodes[c].move.Some?
    && nodes[c].move.value in g.moves(pos[n]) && pos[c] == g.next(pos[n], nodes[c].move.value)
  }

  /** The moves that lead to the children. */
  ghost function Tried<M>(nodes: seq<Node<M>>, cs: seq<int>): seq<M>
    requires forall k | 0 <= k < |cs| :: 0 <= cs[k] < |nodes| && nodes[cs[k]].move.Some?
  {
    seq(|cs|, k requires 0 <= k < |cs| => nodes[cs[k]].move.value)
  }

  /** Node `n` stands for its state: its children are one move on, in the order they were added, and
      their moves together with the untried ones are the legal moves. */
  ghost predicate NodeOk<S, M>(g: Game<S, M>, nodes: seq<Node<M>>, pos: seq<S>, n: int)
    requires 0 <= n < |nodes| == |pos|
  {
    && nodes[n].justMoved == g.justMoved(pos[n])
    && (forall k | 0 <= k < |nodes[n].children| :: ChildOk(g, nodes, pos, n, nodes[n].children[k]))
    && (forall j, k | 0 <= j < k < |nodes[n].children| :: nodes[n].children[j] < nodes[n].children[k])
    && multiset(Tried(nodes, nodes[n].children)) + multiset(nodes[n].untried) == multiset(g.moves(pos[n]))
    && (if n == 0 then nodes[n].parent == NO_PARENT
        else 0 <= nodes[n].parent < n && n in nodes[nodes[n].parent].children)
  }

  ghost predicate TreeOk<S, M>(g: Game<S, M>, nodes: seq<Node<M>>, pos: seq<S>) {
    |nodes| == |pos| && |pos| > 0 && forall n | 0 <= n < |nodes| :: NodeOk(g, nodes, pos, n)
  }

  // ----- Counts

  ghost function SumVisits<M>(nodes: seq<Node<M>>, cs: seq<int>): int
    requires forall k | 0 <= k < |cs| :: 0 <= cs[k] < |nodes|
  {
    if cs == [] then 0 else SumVisits(nodes, cs[..|cs| - 1]) + nodes[cs[|cs| - 1]].visits
  }

  ghost function SumWins<M>(nodes: seq<Node<M>>, cs: seq<int>): real
    requires forall k | 0 <= k < |cs| :: 0 <= cs[k] < |nodes|
  {
    if cs == [] then 0.0 else SumWins(nodes, cs[..|cs| - 1]) + nodes[cs[|cs| - 1]].wins
  }

  /** The law of the tree at a node with children `cs`, of which `dv` visits and `dw` wins are still
      to be entered; `first` is the result of the node's first play-out, and the root has none. */
  ghost predicate Balanced<M>(nodes: seq<Node<M>>, n: int, first: real, fair: bool, dv: int, dw: real)
    requires 0 <= n < |nodes|
  {
    var cs := nodes[n].children;
    && (forall k | 0 <= k < |cs| :: 0 <= cs[k] < |nodes|)
    && nodes[n].visits + dv == SumVisits(nodes, cs) + (if n == 0 then 0 else 1)
    && (fair ==>
          nodes[n].wins + dw + SumWins(nodes, cs) == SumVisits(nodes, cs) as real + (if n == 0 then 0.0 else first))
  }

  /** Every node is balanced, except that at `cur` a visit with result `r` is still to be entered.
      Nodes of finished games are exempt: they are visited again and again. */
  ghost predicate AllBalanced<S, M>(g: Game<S, M>, nodes: seq<Node<M>>, pos: seq<S>, firsts: seq<real>, fair: bool,
                                    cur: int, r: real)
  {
    && |firsts| == |nodes| == |pos|
    && (forall n | 0 <= n < |nodes| && g.moves(pos[n]) != [] ::
          if n == cur then Balanced(nodes, n, firsts[n], fair, 1, r) else Balanced(nodes, n, firsts[n], fair, 0, 0.0))
    && (forall n | 0 <= n < |nodes| :: 0 <= nodes[n].visits && (n > 0 && n != cur ==> nodes[n].visits > 0))
    && (fair ==> forall n | 0 <= n < |nodes| :: 0.0 <= nodes[n].wins <= nodes[n].visits as real)
  }

  lemma {:induction false} SumsStay<M>(nodes: seq<Node<M>>, nodes': seq<Node<M>>, cs: seq<int>)
    requires forall k | 0 <= k < |cs| :: 0 <= cs[k] < |nodes| && cs[k] < |nodes'|
    requires forall k | 0 <= k < |cs| ::
               nodes'[cs[k]].visits == nodes[cs[k]].visits && nodes'[cs[k]].wins == nodes[cs[k]].wins
    ensures SumVisits(nodes', cs) == SumVisits(nodes, cs) && SumWins(nodes', cs) == SumWins(nodes, cs)
  {
    if cs != [] { SumsStay(nodes, nodes', cs[..|cs| - 1]); }
  }

  lemma {:induction false} SumsGrow<M>(nodes: seq<Node<M>>, nodes': seq<Node<M>>, cs: seq<int>, c: int, r: real)
    requires forall k | 0 <= k < |cs| :: 0 <= cs[k] < |nodes| == |nodes'|
    requires c in cs && forall j, k | 0 <= j < k < |cs| :: cs[j] < cs[k]
    requires forall n | 0 <= n < |nodes| && n != c ::
               nodes'[n].visits == nodes[n].visits && nodes'[n].wins == nodes[n].wins
    requires nodes'[c].visits == nodes[c].visits + 1 && nodes'[c].wins == nodes[c].wins + r
    ensures SumVisits(nodes', cs) == SumVisits(nodes, cs) + 1 && SumWins(nodes', cs) == SumWins(nodes, cs) + r
  {
    var rest := cs[..|cs| - 1];
    assert cs == rest + [cs[|cs| - 1]];
    if cs[|cs| - 1] == c { SumsStay(nodes, nodes', rest); } else { SumsGrow(nodes, nodes', rest, c, r); }
  }

  // ----- Entering one visit

  function Updated<M>(nodes: seq<Node<M>>, n: int, r: real): (nodes': seq<Node<M>>)
    requires 0 <= n < |nodes|
  {
    nodes[n := nodes[n].(visits := nodes[n].visits + 1, wins := nodes[n].wins + r)]
  }

  lemma UpdateKeepsTree<S, M>(g: Game<S, M>, nodes: seq<Node<M>>, pos: seq<S>, n: int, r: real)
    requires TreeOk(g, nodes, pos) && 0 <= n < |nodes|
    ensures TreeOk(g, Updated(nodes, n, r), pos)
  {
    var nodes' := Updated(nodes, n, r);
    forall k | 0 <= k < |nodes| ensures NodeOk(g, nodes', pos, k) {
      assert NodeOk(g, nodes, pos, k);
      assert Tried(nodes', nodes[k].children) == Tried(nodes, nodes[k].children);
    }
  }

  /** Entering a visit at `cur`, seen from node `n`. */
  lemma UpdateSeenFrom<S, M>(g: Game<S, M>, nodes: seq<Node<M>>, pos: seq<S>, first: real, fair: bool, cur: int,
                             r: real, up: real, n: int)
    requires |nodes| == |pos| && 0 <= cur < |nodes| && 0 <= n < |nodes| && NodeOk(g, nodes, pos, n)
    requires NodeOk(g, nodes, pos, cur)
    requires if n == cur then Balanced(nodes, n, first, fair, 1, r) else Balanced(nodes, n, first, fair, 0, 0.0)
    requires fair ==> r + up == 1.0
    ensures var nodes' := Updated(nodes, cur, r);
            if n == nodes[cur].parent then Balanced(nodes', n, first, fair, 1, up)
            else Balanced(nodes', n, first, fair, 0, 0.0)
  {
    hide Tried;
    var nodes' := Updated(nodes, cur, r);
    if n == nodes[cur].parent {
      SumsGrow(nodes, nodes', nodes[n].children, cur, r);
    } else {
      SumsStay(nodes, nodes', nodes[n].children);
    }
  }

  lemma ParentIsOther<S, M>(g: Game<S, M>, nodes: seq<Node<M>>, pos: seq<S>, n: int)
    requires TreeOk(g, nodes, pos) && 0 <= n < |nodes|
    ensures nodes[n].parent < n && (n > 0 ==> 0 <= nodes[n].parent) && (n == 0 ==> nodes[n].parent == NO_PARENT)
  {
    assert NodeOk(g, nodes, pos, n);
  }

  /** Entering the visit at a node makes the same visit due at its parent: the result of the one
      player and that of the other sum to one. */
  lemma UpdateMovesUp<S, M>(g: Game<S, M>, nodes: seq<Node<M>>, pos: seq<S>, firsts: seq<real>, fair: bool, cur: int,
                            r: real, up: real)
    requires TreeOk(g, nodes, pos) && 0 <= cur < |nodes| && AllBalanced(g, nodes, pos, firsts, fair, cur, r)
    requires fair ==> 0.0 <= r <= 1.0 && r + up == 1.0
    ensures TreeOk(g, Updated(nodes, cur, r), pos)
    ensures AllBalanced(g, Updated(nodes, cur, r), pos, firsts, fair, nodes[cur].parent, up)
  {
    hide NodeOk, Balanced;
    UpdateKeepsTree(g, nodes, pos, cur, r);
    ParentIsOther(g, nodes, pos, cur);
    var nodes', p := Updated(nodes, cur, r), nodes[cur].parent;
    forall n | 0 <= n < |nodes| && g.moves(pos[n]) != []
      ensures if n == p then Balanced(nodes', n, firsts[n], fair, 1, up)
              else Balanced(nodes', n, firsts[n], fair, 0, 0.0)
    {
      UpdateSeenFrom(g, nodes, pos, firsts[n], fair, cur, r, up, n);
    }
  }

  // ----- Adding a child

  function Grown<M(==)>(nodes: seq<Node<M>>, n: int, m: M, moves: seq<M>, p: Turn): seq<Node<M>>
    requires 0 <= n < |nodes| && m in nodes[n].untried
  {
    nodes[n := nodes[n].(children := nodes[n].children + [|nodes|], untried := Without(nodes[n].untried, m))]
    + [Node(Some(m), n, [], 0.0, 0, moves, p)]
  }

  lemma UntriedIsLegal<S, M>(g: Game<S, M>, nodes: seq<Node<M>>, pos: seq<S>, n: int, m: M)
    requires TreeOk(g, nodes, pos) && 0 <= n < |nodes| && m in nodes[n].untried
    ensures m in g.moves(pos[n])
  {
    assert NodeOk(g, nodes, pos, n);
    assert m in multiset(nodes[n].untried);
    assert m in multiset(g.moves(pos[n]));
  }

  lemma TriedGrows<M>(nodes: seq<Node<M>>, nodes': seq<Node<M>>, cs: seq<int>, c: int, m: M)
    requires forall k | 0 <= k < |cs| :: 0 <= cs[k] < |nodes| && nodes[cs[k]].move.Some?
    requires |nodes| <= |nodes'| && 0 <= c < |nodes'| && nodes'[c].move == Some(m)
    requires forall k | 0 <= k < |nodes| :: nodes'[k].move == nodes[k].move
    ensures multiset(Tried(nodes', cs + [c])) == multiset(Tried(nodes, cs)) + multiset{m}
  {
    assert Tried(nodes', cs + [c]) == Tried(nodes, cs) + [m];
  }

  lemma GrownParentOk<S, M>(g: Game<S, M>, nodes: seq<Node<M>>, pos: seq<S>, n: int, m: M, moves: seq<M>, p: Turn)
    requires TreeOk(g, nodes, pos) && 0 <= n < |nodes| && m in nodes[n].untried
    ensures NodeOk(g, Grown(nodes, n, m, moves, p), pos + [g.next(pos[n], m)], n)
  {
    var nodes', pos', c := Grown(nodes, n, m, moves, p), pos + [g.next(pos[n], m)], |nodes|;
    assert NodeOk(g, nodes, pos, n);
    UntriedIsLegal(g, nodes, pos, n, m);
    TriedGrows(nodes, nodes', nodes[n].children, c, m);
    forall k | 0 <= k < |nodes'[n].children| ensures ChildOk(g, nodes', pos', n, nodes'[n].children[k]) {
      assert k < |nodes[n].children| ==> ChildOk(g, nodes, pos, n, nodes[n].children[k]);
    }
  }

  lemma GrownOtherOk<S, M>(g: Game<S, M>, nodes: seq<Node<M>>, pos: seq<S>, n: int, m: M, moves: seq<M>, p: Turn,
                           k: int)
    requires TreeOk(g, nodes, pos) && 0 <= n < |nodes| && m in nodes[n].untried && 0 <= k < |nodes| && k != n
    ensures NodeOk(g, Grown(nodes, n, m, moves, p), pos + [g.next(pos[n], m)], k)
  {
    var nodes', pos' := Grown(nodes, n, m, moves, p), pos + [g.next(pos[n], m)];
    assert NodeOk(g, nodes, pos, k);
    assert Tried(nodes', nodes[k].children) == Tried(nodes, nodes[k].children);
    forall i | 0 <= i < |nodes'[k].children| ensures ChildOk(g, nodes', pos', k, nodes'[k].children[i]) {
      assert ChildOk(g, nodes, pos, k, nodes[k].children[i]);
    }
  }

  lemma GrowKeepsTree<S, M>(g: Game<S, M>, nodes: seq<Node<M>>, pos: seq<S>, n: int, m: M)
    requires TreeOk(g, nodes, pos) && 0 <= n < |nodes| && m in nodes[n].untried
    ensures var s := g.next(pos[n], m); TreeOk(g, Grown(nodes, n, m, g.moves(s), g.justMoved(s)), pos + [s])
  {
    hide NodeOk;
    var s := g.next(pos[n], m);
    var nodes', pos' := Grown(nodes, n, m, g.moves(s), g.justMoved(s)), pos + [s];
    forall k | 0 <= k < |nodes'| ensures NodeOk(g, nodes', pos', k) {
      if k == n {
        GrownParentOk(g, nodes, pos, n, m, g.moves(s), g.justMoved(s));
      } else if k < |nodes| {
        GrownOtherOk(g, nodes, pos, n, m, g.moves(s), g.justMoved(s), k);
      } else {
        LeafOk(g, nodes', pos', k);
      }
    }
  }

  lemma LeafOk<S, M>(g: Game<S, M>, nodes: seq<Node<M>>, pos: seq<S>, n: int)
    requires 0 <= n < |nodes| == |pos| && nodes[n].children == [] && nodes[n].untried == g.moves(pos[n])
    requires nodes[n].justMoved == g.justMoved(pos[n])
    requires if n == 0 then nodes[n].parent == NO_PARENT
             else 0 <= nodes[n].parent < n && n in nodes[nodes[n].parent].children
    ensures NodeOk(g, nodes, pos, n)
  {
  }

  /** A new child leaves everything balanced; its own first visit is due. */
  lemma GrowBalances<S, M>(g: Game<S, M>, nodes: seq<Node<M>>, pos: seq<S>, firsts: seq<real>, fair: bool, n: int, m: M,
                           r: real)
    requires TreeOk(g, nodes, pos) && 0 <= n < |nodes| && m in nodes[n].untried
    requires AllBalanced(g, nodes, pos, firsts, fair, NO_PARENT, 0.0)
    ensures var s := g.next(pos[n], m);
            AllBalanced(g, Grown(nodes, n, m, g.moves(s), g.justMoved(s)), pos + [s], firsts + [r], fair, |nodes|, r)
  {
    hide NodeOk, Balanced, SumVisits, SumWins;
    var s := g.next(pos[n], m);
    var nodes', pos', firsts' := Grown(nodes, n, m, g.moves(s), g.justMoved(s)), pos + [s], firsts + [r];
    forall k | 0 <= k < |nodes'| && g.moves(pos'[k]) != []
      ensures if k == |nodes| then Balanced(nodes', k, firsts'[k], fair, 1, r)
              else Balanced(nodes', k, firsts'[k], fair, 0, 0.0)
    {
      if k == |nodes| {
        LeafBalanced(nodes', k, fair, r);
      } else {
        GrownBalanced(nodes, n, m, g.moves(s), g.justMoved(s), firsts[k], fair, k);
      }
    }
  }

  lemma LeafBalanced<M>(nodes: seq<Node<M>>, n: int, fair: bool, r: real)
    requires 0 < n < |nodes| && nodes[n].children == [] && nodes[n].visits == 0 && nodes[n].wins == 0.0
    ensures Balanced(nodes, n, r, fair, 1, r)
  {
  }

  lemma GrownBalanced<M>(nodes: seq<Node<M>>, n: int, m: M, moves: seq<M>, p: Turn, first: real, fair: bool, k: int)
    requires 0 <= n < |nodes| && m in nodes[n].untried && 0 <= k < |nodes| && Balanced(nodes, k, first, fair, 0, 0.0)
    ensures Balanced(Grown(nodes, n, m, moves, p), k, first, fair, 0, 0.0)
  {
    var nodes' := Grown(nodes, n, m, moves, p);
    SumsStay(nodes, nodes', nodes[k].children);
    if k == n { assert nodes'[k].children[..|nodes[k].children|] == nodes[k].children; }
  }

  /** A node with nothing left to try and no children stands for a finished game. */
  lemma NothingLeft<S, M>(g: Game<S, M>, nodes: seq<Node<M>>, pos: seq<S>, n: int)
    requires TreeOk(g, nodes, pos) && 0 <= n < |nodes|
    ensures nodes[n].untried == [] && nodes[n].children == [] <==> g.moves(pos[n]) == []
  {
    assert NodeOk(g, nodes, pos, n);
    if g.moves(pos[n]) != [] { assert g.moves(pos[n])[0] in multiset(g.moves(pos[n])); }
    if nodes[n].untried != [] { assert nodes[n].untried[0] in multiset(nodes[n].untried); }
    if nodes[n].children != [] { assert ChildOk(g, nodes, pos, n, nodes[n].children[0]); }
  }

  /** At a finished game a visit may be entered at any time. */
  lemma RevisitIsDue<S, M>(g: Game<S, M>, nodes: seq<Node<M>>, pos: seq<S>, firsts: seq<real>, fair: bool, n: int,
                           r: real)
    requires TreeOk(g, nodes, pos) && 0 <= n < |nodes| && g.moves(pos[n]) == []
    requires AllBalanced(g, nodes, pos, firsts, fair, NO_PARENT, 0.0)
    ensures AllBalanced(g, nodes, pos, firsts, fair, n, r)
  {
    hide NodeOk, Balanced;
  }

  lemma ChildFacts<S, M>(g: Game<S, M>, nodes: seq<Node<M>>, pos: seq<S>, n: int)
    requires TreeOk(g, nodes, pos) && 0 <= n < |nodes|
    ensures forall k | 0 <= k < |nodes[n].children| :: ChildOk(g, nodes, pos, n, nodes[n].children[k])
  {
    assert NodeOk(g, nodes, pos, n);
  }
}
