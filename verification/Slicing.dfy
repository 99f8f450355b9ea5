/** What a traversal that copies a graph node by node keeps, whatever order it visits the nodes in. */
module Slicing {
  import opened Lists
  import opened Ids
  import opened Graphs

  function AddArc<A, N>(h: Graph<A, N>, s: int, t: int, a: A): Graph<A, N>
    requires 0 <= s < |h.out|
  {
    h.(out := h.out[s := h.out[s] + [Edge(a, t)]])
  }

  function AddNode<A, N>(h: Graph<A, N>, s: int, a: A, n: N): Graph<A, N>
    requires 0 <= s < |h.out|
  {
    Graph(h.nodes + [n], h.out[s := h.out[s] + [Edge(a, |h.nodes|)]] + [[]])
  }

  /** The table of new names and the list of old ones are inverse to each other. */
  ghost predicate Renaming(visited: seq<int>, olds: seq<int>) {
    && (forall i | 0 <= i < |olds| :: 0 <= olds[i] < |visited| && visited[olds[i]] == i)
    && (forall n | 0 <= n < |visited| :: visited[n] == NO_NODE || (0 <= visited[n] < |olds| && olds[visited[n]] == n))
  }

  /** The first `k` out-arcs of old node `n` have been copied, and no more. */
  ghost predicate CopiedTo<A, N>(g: Graph<A, N>, h: Graph<A, N>, visited: seq<int>, n: int, k: int)
    requires 0 <= n < |g.out| && 0 <= n < |visited|
  {
    && 0 <= visited[n] < |h.out| && |h.out[visited[n]]| == k <= |g.out[n]|
    && forall j | 0 <= j < k ::
         && h.out[visited[n]][j].data == g.out[n][j].data
         && 0 <= g.out[n][j].target < |visited| && visited[g.out[n][j].target] >= 0
         && h.out[visited[n]][j].target == visited[g.out[n][j].target]
  }

  /** The state of a copying traversal: `todo` are the visited nodes still to be expanded, and `now`
      is the node being expanded, of which `k` arcs are done. */
  ghost predicate Copying<A, N>(g: Graph<A, N>, root: int, h: Graph<A, N>, visited: seq<int>, olds: seq<int>,
                                todo: set<int>, now: int, k: int) {
    && WellFormed(g) && |visited| == |g.nodes| && |olds| == |h.nodes| == |h.out| && |olds| > 0 && olds[0] == root
    && Renaming(visited, olds)
    && (forall i | 0 <= i < |olds| :: h.nodes[i] == g.nodes[olds[i]] && Reachable(g, root, olds[i]))
    && (forall n | n in todo :: 0 <= n < |visited| && visited[n] >= 0 && n != now)
    && (forall n | 0 <= n < |visited| && visited[n] >= 0 && n != now ::
          if n in todo then CopiedTo(g, h, visited, n, 0) else CopiedTo(g, h, visited, n, |g.out[n]|))
    && (0 <= now < |visited| ==> CopiedTo(g, h, visited, now, k))
  }

  lemma CopyStart<A, N>(g: Graph<A, N>, root: int, d: N)
    requires WellFormed(g) && 0 <= root < |g.nodes| && d == g.nodes[root]
    ensures Copying(g, root, Graph([d], [[]]), seq(|g.nodes|, i => NO_NODE)[root := 0], [root], {root}, -1, 0)
  {
    ReachSelf(g, root);
  }

  lemma CopyBegin<A, N>(g: Graph<A, N>, root: int, h: Graph<A, N>, visited: seq<int>, olds: seq<int>, todo: set<int>,
                        n: int)
    requires Copying(g, root, h, visited, olds, todo, -1, 0) && n in todo
    ensures Copying(g, root, h, visited, olds, todo - {n}, n, 0)
  {
  }

  lemma CopyEnd<A, N>(g: Graph<A, N>, root: int, h: Graph<A, N>, visited: seq<int>, olds: seq<int>, todo: set<int>,
                      n: int)
    requires 0 <= n < |g.out| && Copying(g, root, h, visited, olds, todo, n, |g.out[n]|)
    ensures Copying(g, root, h, visited, olds, todo, -1, 0)
  {
  }

  /** An arc to a node that has a copy already. */
  lemma CopySeen<A, N>(g: Graph<A, N>, root: int, h: Graph<A, N>, visited: seq<int>, olds: seq<int>, todo: set<int>,
                       n: int, k: int)
    requires Copying(g, root, h, visited, olds, todo, n, k) && 0 <= n < |visited| && 0 <= k < |g.out[n]|
    requires visited[g.out[n][k].target] >= 0
    ensures var h' := AddArc(h, visited[n], visited[g.out[n][k].target], g.out[n][k].data);
            Copying(g, root, h', visited, olds, todo, n, k + 1)
  {
    hide Reachable;
  }

  /** An arc to a node met for the first time. */
  lemma CopyNew<A, N>(g: Graph<A, N>, root: int, h: Graph<A, N>, visited: seq<int>, olds: seq<int>, todo: set<int>,
                      n: int, k: int)
    requires Copying(g, root, h, visited, olds, todo, n, k) && 0 <= n < |visited| && 0 <= k < |g.out[n]|
    requires visited[g.out[n][k].target] == NO_NODE
    ensures var c := g.out[n][k].target;
            Copying(g, root, AddNode(h, visited[n], g.out[n][k].data, g.nodes[c]),
                    visited[c := |h.nodes|], olds + [c], todo + {c}, n, k + 1)
  {
    hide Reachable;
    var c := g.out[n][k].target;
    assert HasArc(g, n, c);
    assert Reachable(g, root, olds[visited[n]]);
    ReachStep(g, root, n, c);
  }

  /** When nothing is left to expand the copy is complete. */
  lemma CopyDone<A, N>(g: Graph<A, N>, root: int, h: Graph<A, N>, visited: seq<int>, olds: seq<int>)
    requires Copying(g, root, h, visited, olds, {}, -1, 0)
    ensures IsCopy(g, root, h, olds)
    ensures forall n :: 0 <= n < |visited| && visited[n] >= 0 <==> Reachable(g, root, n)
  {
    var s := set n | n in olds;
    assert olds[0] in olds;
    forall a, b | a in s && HasArc(g, a, b) ensures b in s {
      var k :| 0 <= k < |g.out[a]| && g.out[a][k].target == b;
      var i :| 0 <= i < |olds| && olds[i] == a;
      assert CopiedTo(g, h, visited, a, |g.out[a]|);
      assert olds[visited[b]] == b;
    }
    forall n | Reachable(g, root, n) ensures n in olds {
      var p :| IsPath(g, p) && p[0] == root && p[|p| - 1] == n;
      ClosedHoldsPath(g, s, p);
    }
    forall i | 0 <= i < |olds| ensures CopiedTo(g, h, visited, olds[i], |g.out[olds[i]]|) {
    }
  }

  // ----- Bookkeeping of a traversal

  ghost function Range(n: nat): (r: set<int>)
    ensures forall x :: x in r <==> 0 <= x < n
  {
    if n == 0 then {} else Range(n - 1) + {n - 1}
  }

  /** The worklist holds exactly the nodes to do, each once; none of them is done. */
  ghost predicate Worklist(w: seq<int>, todo: set<int>, done: set<int>, n: nat) {
    && NoRepeats(w)
    && (forall x :: x in w <==> x in todo)
    && todo !! done && done <= Range(n) && todo <= Range(n)
  }

  lemma WorklistStarts(root: int, n: nat)
    requires 0 <= root < n
    ensures Worklist([root], {root}, {}, n)
  {
  }

  lemma PopBack(w: seq<int>, todo: set<int>, done: set<int>, n: nat)
    requires Worklist(w, todo, done, n) && |w| > 0
    ensures var x := w[|w| - 1];
            x in todo && x !in done && x in Range(n) && Worklist(w[..|w| - 1], todo - {x}, done + {x}, n)
  {
    var x, r := w[|w| - 1], w[..|w| - 1];
    assert w == r + [x];
    assert x in w;
  }

  lemma PopFront(w: seq<int>, todo: set<int>, done: set<int>, n: nat)
    requires Worklist(w, todo, done, n) && |w| > 0
    ensures w[0] in todo && w[0] !in done && w[0] in Range(n) && Worklist(w[1..], todo - {w[0]}, done + {w[0]}, n)
  {
    var x, r := w[0], w[1..];
    assert w == [x] + r && x in w;
    assert forall i | 0 <= i < |r| :: r[i] == w[i + 1];
    assert x !in r;
  }

  lemma Push(w: seq<int>, todo: set<int>, done: set<int>, n: nat, found: seq<int>)
    requires Worklist(w, todo, done, n)
    requires NoRepeats(found)
    requires forall i | 0 <= i < |found| :: found[i] !in todo && found[i] !in done && 0 <= found[i] < n
    ensures Worklist(w + found, todo + (set x | x in found), done, n)
  {
    forall i, j | 0 <= i < |w| && 0 <= j < |found| ensures w[i] != found[j] {
      assert w[i] in w;
    }
  }

  lemma EmptyTodo(w: seq<int>, todo: set<int>, done: set<int>, n: nat)
    requires Worklist(w, todo, done, n) && |w| == 0
    ensures todo == {}
  {
    assert forall x | x in todo :: x in w;
  }

  lemma NoneFound(todo: set<int>)
    ensures todo + (set x: int | x in []) == todo
  {
  }

  lemma OneMore(todo: set<int>, found: seq<int>, c: int)
    ensures todo + (set x | x in found) + {c} == todo + (set x | x in found + [c])
  {
  }

  lemma CopyingSizes<A, N>(g: Graph<A, N>, root: int, h: Graph<A, N>, visited: seq<int>, olds: seq<int>, todo: set<int>,
                           now: int, k: int)
    requires Copying(g, root, h, visited, olds, todo, now, k)
    ensures |visited| == |g.nodes| == |g.out| && |h.out| == |h.nodes|
    ensures forall n | 0 <= n < |visited| && visited[n] != NO_NODE :: 0 <= visited[n] < |h.out|
    ensures forall n | n in todo :: 0 <= n < |visited| && visited[n] != NO_NODE
    ensures 0 <= now < |visited| ==> 0 <= visited[now] < |h.out|
  {
  }

  /** A node has no new name yet exactly if it is not among the copied ones. */
  lemma CopyingSeen<A, N>(g: Graph<A, N>, root: int, h: Graph<A, N>, visited: seq<int>, olds: seq<int>,
                          todo: set<int>, now: int, k: int, n: int)
    requires Copying(g, root, h, visited, olds, todo, now, k) && 0 <= n < |visited|
    ensures visited[n] == NO_NODE <==> n !in olds
  {
    if n in olds {
      var i :| 0 <= i < |olds| && olds[i] == n;
    }
  }

  lemma CopyingTarget<A, N>(g: Graph<A, N>, root: int, h: Graph<A, N>, visited: seq<int>, olds: seq<int>,
                            todo: set<int>, now: int, k: int)
    requires Copying(g, root, h, visited, olds, todo, now, k) && 0 <= now < |g.out| && 0 <= k < |g.out[now]|
    ensures 0 <= g.out[now][k].target < |visited|
  {
  }

  lemma CopyingTodo<A, N>(g: Graph<A, N>, root: int, h: Graph<A, N>, visited: seq<int>, olds: seq<int>, todo: set<int>,
                          now: int, k: int)
    requires Copying(g, root, h, visited, olds, todo, now, k) && 0 <= now < |visited|
    ensures visited[now] != NO_NODE && forall n | n in todo :: 0 <= n < |visited| && visited[n] != NO_NODE
  {
  }
}
