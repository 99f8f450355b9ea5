/** The order in which a traversal comes upon the nodes of a graph. */
module Traversal {
  import opened Lists
  import opened Graphs

  // ----- What one node leads to

  /** The targets of the arcs that have not been seen before, each once, in the order of the arcs. */
  ghost function Discovered<A>(es: seq<Edge<A>>, seen: seq<int>): seq<int> {
    if es == [] then []
    else
      var d, c := Discovered(es[..|es| - 1], seen), es[|es| - 1].target;
      if c in seen || c in d then d else d + [c]
  }

  ghost predicate IsTarget<A>(es: seq<Edge<A>>, k: int, x: int) {
    0 <= k < |es| && es[k].target == x
  }

  /** Just the unseen targets, each once. */
  lemma {:induction false} DiscoveredExact<A>(es: seq<Edge<A>>, seen: seq<int>, x: int)
    ensures NoRepeats(Discovered(es, seen))
    ensures x in Discovered(es, seen) <==> x !in seen && exists k :: IsTarget(es, k, x)
  {
    if es != [] {
      var n := |es| - 1;
      DiscoveredExact(es[..n], seen, x);
      assert IsTarget(es, n, es[n].target);
      assert forall k :: IsTarget(es, k, x) <==> IsTarget(es[..n], k, x) || (k == n && es[n].target == x);
    }
  }

  /** A target that comes earlier in the list has an arc before all arcs to a later one. */
  lemma {:induction false} DiscoveredInOrder<A>(es: seq<Edge<A>>, seen: seq<int>, i: nat, j: nat) returns (k: nat)
    requires i < j < |Discovered(es, seen)|
    ensures IsTarget(es, k, Discovered(es, seen)[i])
    ensures forall l | 0 <= l <= k :: !IsTarget(es, l, Discovered(es, seen)[j])
  {
    var n, x := |es| - 1, Discovered(es, seen)[j];
    var d := Discovered(es[..n], seen);
    if j < |d| {
      k := DiscoveredInOrder(es[..n], seen, i, j);
      assert forall l | 0 <= l <= k :: IsTarget(es, l, x) ==> IsTarget(es[..n], l, x);
    } else {
      DiscoveredExact(es[..n], seen, d[i]);
      assert d[i] in d;
      k :| IsTarget(es[..n], k, d[i]);
      DiscoveredExact(es[..n], seen, x);
      assert forall l | 0 <= l <= k :: IsTarget(es, l, x) ==> IsTarget(es[..n], l, x);
    }
  }

  lemma DiscoveredStep<A>(es: seq<Edge<A>>, k: nat, seen: seq<int>)
    requires k < |es|
    ensures Discovered(es[..0], seen) == [] && es[..|es|] == es
    ensures var d, c := Discovered(es[..k], seen), es[k].target;
            Discovered(es[..k + 1], seen) == if c in seen + d then d else d + [c]
  {
    assert es[..k + 1][..k] == es[..k];
  }

  lemma DiscoveredEnd<A>(es: seq<Edge<A>>, seen: seq<int>)
    ensures Discovered(es[..0], seen) == [] && es[..|es|] == es
  {
  }

  // ----- Whole traversals

  /** The node at position `e` is expanded when the first `m` nodes are known, and afterwards `n` are. */
  ghost predicate Expands<A, N>(g: Graph<A, N>, order: seq<int>, e: int, m: int, n: int) {
    && 0 <= e < m <= n <= |order| && 0 <= order[e] < |g.out|
    && order[m..n] == Discovered(g.out[order[e]], order[..m])
  }

  /** The nodes of `order` are expanded in the order of the positions `exp`. When the `t`-th of them is
      expanded, the first `known[t]` nodes are known, and what it leads to follows them. */
  ghost predicate Expansions<A, N>(g: Graph<A, N>, order: seq<int>, exp: seq<int>, known: seq<int>) {
    && |known| == |exp| + 1 && known[0] == 1 && known[|exp|] == |order|
    && (forall t | 0 <= t < |exp| :: Expands(g, order, exp[t], known[t], known[t + 1]))
  }

  /** Breadth-first: the nodes are expanded in the order in which they are found. */
  ghost predicate IsBreadthFirst<A, N>(g: Graph<A, N>, order: seq<int>, known: seq<int>) {
    Expansions(g, order, FirstNumbers(|order|), known)
  }

  ghost function FirstNumbers(n: nat): seq<int> {
    seq(n, i => i)
  }

  /** Depth-first: each time the node found last is expanded, of those that are not expanded yet. */
  ghost predicate IsDepthFirst<A, N>(g: Graph<A, N>, order: seq<int>, exp: seq<int>, known: seq<int>) {
    && Expansions(g, order, exp, known) && LatestFirst(exp, known)
    && NoRepeats(exp) && forall i | 0 <= i < |order| :: i in exp
  }

  ghost predicate LatestFirst(exp: seq<int>, known: seq<int>)
    requires |known| > |exp|
  {
    forall t, i | 0 <= t < |exp| && exp[t] < i < known[t] :: i in exp[..t]
  }

  lemma ExpansionsGrow<A, N>(g: Graph<A, N>, order: seq<int>, exp: seq<int>, known: seq<int>, e: int, found: seq<int>)
    requires Expansions(g, order, exp, known) && 0 <= e < |order| && 0 <= order[e] < |g.out|
    requires found == Discovered(g.out[order[e]], order)
    ensures Expansions(g, order + found, exp + [e], known + [|order| + |found|])
  {
    hide Expands;
    var order', exp', known' := order + found, exp + [e], known + [|order| + |found|];
    LastExpands(g, order, e, found);
    forall t | 0 <= t < |exp'| ensures Expands(g, order', exp'[t], known'[t], known'[t + 1]) {
      if t < |exp| { StillExpands(g, order, exp[t], known[t], known[t + 1], found); }
    }
  }

  lemma StillExpands<A, N>(g: Graph<A, N>, order: seq<int>, e: int, m: int, n: int, found: seq<int>)
    requires Expands(g, order, e, m, n)
    ensures Expands(g, order + found, e, m, n)
  {
    assert (order + found)[m..n] == order[m..n];
    assert (order + found)[..m] == order[..m];
  }

  lemma LastExpands<A, N>(g: Graph<A, N>, order: seq<int>, e: int, found: seq<int>)
    requires 0 <= e < |order| && 0 <= order[e] < |g.out| && found == Discovered(g.out[order[e]], order)
    ensures Expands(g, order + found, e, |order|, |order| + |found|)
  {
    assert (order + found)[|order|..|order| + |found|] == found;
    assert (order + found)[..|order|] == order;
  }

  // ----- The stack of a depth-first traversal

  /** The stack holds the positions that are known and not expanded yet, the latest on top. */
  ghost predicate StackOrder(stack: seq<int>, exp: seq<int>, n: nat) {
    && (forall i, j | 0 <= i < j < |stack| :: stack[i] < stack[j])
    && (forall i | 0 <= i < |stack| :: 0 <= stack[i] < n) && (forall i | i in exp :: 0 <= i < n)
    && NoRepeats(exp) && forall i | 0 <= i < n :: i in stack <==> i !in exp
  }

  /** Expanding the top of the stack leaves the rest of it and what is found then. */
  lemma StackStep(stack: seq<int>, exp: seq<int>, known: seq<int>, n: nat, m: nat)
    requires StackOrder(stack, exp, n) && |stack| > 0
    requires |known| == |exp| + 1 && known[|exp|] == n && LatestFirst(exp, known)
    ensures var e := stack[|stack| - 1];
            && 0 <= e < n && LatestFirst(exp + [e], known + [n + m])
            && StackOrder(stack[..|stack| - 1] + seq(m, i => n + i), exp + [e], n + m)
  {
    hide LatestFirst, StackOrder;
    StackTop(stack, exp, n);
    LatestStep(exp, known, n, stack[|stack| - 1], n + m);
    PoppedOrder(stack, exp, n);
    PushedOrder(stack[..|stack| - 1], exp + [stack[|stack| - 1]], n, m);
  }

  /** Everything known above the top of the stack is expanded already. */
  lemma StackTop(stack: seq<int>, exp: seq<int>, n: nat)
    requires StackOrder(stack, exp, n) && |stack| > 0
    ensures var e := stack[|stack| - 1]; 0 <= e < n && forall i | e < i < n :: i in exp
  {
    assert forall i | stack[|stack| - 1] < i < n :: i !in stack;
  }

  lemma LatestStep(exp: seq<int>, known: seq<int>, n: nat, e: int, n': int)
    requires |known| == |exp| + 1 && known[|exp|] == n && LatestFirst(exp, known)
    requires forall i | e < i < n :: i in exp
    ensures LatestFirst(exp + [e], known + [n'])
  {
    var exp', known' := exp + [e], known + [n'];
    forall t, i | 0 <= t < |exp'| && exp'[t] < i < known'[t] ensures i in exp'[..t] {
      if t < |exp| { assert exp'[..t] == exp[..t]; } else { assert exp'[..t] == exp; }
    }
  }

  lemma PoppedOrder(stack: seq<int>, exp: seq<int>, n: nat)
    requires StackOrder(stack, exp, n) && |stack| > 0
    ensures StackOrder(stack[..|stack| - 1], exp + [stack[|stack| - 1]], n)
  {
    var e, rest := stack[|stack| - 1], stack[..|stack| - 1];
    assert stack == rest + [e] && e in stack;
  }

  lemma PushedOrder(stack: seq<int>, exp: seq<int>, n: nat, m: nat)
    requires StackOrder(stack, exp, n)
    ensures StackOrder(stack + seq(m, i => n + i), exp, n + m)
  {
    var new' := seq(m, i => n + i);
    forall i | 0 <= i < n + m ensures i in stack + new' <==> i !in exp {
      if i >= n { assert new'[i - n] == i; }
    }
  }

  /** The nodes on the stack, and their positions. */
  ghost predicate StackHolds(nodes: seq<int>, stack: seq<int>, order: seq<int>) {
    |nodes| == |stack| && forall i | 0 <= i < |stack| :: 0 <= stack[i] < |order| && nodes[i] == order[stack[i]]
  }

  lemma StackHoldsStep(nodes: seq<int>, stack: seq<int>, order: seq<int>, found: seq<int>)
    requires StackHolds(nodes, stack, order) && |stack| > 0
    ensures |nodes| == |stack| && 0 <= stack[|stack| - 1] < |order| && nodes[|stack| - 1] == order[stack[|stack| - 1]]
    ensures var pushed := seq(|found|, i => |order| + i);
            StackHolds(nodes[..|nodes| - 1] + found, stack[..|stack| - 1] + pushed, order + found)
  {
  }

  lemma StackStarts(root: int)
    ensures StackOrder([0], [], 1) && LatestFirst([], [1]) && StackHolds([root], [0], [root])
  {
  }

  lemma StackEnds<A, N>(g: Graph<A, N>, order: seq<int>, exp: seq<int>, known: seq<int>)
    requires Expansions(g, order, exp, known) && LatestFirst(exp, known) && StackOrder([], exp, |order|)
    ensures IsDepthFirst(g, order, exp, known)
  {
  }

  /** No node is expanded yet. */
  lemma ExpansionsStart<A, N>(g: Graph<A, N>, root: int)
    ensures Expansions(g, [root], [], [1])
  {
  }

  /** The queue of a breadth-first traversal holds what is known from position `t` on. */
  lemma QueueStep(queue: seq<int>, order: seq<int>, t: nat, found: seq<int>)
    requires t <= |order| && queue == order[t..] && |queue| > 0
    ensures t < |order| && order[t] == queue[0] && queue[1..] + found == (order + found)[t + 1..]
  {
  }

  lemma QueueEnds<A, N>(g: Graph<A, N>, order: seq<int>, t: nat, known: seq<int>)
    requires t <= |order| && order[t..] == [] && Expansions(g, order, FirstNumbers(t), known)
    ensures IsBreadthFirst(g, order, known)
  {
  }

  lemma NoNumbers()
    ensures FirstNumbers(0) == []
  {
  }

  lemma NextNumber(n: nat)
    ensures FirstNumbers(n) + [n] == FirstNumbers(n + 1)
  {
  }

  // ----- Breadth-first means nearest first

  /** Some path of `k` arcs or fewer leads from `a` to `b`. */
  ghost predicate Within<A, N>(g: Graph<A, N>, a: int, b: int, k: int) {
    exists p :: IsPath(g, p) && |p| <= k + 1 && p[0] == a && p[|p| - 1] == b
  }

  /** The expansion by which the `j`-th node was found. */
  ghost predicate FoundBy(known: seq<int>, j: int, f: int) {
    0 <= f < |known| - 1 && known[f] <= j < known[f + 1]
  }

  lemma {:induction false} FinderFrom(known: seq<int>, j: int, f: nat) returns (f': nat)
    requires f < |known| && known[f] <= j < known[|known| - 1]
    ensures FoundBy(known, j, f')
    decreases |known| - f
  {
    if j < known[f + 1] { f' := f; } else { f' := FinderFrom(known, j, f + 1); }
  }

  ghost function Finder<A, N>(g: Graph<A, N>, order: seq<int>, known: seq<int>, j: nat): (f: nat)
    requires IsBreadthFirst(g, order, known) && 0 < j < |order|
    ensures FoundBy(known, j, f) && f < j && HasArc(g, order[f], order[j])
  {
    FinderExists(g, order, known, j);
    var f :| FoundBy(known, j, f) && 0 <= f < j && HasArc(g, order[f], order[j]);
    f
  }

  lemma FinderExists<A, N>(g: Graph<A, N>, order: seq<int>, known: seq<int>, j: nat)
    requires IsBreadthFirst(g, order, known) && 0 < j < |order|
    ensures exists f :: FoundBy(known, j, f) && 0 <= f < j && HasArc(g, order[f], order[j])
  {
    var f := FinderFrom(known, j, 0);
    assert Expands(g, order, FirstNumbers(|order|)[f], known[f], known[f + 1]);
    var es, seen := g.out[order[f]], order[..known[f]];
    assert order[known[f]..known[f + 1]][j - known[f]] == order[j];
    DiscoveredExact(es, seen, order[j]);
    var k :| IsTarget(es, k, order[j]);
  }

  /** How many arcs the traversal itself needs to come to the `j`-th node. */
  ghost function Depth<A, N>(g: Graph<A, N>, order: seq<int>, known: seq<int>, j: nat): nat
    requires IsBreadthFirst(g, order, known) && j < |order|
    decreases j
  {
    if j == 0 then 0 else Depth(g, order, known, Finder(g, order, known, j)) + 1
  }

  /** The expansions come one after the other. */
  lemma {:induction false} KnownGrows<A, N>(g: Graph<A, N>, order: seq<int>, known: seq<int>, s: nat, t: nat)
    requires IsBreadthFirst(g, order, known) && s <= t <= |order|
    ensures |known| == |order| + 1 && known[s] <= known[t]
    decreases t - s
  {
    hide Discovered;
    if s < t {
      KnownGrows(g, order, known, s, t - 1);
      assert Expands(g, order, FirstNumbers(|order|)[t - 1], known[t - 1], known[t]);
    }
  }

  /** What is known once the `m`-th node is expanded was found by that node or an earlier one. */
  lemma FoundByThen<A, N>(g: Graph<A, N>, order: seq<int>, known: seq<int>, j: nat, f: int, m: nat)
    requires IsBreadthFirst(g, order, known) && m < |order| && FoundBy(known, j, f) && |known| == |order| + 1
    requires j < known[m + 1]
    ensures f <= m
  {
    hide IsBreadthFirst;
    if m < f { KnownGrows(g, order, known, m + 1, f); }
  }

  /** No node lies deeper than one found later. */
  lemma {:induction false} DepthGrows<A, N>(g: Graph<A, N>, order: seq<int>, known: seq<int>, i: nat, j: nat)
    requires IsBreadthFirst(g, order, known) && i <= j < |order|
    ensures Depth(g, order, known, i) <= Depth(g, order, known, j)
    decreases j
  {
    hide IsBreadthFirst, HasArc;
    if i > 0 {
      var e, f := Finder(g, order, known, i), Finder(g, order, known, j);
      KnownGrows(g, order, known, 0, 0);
      FoundByThen(g, order, known, i, e, f);
      DepthGrows(g, order, known, e, f);
    }
  }

  /** The traversal's own way to a node is a path. */
  lemma {:induction false} DepthIsReached<A, N>(g: Graph<A, N>, order: seq<int>, known: seq<int>, j: nat)
    requires IsBreadthFirst(g, order, known) && j < |order|
    ensures Within(g, order[0], order[j], Depth(g, order, known, j))
    decreases j
  {
    hide IsBreadthFirst, HasArc;
    if j == 0 {
      assert IsPath(g, [order[0]]);
    } else {
      var f := Finder(g, order, known, j);
      DepthIsReached(g, order, known, f);
      var p :| IsPath(g, p) && |p| <= Depth(g, order, known, f) + 1 && p[0] == order[0] && p[|p| - 1] == order[f];
      assert IsPath(g, p + [order[j]]);
    }
  }

  /** A node that an expanded node leads to is known after the expansion. */
  lemma KnownAfter<A, N>(g: Graph<A, N>, order: seq<int>, known: seq<int>, m: nat, j: nat)
    requires IsBreadthFirst(g, order, known) && NoRepeats(order) && m < |order| && j < |order|
    requires HasArc(g, order[m], order[j])
    ensures |known| == |order| + 1 && j < known[m + 1]
  {
    assert Expands(g, order, FirstNumbers(|order|)[m], known[m], known[m + 1]);
    var es, seen := g.out[order[m]], order[..known[m]];
    var k :| 0 <= k < |es| && es[k].target == order[j];
    assert IsTarget(es, k, order[j]);
    DiscoveredExact(es, seen, order[j]);
    if order[j] in seen {
      var i :| 0 <= i < known[m] && order[i] == order[j];
    } else {
      var i :| 0 <= i < known[m + 1] - known[m] && order[known[m]..known[m + 1]][i] == order[j];
      assert order[known[m] + i] == order[j];
    }
  }

  /** No path to a node is shorter than the traversal's own way. */
  lemma {:induction false} DepthIsLeast<A, N>(g: Graph<A, N>, order: seq<int>, known: seq<int>, j: nat, p: seq<int>)
    requires IsBreadthFirst(g, order, known) && NoRepeats(order) && j < |order|
    requires forall n | Reachable(g, order[0], n) :: n in order
    requires IsPath(g, p) && p[0] == order[0] && p[|p| - 1] == order[j]
    ensures Depth(g, order, known, j) < |p|
    decreases |p|
  {
    hide IsBreadthFirst, HasArc;
    if j > 0 {
      var q := p[..|p| - 1];
      OneArcShort(g, order, p, j);
      assert Reachable(g, order[0], q[|q| - 1]);
      var m :| 0 <= m < |order| && order[m] == q[|q| - 1];
      DepthIsLeast(g, order, known, m, q);
      KnownAfter(g, order, known, m, j);
      var f := Finder(g, order, known, j);
      FoundByThen(g, order, known, j, f, m);
      DepthGrows(g, order, known, f, m);
    }
  }

  lemma OneArcShort<A, N>(g: Graph<A, N>, order: seq<int>, p: seq<int>, j: nat)
    requires NoRepeats(order) && 0 < j < |order| && IsPath(g, p) && p[0] == order[0] && p[|p| - 1] == order[j]
    ensures |p| > 1 && IsPath(g, p[..|p| - 1]) && HasArc(g, p[..|p| - 1][|p| - 2], order[j])
  {
    hide HasArc;
    var q := p[..|p| - 1];
    assert |p| > 1;
    assert HasArc(g, p[|p| - 2], p[|p| - 2 + 1]);
    forall i | 0 <= i < |q| - 1 ensures HasArc(g, q[i], q[i + 1]) {
      assert HasArc(g, p[i], p[i + 1]);
    }
  }

  /** A breadth-first traversal comes to the nearer nodes first: whatever leads to a node within some
      number of arcs, every node found before is that near too. */
  lemma NearestFirst<A, N>(g: Graph<A, N>, order: seq<int>, known: seq<int>, i: nat, j: nat, k: int)
    requires IsBreadthFirst(g, order, known) && NoRepeats(order) && i <= j < |order|
    requires forall n | Reachable(g, order[0], n) :: n in order
    requires Within(g, order[0], order[j], k)
    ensures Within(g, order[0], order[i], k)
  {
    hide IsBreadthFirst, HasArc;
    var p :| IsPath(g, p) && |p| <= k + 1 && p[0] == order[0] && p[|p| - 1] == order[j];
    DepthIsLeast(g, order, known, j, p);
    DepthGrows(g, order, known, i, j);
    DepthIsReached(g, order, known, i);
    var q :| IsPath(g, q) && |q| <= Depth(g, order, known, i) + 1 && q[0] == order[0] && q[|q| - 1] == order[i];
  }
}
