/** Rooted directed graphs as values: for each node its data and its out-arcs in order. */
module Graphs {
  import opened Lists

  datatype Edge<+A> = Edge(data: A, target: int)

  datatype Graph<+A, +N> = Graph(nodes: seq<N>, out: seq<seq<Edge<A>>>)

  ghost predicate WellFormed<A, N>(g: Graph<A, N>) {
    && |g.out| == |g.nodes|
    && forall n, k | 0 <= n < |g.out| && 0 <= k < |g.out[n]| :: 0 <= g.out[n][k].target < |g.nodes|
  }

  // ----- Reachability

  ghost predicate HasArc<A, N>(g: Graph<A, N>, a: int, b: int) {
    0 <= a < |g.out| && exists k | 0 <= k < |g.out[a]| :: g.out[a][k].target == b
  }

  ghost predicate IsPath<A, N>(g: Graph<A, N>, p: seq<int>) {
    |p| > 0 && forall i | 0 <= i < |p| - 1 :: HasArc(g, p[i], p[i + 1])
  }

  ghost predicate Reachable<A, N>(g: Graph<A, N>, a: int, b: int) {
    exists p :: IsPath(g, p) && p[0] == a && p[|p| - 1] == b
  }

  lemma ReachSelf<A, N>(g: Graph<A, N>, a: int)
    ensures Reachable(g, a, a)
  {
    assert IsPath(g, [a]);
  }

  lemma ReachStep<A, N>(g: Graph<A, N>, a: int, b: int, c: int)
    requires Reachable(g, a, b) && HasArc(g, b, c)
    ensures Reachable(g, a, c)
  {
    var p :| IsPath(g, p) && p[0] == a && p[|p| - 1] == b;
    assert IsPath(g, p + [c]);
  }

  /** A set that holds the start and is closed under arcs holds everything reachable. */
  lemma {:induction false} ClosedHoldsPath<A, N>(g: Graph<A, N>, s: set<int>, p: seq<int>)
    requires IsPath(g, p) && p[0] in s
    requires forall a, b | a in s && HasArc(g, a, b) :: b in s
    ensures p[|p| - 1] in s
  {
    if |p| > 1 {
      assert HasArc(g, p[0], p[1]);
      ClosedHoldsPath(g, s, p[1..]);
    }
  }

  // ----- Isomorphic copies

  /** `h` is a copy of the part of `g` that `root` reaches: node `i` of `h` stands for `olds[i]`.
      Each reachable node and each of its out-arcs occurs exactly once, with data and order kept. */
  ghost predicate IsCopy<A, N>(g: Graph<A, N>, root: int, h: Graph<A, N>, olds: seq<int>) {
    && |olds| == |h.nodes| == |h.out| && |olds| > 0 && olds[0] == root
    && NoRepeats(olds)
    && (forall n :: n in olds <==> Reachable(g, root, n))
    && (forall i | 0 <= i < |olds| :: 0 <= olds[i] < |g.nodes| && olds[i] < |g.out| && h.nodes[i] == g.nodes[olds[i]])
    && (forall i | 0 <= i < |olds| :: |h.out[i]| == |g.out[olds[i]]|)
    && (forall i, k | 0 <= i < |olds| && 0 <= k < |h.out[i]| ::
          && h.out[i][k].data == g.out[olds[i]][k].data
          && 0 <= h.out[i][k].target < |olds|
          && olds[h.out[i][k].target] == g.out[olds[i]][k].target)
  }

  /** `f` renames the nodes of `h` to those of `h'`, keeping root, data, arcs and their order. */
  ghost predicate IsIsomorphism<A, N>(h: Graph<A, N>, h': Graph<A, N>, f: seq<int>) {
    && |f| == |h.nodes| == |h'.nodes| == |h.out| == |h'.out| && |f| > 0 && f[0] == 0
    && (forall i | 0 <= i < |f| :: 0 <= f[i] < |f| && h.nodes[i] == h'.nodes[f[i]] && |h.out[i]| == |h'.out[f[i]]|)
    && NoRepeats(f)
    && (forall i, k | 0 <= i < |f| && 0 <= k < |h.out[i]| ::
          && h.out[i][k].data == h'.out[f[i]][k].data
          && 0 <= h.out[i][k].target < |f| && f[h.out[i][k].target] == h'.out[f[i]][k].target)
  }

  function IndexOf(s: seq<int>, x: int): (i: nat)
    requires x in s
    ensures i < |s| && s[i] == x
  {
    if s[0] == x then 0 else 1 + IndexOf(s[1..], x)
  }

  /** `f` sends each node of the first copy to the node of the second that stands for the same. */
  ghost predicate Renames(olds: seq<int>, olds': seq<int>, f: seq<int>) {
    |f| == |olds| && forall i | 0 <= i < |f| :: 0 <= f[i] < |olds'| && olds'[f[i]] == olds[i]
  }

  lemma ArcAgrees<A, N>(g: Graph<A, N>, root: int, h: Graph<A, N>, olds: seq<int>, h': Graph<A, N>, olds': seq<int>,
                        f: seq<int>, i: int, k: int)
    requires IsCopy(g, root, h, olds) && IsCopy(g, root, h', olds') && Renames(olds, olds', f)
    requires 0 <= i < |f| && 0 <= k < |h.out[i]|
    ensures |h.out[i]| == |h'.out[f[i]]| && h.out[i][k].data == h'.out[f[i]][k].data
    ensures 0 <= h.out[i][k].target < |f| && f[h.out[i][k].target] == h'.out[f[i]][k].target
  {
    hide Reachable;
    var t, t' := h.out[i][k].target, h'.out[f[i]][k].target;
    assert olds[t] == g.out[olds[i]][k].target == olds'[t'];
    assert olds'[f[t]] == olds'[t'];
  }

  /** Any two copies of the same part of a graph are isomorphic. */
  lemma CopiesAreIsomorphic<A, N>(g: Graph<A, N>, root: int, h: Graph<A, N>, olds: seq<int>, h': Graph<A, N>,
                                  olds': seq<int>)
    requires IsCopy(g, root, h, olds) && IsCopy(g, root, h', olds')
    ensures exists f :: IsIsomorphism(h, h', f)
  {
    hide Reachable, IndexOf;
    assert forall i | 0 <= i < |olds| :: olds[i] in olds && olds[i] in olds';
    assert forall x :: x in olds <==> x in olds';
    var f := seq(|olds|, i requires 0 <= i < |olds| => IndexOf(olds', olds[i]));
    assert Renames(olds, olds', f);
    SameLength(olds, olds');
    forall i, k | 0 <= i < |f| && 0 <= k < |h.out[i]|
      ensures h.out[i][k].data == h'.out[f[i]][k].data
      ensures 0 <= h.out[i][k].target < |f| && f[h.out[i][k].target] == h'.out[f[i]][k].target
    {
      ArcAgrees(g, root, h, olds, h', olds', f, i, k);
    }
    assert olds'[f[0]] == olds'[0];
    assert IsIsomorphism(h, h', f);
  }

  lemma {:induction false} SameLength(a: seq<int>, b: seq<int>)
    requires NoRepeats(a) && NoRepeats(b)
    requires forall x :: x in a <==> x in b
    ensures |a| == |b|
  {
    SeqSize(a);
    SeqSize(b);
    assert (set x | x in a) == (set x | x in b);
  }

  lemma {:induction false} SeqSize(a: seq<int>)
    requires NoRepeats(a)
    ensures |set x | x in a| == |a|
  {
    if a != [] {
      var n := |a| - 1;
      SeqSize(a[..n]);
      assert a == a[..n] + [a[n]];
      assert (set x | x in a) == (set x | x in a[..n]) + {a[n]};
      assert a[n] !in a[..n];
    }
  }
}
