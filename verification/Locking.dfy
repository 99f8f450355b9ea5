/** One family of chained lists (all in-lists or all out-lists) while arcs are being appended. */
module ChainedLists {
  import opened Ids

  /** Where an arc is: waiting to be linked by a thread, the `pos`-th of the list of a node, or, as
      only the root arc, in no list for good. */
  datatype Place = Unlinked(thread: int) | At(node: int, pos: int) | Outside

  /** How far an append at a node has come: nothing half done, the new arc hangs on the last one but
      is not the tail yet, or one of head and tail of an empty list is written. */
  datatype Mid = Rest | Hanging(arc: int) | TailOnly(arc: int) | HeadOnly(arc: int)

  /** `head`, `tail` (by node) and `next` (by arc) are the fields of the arenas; `list`, `at` and
      `mid` record what they are meant to hold. */
  datatype Side = Side(head: seq<int>, tail: seq<int>, next: seq<int>, list: seq<seq<int>>, at: seq<Place>,
                       mid: seq<Mid>)

  ghost predicate Sizes(s: Side, arcs: nat, nodes: nat) {
    |s.head| == |s.tail| == |s.list| == |s.mid| == nodes && |s.next| == |s.at| == arcs
  }

  /** The fields of node `n` chain up its list from head to tail, up to the append under way. */
  ghost predicate NodeOk(s: Side, n: int)
    requires 0 <= n < |s.head| && Sizes(s, |s.next|, |s.head|)
  {
    var l, m := s.list[n], s.mid[n];
    if l == [] then
      match m
      case Rest => s.head[n] == NO_ARC && s.tail[n] == NO_ARC
      case TailOnly(a) => s.head[n] == NO_ARC && s.tail[n] == a && 0 <= a < |s.at| && s.at[a].Unlinked?
      case HeadOnly(a) => s.head[n] == a && s.tail[n] == NO_ARC && 0 <= a < |s.at| && s.at[a].Unlinked?
      case Hanging(_) => false
    else
      && s.head[n] == l[0] && s.tail[n] == l[|l| - 1]
      && (forall i | 0 <= i < |l| - 1 :: 0 <= l[i] < |s.next| && s.next[l[i]] == l[i + 1])
      && 0 <= l[|l| - 1] < |s.next|
      && match m
         case Rest => s.next[l[|l| - 1]] == NO_ARC
         case Hanging(a) => s.next[l[|l| - 1]] == a && 0 <= a < |s.at| && s.at[a].Unlinked?
         case _ => false
  }

  /** Lists and places agree: no arc is in two lists, or twice in one. */
  ghost predicate Placed(s: Side)
    requires Sizes(s, |s.next|, |s.head|)
  {
    && (forall n, i | 0 <= n < |s.list| && 0 <= i < |s.list[n]| ::
          0 <= s.list[n][i] < |s.at| && s.at[s.list[n][i]] == At(n, i))
    && (forall a | 0 <= a < |s.at| && s.at[a].At? ::
          && 0 <= s.at[a].node < |s.list| && 0 <= s.at[a].pos < |s.list[s.at[a].node]|
          && s.list[s.at[a].node][s.at[a].pos] == a)
    && (forall a | 0 <= a < |s.at| && s.at[a].Unlinked? :: s.next[a] == NO_ARC)
  }

  ghost predicate SideOk(s: Side, arcs: nat, nodes: nat) {
    Sizes(s, arcs, nodes) && Placed(s) && forall n | 0 <= n < nodes :: NodeOk(s, n)
  }

  // ----- The steps

  function GrowArc(s: Side, th: int): Side {
    s.(next := s.next + [NO_ARC], at := s.at + [Unlinked(th)])
  }

  lemma GrowArcOk(s: Side, arcs: nat, nodes: nat, th: int)
    requires SideOk(s, arcs, nodes)
    ensures SideOk(GrowArc(s, th), arcs + 1, nodes)
  {
    var s' := GrowArc(s, th);
    forall n | 0 <= n < nodes ensures NodeOk(s', n) {
      assert NodeOk(s, n);
    }
  }

  /** A new node without arcs. */
  function GrowEmpty(s: Side): Side {
    s.(head := s.head + [NO_ARC], tail := s.tail + [NO_ARC], list := s.list + [[]], mid := s.mid + [Rest])
  }

  lemma GrowEmptyOk(s: Side, arcs: nat, nodes: nat)
    requires SideOk(s, arcs, nodes)
    ensures SideOk(GrowEmpty(s), arcs, nodes + 1)
  {
    var s' := GrowEmpty(s);
    forall n | 0 <= n < nodes + 1 ensures NodeOk(s', n) {
      if n < nodes { assert NodeOk(s, n); }
    }
  }

  /** A new node that starts with arc `a`. */
  function GrowWith(s: Side, a: int): Side
    requires 0 <= a < |s.at|
  {
    s.(head := s.head + [a], tail := s.tail + [a], list := s.list + [[a]], mid := s.mid + [Rest],
       at := s.at[a := At(|s.head|, 0)])
  }

  lemma GrowWithOk(s: Side, arcs: nat, nodes: nat, a: int)
    requires SideOk(s, arcs, nodes) && 0 <= a < arcs && s.at[a].Unlinked?
    requires forall n | 0 <= n < nodes :: s.mid[n] == Rest || s.mid[n].arc != a
    ensures SideOk(GrowWith(s, a), arcs, nodes + 1)
  {
    var s' := GrowWith(s, a);
    forall n | 0 <= n < nodes + 1 ensures NodeOk(s', n) {
      if n < nodes { assert NodeOk(s, n); }
    }
  }

  /** The old tail points to the new arc. */
  function Hang(s: Side, n: int, a: int): Side
    requires 0 <= n < |s.mid| && 0 <= n < |s.tail| && 0 <= s.tail[n] < |s.next|
  {
    s.(next := s.next[s.tail[n] := a], mid := s.mid[n := Hanging(a)])
  }

  lemma HangOk(s: Side, arcs: nat, nodes: nat, n: int, a: int)
    requires SideOk(s, arcs, nodes) && 0 <= n < nodes && 0 <= a < arcs
    requires s.list[n] != [] && s.mid[n] == Rest && s.at[a].Unlinked?
    ensures 0 <= s.tail[n] < arcs && s.at[s.tail[n]].At? && SideOk(Hang(s, n, a), arcs, nodes)
  {
    assert NodeOk(s, n);
    var s', l := Hang(s, n, a), s.list[n];
    assert s.at[l[|l| - 1]] == At(n, |l| - 1);
    forall k | 0 <= k < nodes ensures NodeOk(s', k) {
      assert NodeOk(s, k);
      assert forall i | 0 <= i < |s.list[k]| && s.list[k][i] == s.tail[n] :: k == n && i == |l| - 1;
    }
  }

  /** The new arc becomes the tail, and with that a member of the list. */
  function Join(s: Side, n: int, a: int): Side
    requires 0 <= n < |s.tail| && n < |s.list| && n < |s.mid| && 0 <= a < |s.at|
  {
    s.(tail := s.tail[n := a], list := s.list[n := s.list[n] + [a]], at := s.at[a := At(n, |s.list[n]|)],
       mid := s.mid[n := Rest])
  }

  lemma JoinOk(s: Side, arcs: nat, nodes: nat, n: int, a: int)
    requires SideOk(s, arcs, nodes) && 0 <= n < nodes && 0 <= a < arcs && s.mid[n] == Hanging(a)
    requires forall k | 0 <= k < nodes && k != n :: s.mid[k] == Rest || s.mid[k].arc != a
    ensures SideOk(Join(s, n, a), arcs, nodes)
  {
    hide NodeOk, Placed;
    assert NodeOk(s, n);
    JoinPlaced(s, n, a);
    forall k | 0 <= k < nodes ensures NodeOk(Join(s, n, a), k) {
      assert NodeOk(s, k);
      JoinNode(s, n, a, k);
    }
  }

  lemma JoinPlaced(s: Side, n: int, a: int)
    requires Sizes(s, |s.next|, |s.head|) && Placed(s) && 0 <= n < |s.head| && 0 <= a < |s.at|
    requires NodeOk(s, n) && s.mid[n] == Hanging(a)
    ensures Placed(Join(s, n, a))
  {
  }

  lemma JoinNode(s: Side, n: int, a: int, k: int)
    requires Sizes(s, |s.next|, |s.head|) && Placed(s) && 0 <= n < |s.head| && 0 <= a < |s.at| && 0 <= k < |s.head|
    requires NodeOk(s, n) && s.mid[n] == Hanging(a) && NodeOk(s, k)
    requires k != n ==> s.mid[k] == Rest || s.mid[k].arc != a
    ensures NodeOk(Join(s, n, a), k)
  {
  }

  /** The first of the two writes into an empty list. */
  function Half(s: Side, n: int, a: int, headFirst: bool): Side
    requires 0 <= n < |s.tail| && n < |s.head| && n < |s.mid|
  {
    if headFirst then s.(head := s.head[n := a], mid := s.mid[n := HeadOnly(a)])
    else s.(tail := s.tail[n := a], mid := s.mid[n := TailOnly(a)])
  }

  lemma HalfOk(s: Side, arcs: nat, nodes: nat, n: int, a: int, headFirst: bool)
    requires SideOk(s, arcs, nodes) && 0 <= n < nodes && 0 <= a < arcs && s.at[a].Unlinked?
    requires s.list[n] == [] && s.mid[n] == Rest
    ensures SideOk(Half(s, n, a, headFirst), arcs, nodes)
  {
    assert NodeOk(s, n);
    var s' := Half(s, n, a, headFirst);
    forall k | 0 <= k < nodes ensures NodeOk(s', k) {
      assert NodeOk(s, k);
    }
  }

  /** The second write makes the arc the only member. */
  function Whole(s: Side, n: int, a: int): Side
    requires 0 <= n < |s.tail| && n < |s.head| && n < |s.mid| && n < |s.list| && 0 <= a < |s.at|
  {
    s.(head := s.head[n := a], tail := s.tail[n := a], list := s.list[n := [a]], at := s.at[a := At(n, 0)],
       mid := s.mid[n := Rest])
  }

  lemma WholeOk(s: Side, arcs: nat, nodes: nat, n: int, a: int)
    requires SideOk(s, arcs, nodes) && 0 <= n < nodes && 0 <= a < arcs
    requires s.list[n] == [] && (s.mid[n] == HeadOnly(a) || s.mid[n] == TailOnly(a))
    requires forall k | 0 <= k < nodes && k != n :: s.mid[k] == Rest || s.mid[k].arc != a
    ensures SideOk(Whole(s, n, a), arcs, nodes)
  {
    assert NodeOk(s, n);
    var s' := Whole(s, n, a);
    forall k | 0 <= k < nodes ensures NodeOk(s', k) {
      assert NodeOk(s, k);
    }
  }

  /** With nothing half done, head and tail tell whether the list is empty. */
  lemma EmptyByHead(s: Side, arcs: nat, nodes: nat, n: int)
    requires SideOk(s, arcs, nodes) && 0 <= n < nodes && s.mid[n] == Rest
    ensures s.head[n] == NO_ARC <==> s.list[n] == []
    ensures s.list[n] != [] ==> 0 <= s.tail[n] < arcs && s.tail[n] == s.list[n][|s.list[n]| - 1]
  {
    assert NodeOk(s, n);
  }
}
