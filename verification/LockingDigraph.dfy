/** The locking `addArc` and `addNode` as interleaved steps of any number of threads. */
module LockingDigraph {
  import opened Lists
  import opened Ids
  import opened ChainedLists

  const FREE := -1

  datatype Dir = In | Out

  /** What a thread does next. `n` is the node whose list is extended, `a` the new arc, `p` the arc it
      is hung on; `s` is the source, where the work goes on once the in-list is done. */
  datatype Pc =
    | Idle
    | NewArc(s: int, t: int)                                    // addArc: emplace the arc
    | WantNode(dir: Dir, n: int, a: int, s: int, headFirst: bool)
    | HasNode(dir: Dir, n: int, a: int, s: int, headFirst: bool) // look at the list, lock its tail
    | HasBoth(dir: Dir, n: int, a: int, s: int, headFirst: bool, p: int)
    | Hung(dir: Dir, n: int, a: int, s: int, headFirst: bool, p: int)
    | Joined(dir: Dir, n: int, a: int, s: int, headFirst: bool, p: int)
    | Halfway(n: int, a: int, s: int, headFirst: bool)          // first arc of an empty out-list
    | Leaving(dir: Dir, n: int, a: int, s: int, headFirst: bool)
    | MakeArc(s: int)                                           // addNode: emplace a locked arc
    | MakeNode(s: int, a: int)
    | SetEnds(s: int, a: int, t: int)
    | Release(s: int, a: int, t: int)

  datatype State = State(src: seq<int>, tgt: seq<int>, ins: Side, outs: Side,
                         nodeLock: seq<int>, arcLock: seq<int>, threads: seq<Pc>) {
    function Nodes(): nat { |nodeLock| }
    function Arcs(): nat { |arcLock| }
    function Of(d: Dir): Side { if d == In then ins else outs }
    function With(d: Dir, x: Side): State { if d == In then this.(ins := x) else this.(outs := x) }
  }

  // ----- What a program counter says

  function NodeHeld(c: Pc): int {
    if c.HasNode? || c.HasBoth? || c.Hung? || c.Joined? || c.Halfway? || c.Leaving? then c.n else FREE
  }

  function ArcHeld(c: Pc): int {
    if c.HasBoth? || c.Hung? || c.Joined? then c.p
    else if c.MakeNode? || c.SetEnds? || c.Release? then c.a
    else FREE
  }

  /** The arc that the thread has yet to link on side `d`. */
  function Pending(c: Pc, d: Dir): int {
    match c
    case WantNode(e, _, a, _, _) => if e == d || d == Out then a else NO_ARC
    case HasNode(e, _, a, _, _) => if e == d || d == Out then a else NO_ARC
    case HasBoth(e, _, a, _, _, _) => if e == d || d == Out then a else NO_ARC
    case Hung(e, _, a, _, _, _) => if e == d || d == Out then a else NO_ARC
    case Joined(e, _, a, _, _, _) => if e == In && d == Out then a else NO_ARC
    case Halfway(_, a, _, _) => if d == Out then a else NO_ARC
    case Leaving(e, _, a, _, _) => if e == In && d == Out then a else NO_ARC
    case MakeNode(_, a) => a
    case SetEnds(_, a, _) => if d == Out then a else NO_ARC
    case Release(_, a, _) => if d == Out then a else NO_ARC
    case _ => NO_ARC
  }

  /** The half-done append a thread has at the node it holds. */
  function MidOf(c: Pc, d: Dir): Mid {
    if c.Hung? && c.dir == d then Hanging(c.a)
    else if c.Halfway? && d == Out then (if c.headFirst then HeadOnly(c.a) else TailOnly(c.a))
    else Rest
  }

  // ----- Steps

  ghost predicate Fits(st: State, c: Pc) {
    && (c.WantNode? || c.HasNode? || c.HasBoth? || c.Hung? || c.Joined? || c.Halfway? || c.Leaving? ==>
          0 <= c.n < st.Nodes() && 0 <= c.a < st.Arcs() && 0 <= c.s < st.Nodes())
    && (c.HasBoth? || c.Hung? || c.Joined? ==> 0 <= c.p < st.Arcs())
    && (c.NewArc? ==> 0 <= c.s < st.Nodes() && 0 <= c.t < st.Nodes())
    && (c.MakeArc? ==> 0 <= c.s < st.Nodes())
    && (c.MakeNode? || c.SetEnds? || c.Release? ==> 0 <= c.s < st.Nodes() && 0 <= c.a < st.Arcs())
    && (c.SetEnds? || c.Release? ==> 0 <= c.t < st.Nodes())
  }

  /** All accesses of the next step of thread `th` are in range. */
  ghost predicate InRange(st: State, th: int)
    requires 0 <= th < |st.threads|
  {
    var c := st.threads[th];
    && |st.src| == |st.tgt| == st.Arcs()
    && Sizes(st.ins, st.Arcs(), st.Nodes()) && Sizes(st.outs, st.Arcs(), st.Nodes())
    && Fits(st, c)
    && (c.HasBoth? ==> 0 <= st.Of(c.dir).tail[c.n] < st.Arcs())
    && (c.HasNode? && (c.dir == In || st.outs.head[c.n] != NO_ARC) ==> 0 <= st.Of(c.dir).tail[c.n] < st.Arcs())
  }

  /** Taking a lock that is held has to wait; everything else can go on. */
  ghost predicate Enabled(st: State, th: int)
    requires 0 <= th < |st.threads|
  {
    && InRange(st, th)
    && match st.threads[th]
       case Idle => false
       case WantNode(_, n, _, _, _) => st.nodeLock[n] == FREE
       case HasNode(d, n, _, _, _) => (d == Out && st.outs.head[n] == NO_ARC) || st.arcLock[st.Of(d).tail[n]] == FREE
       case _ => true
  }

  ghost predicate Shaped(st: State) {
    && |st.src| == |st.tgt| == st.Arcs() && st.Arcs() > 0
    && Sizes(st.ins, st.Arcs(), st.Nodes()) && Sizes(st.outs, st.Arcs(), st.Nodes())
    && SideOk(st.ins, st.Arcs(), st.Nodes()) && SideOk(st.outs, st.Arcs(), st.Nodes())
    && forall th | 0 <= th < |st.threads| :: Fits(st, st.threads[th])
  }

  /** The state after thread `th` has made its next step. */
  ghost function Advance(st: State, th: int): State
    requires 0 <= th < |st.threads| && Enabled(st, th)
  {
    match st.threads[th]
    case NewArc(s, t) =>
      var a := st.Arcs();
      st.(src := st.src + [s], tgt := st.tgt + [t], ins := GrowArc(st.ins, th), outs := GrowArc(st.outs, th),
          arcLock := st.arcLock + [FREE], threads := st.threads[th := WantNode(In, t, a, s, false)])
    case WantNode(d, n, a, s, h) =>
      st.(nodeLock := st.nodeLock[n := th], threads := st.threads[th := HasNode(d, n, a, s, h)])
    case HasNode(d, n, a, s, h) =>
      if d == Out && st.outs.head[n] == NO_ARC then
        st.(outs := Half(st.outs, n, a, h), threads := st.threads[th := Halfway(n, a, s, h)])
      else
        var p := st.Of(d).tail[n];
        st.(arcLock := st.arcLock[p := th], threads := st.threads[th := HasBoth(d, n, a, s, h, p)])
    case HasBoth(d, n, a, s, h, p) =>
      st.With(d, Hang(st.Of(d), n, a)).(threads := st.threads[th := Hung(d, n, a, s, h, p)])
    case Hung(d, n, a, s, h, p) =>
      st.With(d, Join(st.Of(d), n, a)).(threads := st.threads[th := Joined(d, n, a, s, h, p)])
    case Joined(d, n, a, s, h, p) =>
      st.(arcLock := st.arcLock[p := FREE], threads := st.threads[th := Leaving(d, n, a, s, h)])
    case Halfway(n, a, s, h) =>
      st.(outs := Whole(st.outs, n, a), threads := st.threads[th := Leaving(Out, n, a, s, h)])
    case Leaving(d, n, a, s, h) =>
      st.(nodeLock := st.nodeLock[n := FREE],
          threads := st.threads[th := if d == In then WantNode(Out, s, a, s, h) else Idle])
    case MakeArc(s) =>
      var a := st.Arcs();
      st.(src := st.src + [NO_NODE], tgt := st.tgt + [NO_NODE],
          ins := GrowArc(st.ins, th), outs := GrowArc(st.outs, th),
          arcLock := st.arcLock + [th], threads := st.threads[th := MakeNode(s, a)])
    case MakeNode(s, a) =>
      var t := st.Nodes();
      st.(ins := GrowWith(st.ins, a), outs := GrowEmpty(st.outs), nodeLock := st.nodeLock + [FREE],
          threads := st.threads[th := SetEnds(s, a, t)])
    case SetEnds(s, a, t) =>
      st.(src := st.src[a := s], tgt := st.tgt[a := t], threads := st.threads[th := Release(s, a, t)])
    case Release(s, a, t) =>
      st.(arcLock := st.arcLock[a := FREE], threads := st.threads[th := WantNode(Out, s, a, s, true)])
  }

  datatype Event = CallAddArc(th: int, s: int, t: int) | CallAddNode(th: int, s: int) | Go(th: int)

  ghost predicate Possible(st: State, e: Event) {
    && 0 <= e.th < |st.threads|
    && match e
       case CallAddArc(th, s, t) => st.threads[th] == Idle && 0 <= s < st.Nodes() && 0 <= t < st.Nodes()
       case CallAddNode(th, s) => st.threads[th] == Idle && 0 <= s < st.Nodes()
       case Go(th) => Enabled(st, th)
  }

  ghost function Apply(st: State, e: Event): State
    requires Possible(st, e)
  {
    match e
    case CallAddArc(th, s, t) => st.(threads := st.threads[th := NewArc(s, t)])
    case CallAddNode(th, s) => st.(threads := st.threads[th := MakeArc(s)])
    case Go(th) => Advance(st, th)
  }

  // ----- The invariant

  /** Each lock is held by the thread whose program counter says so, and by no other. */
  ghost predicate Locks(st: State) {
    && (forall n | 0 <= n < st.Nodes() && st.nodeLock[n] != FREE ::
          0 <= st.nodeLock[n] < |st.threads| && NodeHeld(st.threads[st.nodeLock[n]]) == n)
    && (forall a | 0 <= a < st.Arcs() && st.arcLock[a] != FREE ::
          0 <= st.arcLock[a] < |st.threads| && ArcHeld(st.threads[st.arcLock[a]]) == a)
    && (forall th | 0 <= th < |st.threads| && NodeHeld(st.threads[th]) != FREE ::
          0 <= NodeHeld(st.threads[th]) < st.Nodes() && st.nodeLock[NodeHeld(st.threads[th])] == th)
    && (forall th | 0 <= th < |st.threads| && ArcHeld(st.threads[th]) != FREE ::
          0 <= ArcHeld(st.threads[th]) < st.Arcs() && st.arcLock[ArcHeld(st.threads[th])] == th)
  }

  /** An arc is unlinked just as long as one thread has yet to link it, and an append is half done
      just as long as the thread that holds the node is in the middle of it. */
  ghost predicate Duties(st: State, d: Dir)
    requires Sizes(st.Of(d), st.Arcs(), st.Nodes())
  {
    var x := st.Of(d);
    && (forall a | 0 <= a < st.Arcs() && x.at[a].Unlinked? ::
          0 <= x.at[a].thread < |st.threads| && Pending(st.threads[x.at[a].thread], d) == a)
    && (forall th | 0 <= th < |st.threads| && Pending(st.threads[th], d) != NO_ARC ::
          0 <= Pending(st.threads[th], d) < st.Arcs() && x.at[Pending(st.threads[th], d)] == Unlinked(th))
    && (forall n | 0 <= n < st.Nodes() ::
          if st.nodeLock[n] == FREE then x.mid[n] == Rest
          else 0 <= st.nodeLock[n] < |st.threads| && x.mid[n] == MidOf(st.threads[st.nodeLock[n]], d))
  }

  /** What a thread relies on between taking a lock and using it. */
  ghost predicate Reliant(st: State, c: Pc)
    requires Fits(st, c) && Sizes(st.ins, st.Arcs(), st.Nodes()) && Sizes(st.outs, st.Arcs(), st.Nodes())
  {
    && (c.HasBoth? || c.Hung? ==> st.Of(c.dir).list[c.n] != [] && st.Of(c.dir).tail[c.n] == c.p)
    && (c.Halfway? ==> st.outs.list[c.n] == [])
  }

  /** In-lists are never empty, and the ends recorded in an arc match the lists it is in. */
  ghost predicate Ends(st: State)
    requires Sizes(st.ins, st.Arcs(), st.Nodes()) && Sizes(st.outs, st.Arcs(), st.Nodes())
    requires |st.src| == |st.tgt| == st.Arcs()
  {
    && (forall n | 0 <= n < st.Nodes() :: st.ins.list[n] != [])
    && (forall a | 0 <= a < st.Arcs() && st.ins.at[a].At? ::
          st.tgt[a] == st.ins.at[a].node || exists th | 0 <= th < |st.threads| ::
              Naming(st.threads[th], a, st.ins.at[a].node))
    && (forall a | 0 < a < st.Arcs() && st.outs.at[a].At? :: st.src[a] == st.outs.at[a].node)
    && (forall a | 0 <= a < st.Arcs() :: !st.ins.at[a].Outside? && (st.outs.at[a].Outside? <==> a == 0))
    && (forall th | 0 <= th < |st.threads| :: Ready(st, st.threads[th]))
  }

  /** The thread is about to write the ends of its new arc. */
  predicate Naming(c: Pc, a: int, t: int) {
    c.SetEnds? && c.a == a && c.t == t
  }

  ghost predicate Ready(st: State, c: Pc)
    requires |st.src| == |st.tgt| == st.Arcs()
  {
    && ((c.WantNode? || c.HasNode? || c.HasBoth? || c.Hung?) && 0 <= c.a < st.Arcs() ==>
          st.src[c.a] == c.s && (if c.dir == In then st.tgt[c.a] == c.n else c.n == c.s))
    && ((c.Joined? || c.Leaving?) && c.dir == In && 0 <= c.a < st.Arcs() ==> st.src[c.a] == c.s)
    && (c.Halfway? && 0 <= c.a < st.Arcs() ==> st.src[c.a] == c.s == c.n)
    && (c.Release? && 0 <= c.a < st.Arcs() ==> st.src[c.a] == c.s)
    && (c.SetEnds? && 0 <= c.a < |st.ins.at| ==> st.ins.at[c.a].At? && st.ins.at[c.a].node == c.t)
  }

  ghost predicate Inv(st: State) {
    && Shaped(st) && Locks(st) && Duties(st, In) && Duties(st, Out) && Ends(st)
    && (forall th | 0 <= th < |st.threads| :: Reliant(st, st.threads[th]))
  }

  // ----- Every step keeps it

  /** One lock table before and after a step of `th`, which held `h` and now holds `h'`. */
  ghost predicate LockFollows(l: seq<int>, l': seq<int>, th: int, h: int, h': int) {
    && |l| <= |l'|
    && (h' != FREE ==> 0 <= h' < |l'|)
    && (h' != FREE && h' != h && h' < |l| ==> l[h'] == FREE)
    && forall i | 0 <= i < |l'| :: l'[i] == if i == h' then th else if i < |l| && i != h then l[i] else FREE
  }

  /** One side before and after a step of `th` from `c` to `c'`. */
  ghost predicate SideFollows(x: Side, x': Side, th: int, c: Pc, c': Pc, d: Dir)
    requires Sizes(x, |x.at|, |x.mid|) && Sizes(x', |x'.at|, |x'.mid|)
  {
    var q, q', h, h' := Pending(c, d), Pending(c', d), NodeHeld(c), NodeHeld(c');
    && |x.at| <= |x'.at| && |x.mid| <= |x'.mid|
    && (q' != NO_ARC ==> 0 <= q' < |x'.at| && x'.at[q'] == Unlinked(th))
    && (forall a | 0 <= a < |x.at| && a != q && a != q' :: x'.at[a] == x.at[a])
    && (forall a | |x.at| <= a < |x'.at| :: x'.at[a] == Unlinked(th) && a == q')
    && (q != q' && q != NO_ARC ==> 0 <= q < |x'.at| && x'.at[q].At?)
    && (q' != q && q' != NO_ARC ==> q' >= |x.at|)
    && (forall n | 0 <= n < |x'.mid| ::
          x'.mid[n] == if n == h' then MidOf(c', d) else if n < |x.mid| && n != h then x.mid[n] else Rest)
    && (forall n | 0 <= n < |x.mid| && n != h :: x'.list[n] == x.list[n] && x'.tail[n] == x.tail[n])
    && (forall n | 0 <= n < |x.mid| && x.list[n] != [] :: x'.list[n] != [])
  }

  ghost predicate Follows(st: State, st': State, th: int, c': Pc)
    requires Shaped(st) && 0 <= th < |st.threads|
  {
    && st'.threads == st.threads[th := c']
    && |st'.src| == |st'.tgt| == st'.Arcs()
    && Sizes(st'.ins, st'.Arcs(), st'.Nodes()) && Sizes(st'.outs, st'.Arcs(), st'.Nodes())
    && LockFollows(st.nodeLock, st'.nodeLock, th, NodeHeld(st.threads[th]), NodeHeld(c'))
    && LockFollows(st.arcLock, st'.arcLock, th, ArcHeld(st.threads[th]), ArcHeld(c'))
    && SideFollows(st.ins, st'.ins, th, st.threads[th], c', In)
    && SideFollows(st.outs, st'.outs, th, st.threads[th], c', Out)
  }

  lemma LocksStep(st: State, st': State, th: int, c': Pc)
    requires Shaped(st) && 0 <= th < |st.threads| && Follows(st, st', th, c') && Locks(st)
    ensures Locks(st')
  {
    hide SideOk, SideFollows, Sizes, Fits, MidOf, Pending, NodeHeld, ArcHeld;
  }

  lemma PendingStep(st: State, st': State, th: int, c': Pc, d: Dir)
    requires Shaped(st) && 0 <= th < |st.threads| && Follows(st, st', th, c') && Duties(st, d)
    ensures forall a | 0 <= a < st'.Arcs() && st'.Of(d).at[a].Unlinked? ::
              0 <= st'.Of(d).at[a].thread < |st'.threads| && Pending(st'.threads[st'.Of(d).at[a].thread], d) == a
    ensures forall u | 0 <= u < |st'.threads| && Pending(st'.threads[u], d) != NO_ARC ::
              0 <= Pending(st'.threads[u], d) < st'.Arcs() && st'.Of(d).at[Pending(st'.threads[u], d)] == Unlinked(u)
  {
    hide SideOk, Fits, MidOf, Pending, NodeHeld, ArcHeld, LockFollows;
    var x, x', c := st.Of(d), st'.Of(d), st.threads[th];
    assert SideFollows(x, x', th, c, c', d);
    forall u | 0 <= u < |st'.threads| && Pending(st'.threads[u], d) != NO_ARC
      ensures 0 <= Pending(st'.threads[u], d) < st'.Arcs() && x'.at[Pending(st'.threads[u], d)] == Unlinked(u)
    {
      if u != th {
        var b := Pending(st.threads[u], d);
        assert x.at[b] == Unlinked(u);
        assert Pending(c, d) != NO_ARC ==> x.at[Pending(c, d)] == Unlinked(th);
      }
    }
  }

  lemma DutiesStep(st: State, st': State, th: int, c': Pc, d: Dir)
    requires Shaped(st) && 0 <= th < |st.threads| && Follows(st, st', th, c') && Locks(st) && Duties(st, d)
    ensures Duties(st', d)
  {
    hide SideOk, Fits, MidOf, Pending, NodeHeld, ArcHeld;
    PendingStep(st, st', th, c', d);
    assert SideFollows(st.Of(d), st'.Of(d), th, st.threads[th], c', d);
  }

  /** The other threads can go on relying on the nodes they hold. */
  lemma ReliantStep(st: State, st': State, th: int, c': Pc)
    requires Shaped(st) && 0 <= th < |st.threads| && Follows(st, st', th, c') && Locks(st)
    requires forall u | 0 <= u < |st.threads| :: Reliant(st, st.threads[u])
    requires Fits(st', c') && Reliant(st', c')
    ensures forall u | 0 <= u < |st'.threads| :: Fits(st', st'.threads[u]) && Reliant(st', st'.threads[u])
  {
    hide SideOk, MidOf, Pending, ArcHeld;
    forall u | 0 <= u < |st'.threads| ensures Fits(st', st'.threads[u]) && Reliant(st', st'.threads[u]) {
      if u != th {
        var c := st.threads[u];
        assert Fits(st, c) && Reliant(st, c);
        var h := NodeHeld(st.threads[th]);
        assert h != FREE ==> st.nodeLock[h] == th;
        assert NodeHeld(c) != FREE ==> st.nodeLock[NodeHeld(c)] == u;
      }
    }
  }

  /** A step changes the ends of no arc but the one it is naming, and whatever it links is named. */
  ghost predicate EndsFollow(st: State, st': State, th: int, c': Pc)
    requires Shaped(st) && 0 <= th < |st.threads| && Follows(st, st', th, c')
  {
    var c := st.threads[th];
    && Ready(st', c')
    && (forall a | 0 <= a < st.Arcs() && (!c.SetEnds? || a != c.a) ::
          st'.src[a] == st.src[a] && st'.tgt[a] == st.tgt[a])
    && (forall a | 0 <= a < st'.Arcs() && a == Pending(c, In) && st'.ins.at[a].At? ::
          st'.tgt[a] == st'.ins.at[a].node || Naming(c', a, st'.ins.at[a].node))
    && (forall a | 0 < a < st'.Arcs() && a == Pending(c, Out) && st'.outs.at[a].At? ::
          st'.src[a] == st'.outs.at[a].node)
    && (c.SetEnds? ==> 0 <= c.a < st.Arcs() && st'.tgt[c.a] == c.t)
    && (forall n | st.Nodes() <= n < st'.Nodes() :: st'.ins.list[n] != [])
  }

  lemma TargetsStep(st: State, st': State, th: int, c': Pc)
    requires Shaped(st) && 0 <= th < |st.threads| && Follows(st, st', th, c') && Duties(st, In) && Ends(st)
    requires EndsFollow(st, st', th, c')
    ensures forall a | 0 <= a < st'.Arcs() && st'.ins.at[a].At? ::
              st'.tgt[a] == st'.ins.at[a].node || exists u | 0 <= u < |st'.threads| ::
                  Naming(st'.threads[u], a, st'.ins.at[a].node)
  {
    hide SideOk, MidOf, NodeHeld, ArcHeld, Locks, LockFollows, Pending;
    var c := st.threads[th];
    forall a | 0 <= a < st'.Arcs() && st'.ins.at[a].At?
      ensures st'.tgt[a] == st'.ins.at[a].node || exists u | 0 <= u < |st'.threads| ::
                Naming(st'.threads[u], a, st'.ins.at[a].node)
    {
      var t := st'.ins.at[a].node;
      if a == Pending(c, In) {
        assert st'.tgt[a] == t || Naming(st'.threads[th], a, t);
      } else {
        assert st'.ins.at[a] == st.ins.at[a];
        assert Ready(st, c);
        if st'.tgt[a] != t {
          var u :| 0 <= u < |st.threads| && Naming(st.threads[u], a, t);
          assert Naming(st'.threads[u], a, t);
        }
      }
    }
  }

  /** The ends of the arcs that others have yet to link stay as they are. */
  lemma ReadyStep(st: State, st': State, th: int, c': Pc, u: int)
    requires Shaped(st) && 0 <= th < |st.threads| && Follows(st, st', th, c') && Duties(st, In) && Duties(st, Out)
    requires Ends(st)
    requires EndsFollow(st, st', th, c') && 0 <= u < |st.threads|
    ensures Ready(st', st'.threads[u])
  {
    hide SideOk, MidOf, NodeHeld, ArcHeld, Locks, LockFollows;
    if u != th {
      var b, c := st.threads[u], st.threads[th];
      assert Ready(st, b);
      assert Pending(b, Out) != NO_ARC ==> st.outs.at[Pending(b, Out)] == Unlinked(u);
      assert Pending(c, Out) != NO_ARC ==> st.outs.at[Pending(c, Out)] == Unlinked(th);
      assert Pending(c, In) != NO_ARC ==> st.ins.at[Pending(c, In)] == Unlinked(th);
    }
  }

  lemma EndsStep(st: State, st': State, th: int, c': Pc)
    requires Shaped(st) && 0 <= th < |st.threads| && Follows(st, st', th, c') && Duties(st, In) && Duties(st, Out)
    requires Ends(st)
    requires EndsFollow(st, st', th, c')
    ensures Ends(st')
  {
    hide SideOk, MidOf, NodeHeld, ArcHeld, Locks, LockFollows, Ready, Naming;
    var c := st.threads[th];
    TargetsStep(st, st', th, c');
    forall u | 0 <= u < |st'.threads| ensures Ready(st', st'.threads[u]) {
      ReadyStep(st, st', th, c', u);
    }
    assert Pending(c, Out) != NO_ARC ==> st.outs.at[Pending(c, Out)] == Unlinked(th);
    assert Pending(c, In) != NO_ARC ==> st.ins.at[Pending(c, In)] == Unlinked(th);
  }

  lemma StepKeeps(st: State, st': State, th: int, c': Pc)
    requires Inv(st) && 0 <= th < |st.threads| && Follows(st, st', th, c')
    requires SideOk(st'.ins, st'.Arcs(), st'.Nodes()) && SideOk(st'.outs, st'.Arcs(), st'.Nodes())
    requires Fits(st', c') && Reliant(st', c') && EndsFollow(st, st', th, c')
    ensures Inv(st')
  {
    hide SideOk, Follows, EndsFollow, Locks, Duties, Ends, Reliant, Fits;
    LocksStep(st, st', th, c');
    DutiesStep(st, st', th, c', In);
    DutiesStep(st, st', th, c', Out);
    ReliantStep(st, st', th, c');
    EndsStep(st, st', th, c');
    GrowOnly(st, st', th, c');
  }

  lemma GrowOnly(st: State, st': State, th: int, c': Pc)
    requires Shaped(st) && 0 <= th < |st.threads| && Follows(st, st', th, c')
    ensures st'.Arcs() >= st.Arcs() && |st'.src| == |st'.tgt| == st'.Arcs()
    ensures Sizes(st'.ins, st'.Arcs(), st'.Nodes()) && Sizes(st'.outs, st'.Arcs(), st'.Nodes())
  {
  }

  /** What is half done at the node a thread holds is that thread's own doing. */
  lemma MyNode(st: State, th: int)
    requires Inv(st) && 0 <= th < |st.threads| && NodeHeld(st.threads[th]) != FREE
    ensures var c := st.threads[th];
            && 0 <= NodeHeld(c) < st.Nodes()
            && st.ins.mid[NodeHeld(c)] == MidOf(c, In) && st.outs.mid[NodeHeld(c)] == MidOf(c, Out)
  {
    hide SideOk;
  }

  // ----- Step by step

  lemma CallKeeps(st: State, th: int, c: Pc)
    requires Inv(st) && 0 <= th < |st.threads| && st.threads[th] == Idle && (c.NewArc? || c.MakeArc?) && Fits(st, c)
    ensures Inv(st.(threads := st.threads[th := c]))
  {
    hide SideOk;
    StepKeeps(st, st.(threads := st.threads[th := c]), th, c);
  }

  lemma NewArcFollows(st: State, th: int)
    requires Inv(st) && 0 <= th < |st.threads| && Enabled(st, th) && st.threads[th].NewArc?
    ensures Follows(st, Advance(st, th), th, Advance(st, th).threads[th])
  {
    hide SideOk, Ends, Ready, Reliant;
  }

  lemma NewArcKeeps(st: State, th: int)
    requires Inv(st) && 0 <= th < |st.threads| && Enabled(st, th) && st.threads[th].NewArc?
    ensures Inv(Advance(st, th))
  {
    hide SideOk, Follows, Locks;
    NewArcFollows(st, th);
    GrowArcOk(st.ins, st.Arcs(), st.Nodes(), th);
    GrowArcOk(st.outs, st.Arcs(), st.Nodes(), th);
    StepKeeps(st, Advance(st, th), th, Advance(st, th).threads[th]);
  }

  lemma MakeArcFollows(st: State, th: int)
    requires Inv(st) && 0 <= th < |st.threads| && Enabled(st, th) && st.threads[th].MakeArc?
    ensures Follows(st, Advance(st, th), th, Advance(st, th).threads[th])
  {
    hide SideOk, Ends, Ready, Reliant;
  }

  lemma MakeArcKeeps(st: State, th: int)
    requires Inv(st) && 0 <= th < |st.threads| && Enabled(st, th) && st.threads[th].MakeArc?
    ensures Inv(Advance(st, th))
  {
    hide SideOk, Follows, Locks;
    MakeArcFollows(st, th);
    GrowArcOk(st.ins, st.Arcs(), st.Nodes(), th);
    GrowArcOk(st.outs, st.Arcs(), st.Nodes(), th);
    StepKeeps(st, Advance(st, th), th, Advance(st, th).threads[th]);
  }

  lemma WantNodeKeeps(st: State, th: int)
    requires Inv(st) && 0 <= th < |st.threads| && Enabled(st, th) && st.threads[th].WantNode?
    ensures Inv(Advance(st, th))
  {
    hide SideOk, Follows, Locks;
    WantNodeFollows(st, th);
    StepKeeps(st, Advance(st, th), th, Advance(st, th).threads[th]);
  }

  lemma WantNodeFollows(st: State, th: int)
    requires Inv(st) && 0 <= th < |st.threads| && Enabled(st, th) && st.threads[th].WantNode?
    ensures Follows(st, Advance(st, th), th, Advance(st, th).threads[th])
  {
    hide SideOk, Ends, Ready, Reliant;
  }

  lemma FirstArcFollows(st: State, th: int)
    requires Inv(st) && 0 <= th < |st.threads| && Enabled(st, th) && st.threads[th].HasNode?
    requires st.threads[th].dir == Out && st.outs.head[st.threads[th].n] == NO_ARC
    ensures Follows(st, Advance(st, th), th, Advance(st, th).threads[th])
  {
    hide SideOk, Ends, Ready, Reliant;
  }

  lemma FirstArcKeeps(st: State, th: int)
    requires Inv(st) && 0 <= th < |st.threads| && Enabled(st, th) && st.threads[th].HasNode?
    requires st.threads[th].dir == Out && st.outs.head[st.threads[th].n] == NO_ARC
    ensures Inv(Advance(st, th))
  {
    hide SideOk, Follows, Locks;
    FirstArcFollows(st, th);
    MyNode(st, th);
    var c := st.threads[th];
    EmptyByHead(st.outs, st.Arcs(), st.Nodes(), c.n);
    HalfOk(st.outs, st.Arcs(), st.Nodes(), c.n, c.a, c.headFirst);
    StepKeeps(st, Advance(st, th), th, Advance(st, th).threads[th]);
  }

  lemma LockTailFollows(st: State, th: int)
    requires Inv(st) && 0 <= th < |st.threads| && Enabled(st, th) && st.threads[th].HasNode?
    requires st.threads[th].dir == In || st.outs.head[st.threads[th].n] != NO_ARC
    ensures Follows(st, Advance(st, th), th, Advance(st, th).threads[th])
  {
    hide SideOk, Ends, Ready, Reliant;
  }

  lemma LockTailKeeps(st: State, th: int)
    requires Inv(st) && 0 <= th < |st.threads| && Enabled(st, th) && st.threads[th].HasNode?
    requires st.threads[th].dir == In || st.outs.head[st.threads[th].n] != NO_ARC
    ensures Inv(Advance(st, th))
  {
    hide SideOk, Follows, Locks;
    LockTailFollows(st, th);
    MyNode(st, th);
    var c := st.threads[th];
    EmptyByHead(st.Of(c.dir), st.Arcs(), st.Nodes(), c.n);
    StepKeeps(st, Advance(st, th), th, Advance(st, th).threads[th]);
  }

  /** Nobody else has a half-done append with this thread's arc. */
  lemma OnlyMine(st: State, th: int, d: Dir, a: int)
    requires Inv(st) && 0 <= th < |st.threads| && Pending(st.threads[th], d) == a && a != NO_ARC
    ensures forall n | 0 <= n < st.Nodes() && n != NodeHeld(st.threads[th]) ::
              st.Of(d).mid[n] == Rest || st.Of(d).mid[n].arc != a
  {
    hide SideOk;
    forall n | 0 <= n < st.Nodes() && n != NodeHeld(st.threads[th])
      ensures st.Of(d).mid[n] == Rest || st.Of(d).mid[n].arc != a
    {
      if st.nodeLock[n] != FREE {
        var u := st.nodeLock[n];
        assert u != th;
        assert MidOf(st.threads[u], d) != Rest ==> Pending(st.threads[u], d) == MidOf(st.threads[u], d).arc;
      }
    }
  }

  lemma HasBothFollows(st: State, th: int)
    requires Inv(st) && 0 <= th < |st.threads| && Enabled(st, th) && st.threads[th].HasBoth?
    ensures Follows(st, Advance(st, th), th, Advance(st, th).threads[th])
  {
    hide SideOk, Ends, Ready, Reliant;
  }

  lemma HasBothKeeps(st: State, th: int)
    requires Inv(st) && 0 <= th < |st.threads| && Enabled(st, th) && st.threads[th].HasBoth?
    ensures Inv(Advance(st, th))
  {
    hide SideOk, Follows, Locks;
    HasBothFollows(st, th);
    MyNode(st, th);
    var c := st.threads[th];
    HangOk(st.Of(c.dir), st.Arcs(), st.Nodes(), c.n, c.a);
    StepKeeps(st, Advance(st, th), th, Advance(st, th).threads[th]);
  }

  lemma HungFollows(st: State, th: int)
    requires Inv(st) && 0 <= th < |st.threads| && Enabled(st, th) && st.threads[th].Hung?
    ensures Follows(st, Advance(st, th), th, Advance(st, th).threads[th])
  {
    hide SideOk, Ends, Ready, Reliant;
  }

  lemma HungKeeps(st: State, th: int)
    requires Inv(st) && 0 <= th < |st.threads| && Enabled(st, th) && st.threads[th].Hung?
    ensures Inv(Advance(st, th))
  {
    hide SideOk, Follows, Locks;
    HungFollows(st, th);
    MyNode(st, th);
    var c := st.threads[th];
    OnlyMine(st, th, c.dir, c.a);
    JoinOk(st.Of(c.dir), st.Arcs(), st.Nodes(), c.n, c.a);
    StepKeeps(st, Advance(st, th), th, Advance(st, th).threads[th]);
  }

  lemma HalfwayKeeps(st: State, th: int)
    requires Inv(st) && 0 <= th < |st.threads| && Enabled(st, th) && st.threads[th].Halfway?
    ensures Inv(Advance(st, th))
  {
    hide SideOk;
    var c := st.threads[th];
    OnlyMine(st, th, Out, c.a);
    WholeOk(st.outs, st.Arcs(), st.Nodes(), c.n, c.a);
    StepKeeps(st, Advance(st, th), th, Advance(st, th).threads[th]);
  }

  lemma MakeNodeKeeps(st: State, th: int)
    requires Inv(st) && 0 <= th < |st.threads| && Enabled(st, th) && st.threads[th].MakeNode?
    ensures Inv(Advance(st, th))
  {
    hide SideOk;
    var c := st.threads[th];
    OnlyMine(st, th, In, c.a);
    GrowWithOk(st.ins, st.Arcs(), st.Nodes(), c.a);
    GrowEmptyOk(st.outs, st.Arcs(), st.Nodes());
    StepKeeps(st, Advance(st, th), th, Advance(st, th).threads[th]);
  }

  lemma UnlockArcKeeps(st: State, th: int)
    requires Inv(st) && 0 <= th < |st.threads| && Enabled(st, th) && st.threads[th].Joined?
    ensures Inv(Advance(st, th))
  {
    hide SideOk, Follows, Locks, Duties;
    UnlockArcFollows(st, th);
    StepKeeps(st, Advance(st, th), th, Advance(st, th).threads[th]);
  }

  lemma UnlockArcFollows(st: State, th: int)
    requires Inv(st) && 0 <= th < |st.threads| && Enabled(st, th) && st.threads[th].Joined?
    ensures Follows(st, Advance(st, th), th, Advance(st, th).threads[th])
  {
    hide SideOk, Ends, Ready, Reliant;
  }

  lemma LeaveFollows(st: State, th: int)
    requires Inv(st) && 0 <= th < |st.threads| && Enabled(st, th) && st.threads[th].Leaving?
    ensures Follows(st, Advance(st, th), th, Advance(st, th).threads[th])
  {
    hide SideOk, Ends, Ready, Reliant;
  }

  lemma LeaveKeeps(st: State, th: int)
    requires Inv(st) && 0 <= th < |st.threads| && Enabled(st, th) && st.threads[th].Leaving?
    ensures Inv(Advance(st, th))
  {
    hide SideOk, Follows, Locks;
    LeaveFollows(st, th);
    StepKeeps(st, Advance(st, th), th, Advance(st, th).threads[th]);
  }

  lemma SetEndsKeeps(st: State, th: int)
    requires Inv(st) && 0 <= th < |st.threads| && Enabled(st, th) && st.threads[th].SetEnds?
    ensures Inv(Advance(st, th))
  {
    hide SideOk;
    StepKeeps(st, Advance(st, th), th, Advance(st, th).threads[th]);
  }

  lemma ReleaseKeeps(st: State, th: int)
    requires Inv(st) && 0 <= th < |st.threads| && Enabled(st, th) && st.threads[th].Release?
    ensures Inv(Advance(st, th))
  {
    hide SideOk;
    StepKeeps(st, Advance(st, th), th, Advance(st, th).threads[th]);
  }

  /** Every step of every thread keeps the invariant. */
  lemma ApplyKeeps(st: State, e: Event)
    requires Inv(st) && Possible(st, e)
    ensures Inv(Apply(st, e))
  {
    hide Inv, Advance, Shaped;
    match e
    case CallAddArc(th, s, t) => CallKeeps(st, th, NewArc(s, t));
    case CallAddNode(th, s) => CallKeeps(st, th, MakeArc(s));
    case Go(th) =>
      match st.threads[th]
      case NewArc(_, _) => NewArcKeeps(st, th);
      case WantNode(_, _, _, _, _) => WantNodeKeeps(st, th);
      case HasNode(d, n, _, _, _) =>
        if d == Out && st.outs.head[n] == NO_ARC { FirstArcKeeps(st, th); } else { LockTailKeeps(st, th); }
      case HasBoth(_, _, _, _, _, _) => HasBothKeeps(st, th);
      case Hung(_, _, _, _, _, _) => HungKeeps(st, th);
      case Joined(_, _, _, _, _, _) => UnlockArcKeeps(st, th);
      case Halfway(_, _, _, _) => HalfwayKeeps(st, th);
      case Leaving(_, _, _, _, _) => LeaveKeeps(st, th);
      case MakeArc(_) => MakeArcKeeps(st, th);
      case MakeNode(_, _) => MakeNodeKeeps(st, th);
      case SetEnds(_, _, _) => SetEndsKeeps(st, th);
      case Release(_, _, _) => ReleaseKeeps(st, th);
  }

  // ----- Runs

  /** A fresh tree: the root node with its root arc, no lock taken, all threads at rest. */
  ghost function Fresh(threads: nat): State {
    State([NO_NODE], [0],
          Side([0], [0], [NO_ARC], [[0]], [At(0, 0)], [Rest]),
          Side([NO_ARC], [NO_ARC], [NO_ARC], [[]], [Outside], [Rest]),
          [FREE], [FREE], seq(threads, i => Idle))
  }

  lemma FreshInv(threads: nat)
    ensures Inv(Fresh(threads))
  {
    hide SideOk;
    FreshSides();
  }

  lemma FreshSides()
    ensures SideOk(Side([0], [0], [NO_ARC], [[0]], [At(0, 0)], [Rest]), 1, 1)
    ensures SideOk(Side([NO_ARC], [NO_ARC], [NO_ARC], [[]], [Outside], [Rest]), 1, 1)
  {
  }

  ghost predicate Run(sts: seq<State>, es: seq<Event>, threads: nat) {
    && |sts| == |es| + 1 && sts[0] == Fresh(threads)
    && forall i | 0 <= i < |es| :: Possible(sts[i], es[i]) && sts[i + 1] == Apply(sts[i], es[i])
  }

  /** Every node's lists are duplicate-free chains, wherever the arcs of an append under way stand. */
  ghost predicate ListsAreChains(st: State) {
    SideOk(st.ins, st.Arcs(), st.Nodes()) && SideOk(st.outs, st.Arcs(), st.Nodes())
  }

  /** In every interleaving of any number of threads, every state keeps all lists chained. */
  lemma EveryInterleavingIsSafe(sts: seq<State>, es: seq<Event>, threads: nat)
    requires Run(sts, es, threads)
    ensures forall i | 0 <= i < |sts| :: Inv(sts[i]) && ListsAreChains(sts[i])
  {
    hide Inv, Possible, Apply, Fresh, ListsAreChains;
    FreshInv(threads);
    var n := 0;
    while n < |es|
      invariant 0 <= n <= |es| && forall i | 0 <= i <= n :: Inv(sts[i])
    {
      ApplyKeeps(sts[n], es[n]);
      n := n + 1;
    }
    forall i | 0 <= i < |sts| ensures ListsAreChains(sts[i]) {
      InvMeansChains(sts[i]);
    }
  }

  lemma InvMeansChains(st: State)
    requires Inv(st)
    ensures ListsAreChains(st)
  {
  }

  // ----- No deadlock

  /** A thread that does not wait for a lock can go on. */
  predicate Free(c: Pc) {
    !c.Idle? && !c.WantNode? && !c.HasNode?
  }

  lemma FreeIsEnabled(st: State, th: int)
    requires Inv(st) && 0 <= th < |st.threads| && Free(st.threads[th])
    ensures Enabled(st, th)
  {
    hide SideOk, Locks, Ends;
    assert Fits(st, st.threads[th]) && Reliant(st, st.threads[th]);
  }

  /** Whoever holds an arc never waits, so a thread that waits for an arc is not the end of a chain
      of waiting threads. */
  lemma HolderOfArc(st: State, th: int)
    requires Inv(st) && 0 <= th < |st.threads| && st.threads[th].HasNode?
    ensures exists u | 0 <= u < |st.threads| :: Enabled(st, u)
  {
    hide SideOk;
    var c := st.threads[th];
    MyNode(st, th);
    EmptyByHead(st.Of(c.dir), st.Arcs(), st.Nodes(), c.n);
    if !Enabled(st, th) {
      var p := st.Of(c.dir).tail[c.n];
      var u := st.arcLock[p];
      assert ArcHeld(st.threads[u]) == p;
      FreeIsEnabled(st, u);
    }
  }

  /** As long as any call is under way, some thread can make a step. */
  lemma NoDeadlock(st: State, th: int)
    requires Inv(st) && 0 <= th < |st.threads| && !st.threads[th].Idle?
    ensures exists u | 0 <= u < |st.threads| :: Enabled(st, u)
  {
    hide SideOk, Duties, Ends;
    var c := st.threads[th];
    if Free(c) {
      FreeIsEnabled(st, th);
    } else if c.HasNode? {
      HolderOfArc(st, th);
    } else {
      assert Fits(st, c);
      if !Enabled(st, th) {
        var u := st.nodeLock[c.n];
        assert NodeHeld(st.threads[u]) == c.n;
        if st.threads[u].HasNode? { HolderOfArc(st, u); } else { FreeIsEnabled(st, u); }
      }
    }
  }

  // ----- Calls finish

  /** An upper bound on the steps a thread has left. */
  function StepsLeft(c: Pc): nat {
    match c
    case Idle => 0
    case Leaving(d, _, _, _, _) => if d == In then 8 else 1
    case Joined(d, _, _, _, _, _) => if d == In then 9 else 2
    case Halfway(_, _, _, _) => 2
    case Hung(d, _, _, _, _, _) => if d == In then 10 else 3
    case HasBoth(d, _, _, _, _, _) => if d == In then 11 else 4
    case HasNode(d, _, _, _, _) => if d == In then 12 else 5
    case WantNode(d, _, _, _, _) => if d == In then 13 else 6
    case NewArc(_, _) => 14
    case Release(_, _, _) => 7
    case SetEnds(_, _, _) => 8
    case MakeNode(_, _) => 9
    case MakeArc(_) => 10
  }

  function Work(cs: seq<Pc>): nat {
    if cs == [] then 0 else Work(cs[..|cs| - 1]) + StepsLeft(cs[|cs| - 1])
  }

  lemma {:induction false} WorkUpdate(cs: seq<Pc>, i: nat, c: Pc)
    requires i < |cs|
    ensures Work(cs[i := c]) == Work(cs) - StepsLeft(cs[i]) + StepsLeft(c)
  {
    hide StepsLeft;
    var n := |cs| - 1;
    if i == n {
      assert cs[i := c][..n] == cs[..n];
    } else {
      assert cs[i := c][..n] == cs[..n][i := c];
      WorkUpdate(cs[..n], i, c);
    }
  }

  /** Each step uses up work, so without new calls every schedule is finite; and since it can only
      stop when nobody can go on, it stops with all calls finished. */
  lemma StepsUseUpWork(st: State, th: int)
    requires Inv(st) && 0 <= th < |st.threads| && Enabled(st, th)
    ensures Work(Advance(st, th).threads) < Work(st.threads)
  {
    hide Inv, Work;
    WorkUpdate(st.threads, th, Advance(st, th).threads[th]);
  }

  lemma StuckMeansQuiet(st: State)
    requires Inv(st) && forall th | 0 <= th < |st.threads| :: !Enabled(st, th)
    ensures Quiet(st)
  {
    hide Inv, Enabled;
    forall th | 0 <= th < |st.threads| ensures st.threads[th] == Idle {
      if st.threads[th] != Idle { NoDeadlock(st, th); }
    }
  }

  /** `sts` is a stretch of a run in which no call is made. */
  ghost predicate Schedule(sts: seq<State>, ths: seq<int>) {
    && |sts| == |ths| + 1
    && forall i | 0 <= i < |ths| ::
         0 <= ths[i] < |sts[i].threads| && Enabled(sts[i], ths[i]) && sts[i + 1] == Advance(sts[i], ths[i])
  }

  /** Without new calls every schedule is finite, whoever goes next; and where nobody can go on, all
      calls have returned and the graph is complete. */
  lemma SchedulesEnd(sts: seq<State>, ths: seq<int>)
    requires Schedule(sts, ths) && Inv(sts[0])
    ensures |ths| <= Work(sts[0].threads) && Inv(sts[|ths|])
    ensures (forall th | 0 <= th < |sts[|ths|].threads| :: !Enabled(sts[|ths|], th)) ==>
              Quiet(sts[|ths|]) && Complete(sts[|ths|])
  {
    hide Inv, Work, Enabled, Advance, Quiet, Complete;
    var n := 0;
    while n < |ths|
      invariant 0 <= n <= |ths| && Inv(sts[n]) && Work(sts[n].threads) + n <= Work(sts[0].threads)
    {
      AdvanceKeeps(sts[n], ths[n]);
      StepsUseUpWork(sts[n], ths[n]);
      n := n + 1;
    }
    if forall th | 0 <= th < |sts[n].threads| :: !Enabled(sts[n], th) {
      StuckMeansQuiet(sts[n]);
      QuietIsComplete(sts[n]);
    }
  }

  lemma AdvanceKeeps(st: State, th: int)
    requires Inv(st) && 0 <= th < |st.threads| && Enabled(st, th)
    ensures Inv(Advance(st, th))
  {
    hide Inv, Enabled, Advance;
    ApplyKeeps(st, Go(th));
  }

  ghost predicate Quiet(st: State) {
    forall th | 0 <= th < |st.threads| :: st.threads[th] == Idle
  }

  // ----- At rest everything is in place

  /** `l` is chained up from head to tail by the `next` fields, and holds no arc twice. */
  ghost predicate Chain(head: int, tail: int, next: seq<int>, l: seq<int>) {
    && head == (if l == [] then NO_ARC else l[0]) && tail == (if l == [] then NO_ARC else l[|l| - 1])
    && (forall i | 0 <= i < |l| :: 0 <= l[i] < |next| && next[l[i]] == if i + 1 < |l| then l[i + 1] else NO_ARC)
    && NoRepeats(l)
  }

  /** The finished graph: every list is a chain, every arc is exactly once in the in-list of its
      target, and every arc but the root arc is exactly once in the out-list of its source. */
  ghost predicate Complete(st: State)
    requires Sizes(st.ins, st.Arcs(), st.Nodes()) && Sizes(st.outs, st.Arcs(), st.Nodes())
    requires |st.src| == |st.tgt| == st.Arcs()
  {
    && (forall n | 0 <= n < st.Nodes() ::
          Chain(st.ins.head[n], st.ins.tail[n], st.ins.next, st.ins.list[n])
          && Chain(st.outs.head[n], st.outs.tail[n], st.outs.next, st.outs.list[n]))
    && (forall a | 0 <= a < st.Arcs() ::
          0 <= st.tgt[a] < st.Nodes() && forall n | 0 <= n < st.Nodes() :: a in st.ins.list[n] <==> n == st.tgt[a])
    && (forall a | 0 < a < st.Arcs() ::
          0 <= st.src[a] < st.Nodes() && forall n | 0 <= n < st.Nodes() :: a in st.outs.list[n] <==> n == st.src[a])
  }

  lemma RestingChain(s: Side, arcs: nat, nodes: nat, n: int)
    requires SideOk(s, arcs, nodes) && 0 <= n < nodes && s.mid[n] == Rest
    ensures Chain(s.head[n], s.tail[n], s.next, s.list[n])
  {
    assert NodeOk(s, n);
    forall i, j | 0 <= i < j < |s.list[n]| ensures s.list[n][i] != s.list[n][j] {
      assert s.at[s.list[n][i]] == At(n, i) && s.at[s.list[n][j]] == At(n, j);
    }
  }

  lemma PlacedOnce(s: Side, arcs: nat, nodes: nat, a: int)
    requires SideOk(s, arcs, nodes) && 0 <= a < arcs && s.at[a].At?
    ensures 0 <= s.at[a].node < nodes && forall n | 0 <= n < nodes :: a in s.list[n] <==> n == s.at[a].node
  {
    assert s.list[s.at[a].node][s.at[a].pos] == a;
    forall n | 0 <= n < nodes && a in s.list[n] ensures n == s.at[a].node {
      var i :| 0 <= i < |s.list[n]| && s.list[n][i] == a;
      assert s.at[s.list[n][i]] == At(n, i);
    }
  }

  /** With no call under way no arc is waiting to be linked. */
  lemma QuietLinked(st: State, d: Dir, a: int)
    requires Shaped(st) && Duties(st, d) && Ends(st) && Quiet(st) && 0 <= a < st.Arcs() && (d == Out ==> a > 0)
    ensures st.Of(d).at[a].At?
  {
    hide SideOk;
  }

  /** When all calls have returned, whatever the interleaving was, the graph is complete. */
  lemma QuietIsComplete(st: State)
    requires Inv(st) && Quiet(st)
    ensures Complete(st)
  {
    hide SideOk, Chain;
    forall n | 0 <= n < st.Nodes()
      ensures Chain(st.ins.head[n], st.ins.tail[n], st.ins.next, st.ins.list[n])
      ensures Chain(st.outs.head[n], st.outs.tail[n], st.outs.next, st.outs.list[n])
    {
      assert st.nodeLock[n] == FREE;
      RestingChain(st.ins, st.Arcs(), st.Nodes(), n);
      RestingChain(st.outs, st.Arcs(), st.Nodes(), n);
    }
    forall a | 0 <= a < st.Arcs()
      ensures 0 <= st.tgt[a] < st.Nodes() && forall n | 0 <= n < st.Nodes() :: a in st.ins.list[n] <==> n == st.tgt[a]
      ensures a > 0 ==> 0 <= st.src[a] < st.Nodes() && forall n | 0 <= n < st.Nodes() ::
                a in st.outs.list[n] <==> n == st.src[a]
    {
      QuietLinked(st, In, a);
      PlacedOnce(st.ins, st.Arcs(), st.Nodes(), a);
      if a > 0 {
        QuietLinked(st, Out, a);
        PlacedOnce(st.outs, st.Arcs(), st.Nodes(), a);
      }
    }
  }

  /** Any run that ends with all calls returned has built a complete graph. */
  lemma QuietRunsAreComplete(sts: seq<State>, es: seq<Event>, threads: nat)
    requires Run(sts, es, threads) && Quiet(sts[|es|])
    ensures Inv(sts[|es|]) && Complete(sts[|es|])
  {
    hide Inv, Run, Complete, Quiet;
    RunLength(sts, es, threads);
    EveryInterleavingIsSafe(sts, es, threads);
    QuietIsComplete(sts[|es|]);
  }

  lemma RunLength(sts: seq<State>, es: seq<Event>, threads: nat)
    requires Run(sts, es, threads)
    ensures |sts| == |es| + 1
  {
  }
}
