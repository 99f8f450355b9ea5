/** What the calls that were made have to do with the arcs and nodes that are there in the end. */
module LockingCalls {
  import opened ChainedLists
  import opened LockingDigraph

  datatype Call = ArcCall(s: int, t: int) | NodeCall(s: int)

  /** For each arc the call that made it, and for each node the arc it was made with. */
  datatype Book = Book(labels: seq<Call>, makers: seq<int>)

  ghost function CallsOf(es: seq<Event>): multiset<Call> {
    if es == [] then multiset{}
    else CallsOf(es[..|es| - 1]) + Made(es[|es| - 1])
  }

  /** The call that an event is, if any. */
  function Made(e: Event): multiset<Call> {
    match e
    case CallAddArc(_, s, t) => multiset{ArcCall(s, t)}
    case CallAddNode(_, s) => multiset{NodeCall(s)}
    case Go(_) => multiset{}
  }

  /** The call that a thread has begun but not yet made an arc for. */
  function Waiting(c: Pc): multiset<Call> {
    match c
    case NewArc(s, t) => multiset{ArcCall(s, t)}
    case MakeArc(s) => multiset{NodeCall(s)}
    case _ => multiset{}
  }

  ghost function AllWaiting(cs: seq<Pc>): multiset<Call> {
    if cs == [] then multiset{} else AllWaiting(cs[..|cs| - 1]) + Waiting(cs[|cs| - 1])
  }

  lemma {:induction false} WaitingUpdate(cs: seq<Pc>, i: nat, c: Pc)
    requires i < |cs|
    ensures AllWaiting(cs[i := c]) + Waiting(cs[i]) == AllWaiting(cs) + Waiting(c)
  {
    hide Waiting;
    var n := |cs| - 1;
    if i == n {
      assert cs[i := c][..n] == cs[..n];
    } else {
      assert cs[i := c][..n] == cs[..n][i := c];
      WaitingUpdate(cs[..n], i, c);
      SwapSums(AllWaiting(cs[..n][i := c]), Waiting(cs[i]), AllWaiting(cs[..n]), Waiting(c), Waiting(cs[n]));
    }
  }

  lemma SwapSums<T>(a: multiset<T>, b: multiset<T>, c: multiset<T>, d: multiset<T>, x: multiset<T>)
    requires a + b == c + d
    ensures (a + x) + b == (c + x) + d
  {
    assert (a + x) + b == (a + b) + x;
    assert (c + x) + d == (c + d) + x;
  }

  lemma {:induction false} NoneWaiting(cs: seq<Pc>)
    requires forall i | 0 <= i < |cs| :: cs[i] == Idle
    ensures AllWaiting(cs) == multiset{}
  {
    if cs != [] { NoneWaiting(cs[..|cs| - 1]); }
  }

  // ----- The book agrees with the graph

  /** The thread has made arc `a` for a node call and is yet to write its ends. */
  predicate Making(c: Pc, a: int) {
    (c.MakeNode? || c.SetEnds?) && c.a == a
  }

  ghost predicate Busy(st: State, a: int) {
    exists th | 0 <= th < |st.threads| :: Making(st.threads[th], a)
  }

  /** What the book says about the arc that a thread is making. */
  ghost predicate ThreadOk(b: Book, c: Pc) {
    && (c.MakeNode? ==> 0 < c.a < |b.labels| && b.labels[c.a] == NodeCall(c.s) && c.a !in b.makers)
    && (c.SetEnds? ==>
          && 0 < c.a < |b.labels| && b.labels[c.a] == NodeCall(c.s)
          && 0 < c.t < |b.makers| && b.makers[c.t] == c.a)
  }

  /** An arc has the ends that its call asked for, unless the call is still at it. */
  ghost predicate ArcOk(st: State, b: Book, a: int)
    requires 0 <= a < |b.labels| == |st.src| == |st.tgt|
  {
    match b.labels[a]
    case ArcCall(s, t) => st.src[a] == s && st.tgt[a] == t
    case NodeCall(s) =>
      || Busy(st, a)
      || (st.src[a] == s && 0 < st.tgt[a] < |b.makers| && b.makers[st.tgt[a]] == a)
  }

  /** A node was made with an arc of its own, which leads to it unless the call is still at it. */
  ghost predicate NodeOk(st: State, b: Book, n: int)
    requires 0 <= n < |b.makers| && |b.labels| == |st.src| == |st.tgt|
  {
    && 0 < b.makers[n] < |b.labels| && b.labels[b.makers[n]].NodeCall?
    && (st.tgt[b.makers[n]] == n || Busy(st, b.makers[n]))
  }

  ghost predicate Agrees(st: State, b: Book) {
    && |b.labels| == |st.src| == |st.tgt| == st.Arcs() && |b.makers| == st.Nodes()
    && st.Arcs() > 0 && st.Nodes() > 0 && b.makers[0] == 0
    && (forall th | 0 <= th < |st.threads| :: ThreadOk(b, st.threads[th]))
    && (forall a | 0 < a < st.Arcs() :: ArcOk(st, b, a))
    && (forall n | 0 < n < st.Nodes() :: NodeOk(st, b, n))
    && (forall n, k | 0 <= n < k < st.Nodes() :: b.makers[n] != b.makers[k])
  }

  /** Every call that was made has an arc or a thread that is about to make one, and no arc has
      come without a call. */
  ghost predicate Books(st: State, b: Book, calls: multiset<Call>) {
    Agrees(st, b) && multiset(b.labels[1..]) + AllWaiting(st.threads) == calls
  }

  /** The book after an event. */
  function Entered(st: State, e: Event, b: Book): Book
    requires 0 <= e.th < |st.threads|
  {
    if !e.Go? then b
    else match st.threads[e.th]
      case NewArc(s, t) => b.(labels := b.labels + [ArcCall(s, t)])
      case MakeArc(s) => b.(labels := b.labels + [NodeCall(s)])
      case MakeNode(_, a) => b.(makers := b.makers + [a])
      case _ => b
  }

  // ----- Every event keeps the books

  /** Only one thread makes an arc. */
  lemma OneMaker(st: State, th: int, u: int)
    requires Inv(st) && 0 <= th < |st.threads| && 0 <= u < |st.threads| && th != u
    requires st.threads[th].MakeNode? || st.threads[th].SetEnds?
    ensures !Making(st.threads[u], st.threads[th].a)
  {
    hide Shaped, Duties, Ends, Reliant;
    var a := st.threads[th].a;
    assert ArcHeld(st.threads[th]) == a;
    MakesInRange(st, th);
    assert st.arcLock[a] == th;
  }

  lemma MakesInRange(st: State, th: int)
    requires Inv(st) && 0 <= th < |st.threads| && (st.threads[th].MakeNode? || st.threads[th].SetEnds?)
    ensures 0 <= st.threads[th].a < st.Arcs()
  {
    hide SideOk, Duties, Ends, Reliant, Locks;
  }

  /** An event that makes no arc and no node, writes no ends and begins or ends no making. */
  lemma AgreesSame(st: State, st': State, b: Book, th: int, c': Pc)
    requires Agrees(st, b) && 0 <= th < |st.threads| && st'.threads == st.threads[th := c']
    requires st'.src == st.src && st'.tgt == st.tgt && st'.Arcs() == st.Arcs() && st'.Nodes() == st.Nodes()
    requires !st.threads[th].MakeNode? && !st.threads[th].SetEnds? && !c'.MakeNode? && !c'.SetEnds?
    ensures Agrees(st', b)
  {
    hide Busy;
    forall a | 0 < a < st.Arcs() ensures ArcOk(st', b, a) {
      assert ArcOk(st, b, a);
      BusyStays(st, st', th, c', a);
    }
    forall n | 0 < n < st.Nodes() ensures NodeOk(st', b, n) {
      assert NodeOk(st, b, n);
      BusyStays(st, st', th, c', b.makers[n]);
    }
  }

  /** Whoever was at an arc still is, except for the thread that moved. */
  lemma BusyStays(st: State, st': State, th: int, c': Pc, a: int)
    requires 0 <= th < |st.threads| && st'.threads == st.threads[th := c']
    ensures Busy(st, a) && !Making(st.threads[th], a) ==> Busy(st', a)
    ensures Making(c', a) ==> Busy(st', a)
  {
    if Busy(st, a) && !Making(st.threads[th], a) {
      var u :| 0 <= u < |st.threads| && Making(st.threads[u], a);
      assert Making(st'.threads[u], a);
    }
    assert st'.threads[th] == c';
  }

  /** `addArc` emplaces its arc with both ends. */
  lemma AgreesNewArc(st: State, st': State, b: Book, th: int, c': Pc)
    requires Agrees(st, b) && 0 <= th < |st.threads| && st'.threads == st.threads[th := c'] && st.threads[th].NewArc?
    requires var c := st.threads[th]; st'.src == st.src + [c.s] && st'.tgt == st.tgt + [c.t]
    requires st'.Arcs() == st.Arcs() + 1 && st'.Nodes() == st.Nodes() && !c'.MakeNode? && !c'.SetEnds?
    ensures Agrees(st', b.(labels := b.labels + [ArcCall(st.threads[th].s, st.threads[th].t)]))
  {
    hide Busy;
    var b' := b.(labels := b.labels + [ArcCall(st.threads[th].s, st.threads[th].t)]);
    forall a | 0 < a < st'.Arcs() ensures ArcOk(st', b', a) {
      if a < st.Arcs() { assert ArcOk(st, b, a); }
      BusyStays(st, st', th, c', a);
    }
    forall n | 0 < n < st.Nodes() ensures NodeOk(st', b', n) {
      assert NodeOk(st, b, n);
      BusyStays(st, st', th, c', b.makers[n]);
    }
    forall u | 0 <= u < |st'.threads| ensures ThreadOk(b', st'.threads[u]) {
      assert ThreadOk(b, st.threads[u]);
    }
  }

  /** `addNode` emplaces its arc without ends. */
  lemma AgreesMakeArc(st: State, st': State, b: Book, th: int)
    requires Agrees(st, b) && 0 <= th < |st.threads| && st.threads[th].MakeArc?
    requires st'.threads == st.threads[th := MakeNode(st.threads[th].s, st.Arcs())]
    requires |st'.src| == |st'.tgt| == st'.Arcs() == st.Arcs() + 1 && st'.Nodes() == st.Nodes()
    requires st'.src[..st.Arcs()] == st.src && st'.tgt[..st.Arcs()] == st.tgt
    ensures Agrees(st', b.(labels := b.labels + [NodeCall(st.threads[th].s)]))
  {
    hide Busy;
    var b', c' := b.(labels := b.labels + [NodeCall(st.threads[th].s)]), MakeNode(st.threads[th].s, st.Arcs());
    MakersInRange(st, b);
    forall a | 0 < a < st'.Arcs() ensures ArcOk(st', b', a) {
      if a < st.Arcs() {
        assert ArcOk(st, b, a);
        assert st'.src[..st.Arcs()][a] == st'.src[a] && st'.tgt[..st.Arcs()][a] == st'.tgt[a];
      }
      BusyStays(st, st', th, c', a);
    }
    forall n | 0 < n < st.Nodes() ensures NodeOk(st', b', n) {
      assert NodeOk(st, b, n);
      assert st'.tgt[..st.Arcs()][b.makers[n]] == st'.tgt[b.makers[n]];
      BusyStays(st, st', th, c', b.makers[n]);
    }
    forall u | 0 <= u < |st'.threads| ensures ThreadOk(b', st'.threads[u]) {
      assert ThreadOk(b, st.threads[u]);
    }
  }

  lemma MakersInRange(st: State, b: Book)
    requires Agrees(st, b)
    ensures forall a | a in b.makers :: 0 <= a < st.Arcs()
  {
    hide Busy;
    forall n | 0 <= n < |b.makers| ensures 0 <= b.makers[n] < st.Arcs() {
      if n > 0 { assert NodeOk(st, b, n); }
    }
  }

  /** `addNode` emplaces its node. */
  lemma AgreesMakeNode(st: State, st': State, b: Book, th: int)
    requires Inv(st) && Agrees(st, b) && 0 <= th < |st.threads| && st.threads[th].MakeNode?
    requires st'.threads == st.threads[th := SetEnds(st.threads[th].s, st.threads[th].a, st.Nodes())]
    requires st'.src == st.src && st'.tgt == st.tgt && st'.Arcs() == st.Arcs() && st'.Nodes() == st.Nodes() + 1
    ensures Agrees(st', b.(makers := b.makers + [st.threads[th].a]))
  {
    hide Busy, Inv;
    var c := st.threads[th];
    var b', c' := b.(makers := b.makers + [c.a]), SetEnds(c.s, c.a, st.Nodes());
    assert ThreadOk(b, c);
    forall a | 0 < a < st'.Arcs() ensures ArcOk(st', b', a) {
      assert ArcOk(st, b, a);
      BusyStays(st, st', th, c', a);
    }
    forall n | 0 < n < st'.Nodes() ensures NodeOk(st', b', n) {
      if n < st.Nodes() { assert NodeOk(st, b, n); }
      BusyStays(st, st', th, c', b'.makers[n]);
    }
    forall u | 0 <= u < |st'.threads| ensures ThreadOk(b', st'.threads[u]) {
      assert ThreadOk(b, st.threads[u]);
      if u != th { OneMaker(st, th, u); }
    }
  }

  /** `addNode` writes the ends of its arc. */
  lemma AgreesSetEnds(st: State, st': State, b: Book, th: int, c': Pc)
    requires Inv(st) && Agrees(st, b) && 0 <= th < |st.threads| && st.threads[th].SetEnds?
    requires st'.threads == st.threads[th := c'] && !c'.MakeNode? && !c'.SetEnds? && 0 <= st.threads[th].a < st.Arcs()
    requires var c := st.threads[th]; st'.src == st.src[c.a := c.s] && st'.tgt == st.tgt[c.a := c.t]
    requires st'.Arcs() == st.Arcs() && st'.Nodes() == st.Nodes()
    ensures Agrees(st', b)
  {
    hide Busy, Inv;
    var c := st.threads[th];
    assert ThreadOk(b, c);
    forall a | 0 < a < st'.Arcs() ensures ArcOk(st', b, a) {
      assert ArcOk(st, b, a);
      BusyStays(st, st', th, c', a);
    }
    forall n | 0 < n < st'.Nodes() ensures NodeOk(st', b, n) {
      assert NodeOk(st, b, n);
      BusyStays(st, st', th, c', b.makers[n]);
      assert n != c.t ==> b.makers[n] != c.a;
    }
    forall u | 0 <= u < |st'.threads| ensures ThreadOk(b, st'.threads[u]) {
      assert ThreadOk(b, st.threads[u]);
    }
  }

  lemma Cancel<T>(a: multiset<T>, b: multiset<T>, w: multiset<T>)
    requires a + w == b + w
    ensures a == b
  {
    assert forall k :: (a + w)[k] == a[k] + w[k] && (b + w)[k] == b[k] + w[k];
  }

  /** The sum of entered and waiting calls grows by the calls just made. */
  lemma SumsStep<T>(l: multiset<T>, x: multiset<T>, a: multiset<T>, a': multiset<T>, w: multiset<T>, w': multiset<T>,
                    made: multiset<T>)
    requires a' + w == a + w' && x + w' == w + made
    ensures (l + x) + a' == (l + a) + made
  {
    assert ((l + x) + a') + w == (l + x) + (a' + w);
    assert (l + x) + (a + w') == (l + a) + (x + w');
    assert ((l + a) + made) + w == (l + a) + (w + made);
    Cancel((l + x) + a', (l + a) + made, w);
  }

  /** What an event adds to the labels. */
  function Label(st: State, e: Event): seq<Call>
    requires 0 <= e.th < |st.threads|
  {
    if !e.Go? then []
    else match st.threads[e.th]
      case NewArc(s, t) => [ArcCall(s, t)]
      case MakeArc(s) => [NodeCall(s)]
      case _ => []
  }

  lemma EventAgrees(st: State, e: Event, b: Book)
    requires Inv(st) && Possible(st, e) && Agrees(st, b)
    ensures Agrees(Apply(st, e), Entered(st, e, b))
  {
    hide Inv, Agrees;
    var st', c := Apply(st, e), st.threads[e.th];
    var c' := st'.threads[e.th];
    if e.Go? && c.NewArc? {
      AgreesNewArc(st, st', b, e.th, c');
    } else if e.Go? && c.MakeArc? {
      AgreesMakeArc(st, st', b, e.th);
    } else if e.Go? && c.MakeNode? {
      AgreesMakeNode(st, st', b, e.th);
    } else if e.Go? && c.SetEnds? {
      AgreesSetEnds(st, st', b, e.th, c');
    } else {
      AgreesSame(st, st', b, e.th, c');
    }
  }

  lemma ThreadsAfter(st: State, e: Event)
    requires Possible(st, e)
    ensures var st' := Apply(st, e);
            && |st'.threads| == |st.threads| && st'.threads == st.threads[e.th := st'.threads[e.th]]
            && Waiting(st'.threads[e.th]) == Made(e) && (!e.Go? ==> st.threads[e.th] == Idle)
  {
    hide InRange, GrowArc, Half, Hang, Join, Whole, GrowWith, GrowEmpty;
    if e.Go? { GoThreads(st, e.th); }
  }

  lemma GoThreads(st: State, th: int)
    requires 0 <= th < |st.threads| && Enabled(st, th)
    ensures var st' := Advance(st, th);
            && |st'.threads| == |st.threads| && st'.threads == st.threads[th := st'.threads[th]]
            && Waiting(st'.threads[th]) == multiset{}
  {
    hide GrowArc, Half, Hang, Join, Whole, GrowWith, GrowEmpty;
  }

  lemma EventCounts(st: State, e: Event, b: Book)
    requires 0 <= e.th < |st.threads| && (!e.Go? ==> st.threads[e.th] == Idle)
    ensures Entered(st, e, b).labels == b.labels + Label(st, e)
    ensures multiset(Label(st, e)) + Made(e) == Waiting(st.threads[e.th]) + Made(e)
  {
  }

  /** Every event keeps the books. */
  lemma BooksStep(st: State, e: Event, b: Book, calls: multiset<Call>)
    requires Inv(st) && Possible(st, e) && Books(st, b, calls)
    ensures Books(Apply(st, e), Entered(st, e, b), calls + Made(e))
  {
    hide Inv, Agrees, Possible, Apply, Entered, Label, Made, Waiting;
    AgreesSizes(st, b);
    EventRange(st, e);
    EventAgrees(st, e, b);
    ThreadsAfter(st, e);
    EventCounts(st, e, b);
    var st', x := Apply(st, e), Label(st, e);
    var c' := st'.threads[e.th];
    WaitingUpdate(st.threads, e.th, c');
    assert (b.labels + x)[1..] == b.labels[1..] + x;
    SumsStep(multiset(b.labels[1..]), multiset(x), AllWaiting(st.threads), AllWaiting(st'.threads),
             Waiting(st.threads[e.th]), Waiting(c'), Made(e));
  }

  lemma AgreesSizes(st: State, b: Book)
    requires Agrees(st, b)
    ensures |b.labels| > 0
  {
  }

  lemma EventRange(st: State, e: Event)
    requires Possible(st, e)
    ensures 0 <= e.th < |st.threads|
  {
  }

  /** The finished graph and the calls: every arc but the root arc was asked for by a call of its own,
      with just these ends, and every call has its arc; every node but the root was made for a
      `NodeCall` of its own, whose arc leads to it. */
  ghost predicate Answers(st: State, b: Book, calls: multiset<Call>)
    requires |st.src| == |st.tgt| == st.Arcs()
  {
    && |b.labels| == st.Arcs() && |b.makers| == st.Nodes() && st.Arcs() > 0
    && multiset(b.labels[1..]) == calls
    && (forall a | 0 < a < st.Arcs() ::
          match b.labels[a]
          case ArcCall(s, t) => st.src[a] == s && st.tgt[a] == t
          case NodeCall(s) => st.src[a] == s && 0 < st.tgt[a] < st.Nodes() && b.makers[st.tgt[a]] == a)
    && (forall n | 0 < n < st.Nodes() ::
          0 < b.makers[n] < st.Arcs() && b.labels[b.makers[n]].NodeCall? && st.tgt[b.makers[n]] == n)
  }

  lemma QuietAnswers(st: State, b: Book, calls: multiset<Call>)
    requires Quiet(st) && Books(st, b, calls)
    ensures |st.src| == |st.tgt| == st.Arcs() && Answers(st, b, calls)
  {
    NoneWaiting(st.threads);
    assert forall a :: !Busy(st, a);
    forall a | 0 < a < st.Arcs()
      ensures match b.labels[a]
              case ArcCall(s, t) => st.src[a] == s && st.tgt[a] == t
              case NodeCall(s) => st.src[a] == s && 0 < st.tgt[a] < st.Nodes() && b.makers[st.tgt[a]] == a
    {
      assert ArcOk(st, b, a);
    }
    forall n | 0 < n < st.Nodes()
      ensures 0 < b.makers[n] < st.Arcs() && b.labels[b.makers[n]].NodeCall? && st.tgt[b.makers[n]] == n
    {
      assert NodeOk(st, b, n);
    }
  }

  /** A fresh tree with an empty book. */
  lemma FreshBooks(threads: nat)
    ensures Books(Fresh(threads), Book([NodeCall(0)], [0]), multiset{})
  {
    NoneWaiting(seq(threads, i => Idle));
  }

  /** In every interleaving the books can be kept. */
  lemma {:induction false} RunBooks(sts: seq<State>, es: seq<Event>, threads: nat) returns (b: Book)
    requires Run(sts, es, threads)
    ensures Books(sts[|es|], b, CallsOf(es))
  {
    hide Inv, Possible, Apply, Fresh, Books, Entered, ListsAreChains, Made;
    EveryInterleavingIsSafe(sts, es, threads);
    FreshBooks(threads);
    b := Book([NodeCall(0)], [0]);
    var n := 0;
    assert es[..0] == [];
    while n < |es|
      invariant 0 <= n <= |es| && Books(sts[n], b, CallsOf(es[..n]))
    {
      EventRange(sts[n], es[n]);
      BooksStep(sts[n], es[n], b, CallsOf(es[..n]));
      assert es[..n + 1][..n] == es[..n];
      b := Entered(sts[n], es[n], b);
      n := n + 1;
    }
    assert es[..|es|] == es;
  }

  /** When all calls have returned, whatever the interleaving was, the graph is complete, and its arcs
      and nodes are exactly those that the calls asked for. */
  lemma QuietRunsAnswerTheCalls(sts: seq<State>, es: seq<Event>, threads: nat)
    requires Run(sts, es, threads) && Quiet(sts[|es|])
    ensures var st := sts[|es|];
            Inv(st) && Complete(st) && exists b :: Answers(st, b, CallsOf(es))
  {
    hide Inv, Run, Complete, Quiet, Books, Answers;
    RunLength(sts, es, threads);
    QuietRunsAreComplete(sts, es, threads);
    var b := RunBooks(sts, es, threads);
    QuietAnswers(sts[|es|], b, CallsOf(es));
  }
}
