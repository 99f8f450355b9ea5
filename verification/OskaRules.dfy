/** Oska as its rules state it: a position is the two sets of stones, each seen by its own player. */
module OskaRules {
  import Bits
  import opened Players
  import opened Words
  import opened Folds
  import opened OskaBoard

  datatype Move = Move(from: Loc, to: Loc)

  /** Both players see their stones start in row 1 and walk to row `HomeRow`. */
  datatype Position = Position(agent: set<Loc>, human: set<Loc>, toMove: Player, winner: Player)

  function Own(p: Position, q: Player): set<Loc> {
    if q == Agent then p.agent else p.human
  }

  function Foe(p: Position, q: Player): set<Loc> {
    if q == Agent then p.human else p.agent
  }

  /** What player `q` sees at place `l`. */
  function See(S: int, p: Position, q: Player, l: Loc): Player
    requires q.Occupied()
  {
    if !Hex(S, l) then Invalid
    else if l in Own(p, q) then q
    else if Mirror(S, l) in Foe(p, q) then q.Opponent()
    else Vacant
  }

  // ----- Moves

  function Middle(m: Move): Loc {
    Loc((m.from.c + m.to.c) / 2, (m.from.r + m.to.r) / 2)
  }

  predicate IsStep(m: Move) {
    m.to.r - m.from.r == 1 && (m.to.c - m.from.c == 1 || m.to.c - m.from.c == -1)
  }

  predicate IsCapture(m: Move) {
    m.to.r - m.from.r == 2 && (m.to.c - m.from.c == 2 || m.to.c - m.from.c == -2)
  }

  /** A stone steps diagonally forward onto a free cell, or jumps over an enemy stone onto one. */
  predicate Legal(S: int, p: Position, q: Player, m: Move)
    requires q.Occupied()
  {
    && m.from in Own(p, q)
    && See(S, p, q, m.to) == Vacant
    && (IsStep(m) || (IsCapture(m) && See(S, p, q, Middle(m)) == q.Opponent()))
  }

  ghost predicate HasMove(S: int, p: Position, q: Player)
    requires q.Occupied()
  {
    exists m :: Legal(S, p, q, m)
  }

  // ----- Results

  predicate AllHome(S: int, s: set<Loc>) {
    s != {} && forall l | l in s :: l.r == HomeRow(S)
  }

  function Home(S: int, s: set<Loc>): set<Loc> {
    set l | l in s && l.r == HomeRow(S)
  }

  function MostHome(S: int, p: Position): Player {
    if |Home(S, p.agent)| > |Home(S, p.human)| then Agent
    else if |Home(S, p.agent)| < |Home(S, p.human)| then Human
    else Vacant
  }

  /** The result after `q` moved its stone in `p`: a player all of whose stones are home wins, unless
      the other is home too and the number of stones decides; so does a player who took the last
      enemy stone; and a player who cannot answer wins. */
  ghost function Verdict(S: int, p: Position, q: Player): Player
    requires q.Occupied()
  {
    if AllHome(S, Own(p, q)) then (if AllHome(S, Foe(p, q)) then MostHome(S, p) else q)
    else if Foe(p, q) == {} then q
    else if !HasMove(S, p, q.Opponent()) then q.Opponent()
    else p.winner
  }

  /** Who has won in an open game once `q` has moved its stone, outcome by outcome: the mover, if all
      its stones are home and the others are not all home or fewer, or if it is not home but has taken
      the last stone; the other side, if all stones are home and it has more of them, or if it still
      has stones but none can move; nobody, if all stones are home and equal in number; and the game
      is open exactly if the mover is not home and the other side can move. */
  ghost predicate RightResult(S: int, p: Position, q: Player, w: Player)
    requires q.Occupied()
  {
    var own, foe := if q == Agent then p.agent else p.human, if q == Agent then p.human else p.agent;
    var ownHome := own != {} && forall l | l in own :: l.r == HomeRow(S);
    var foeHome := foe != {} && forall l | l in foe :: l.r == HomeRow(S);
    var blocked := foe != {} && forall m :: !Legal(S, p, q.Opponent(), m);
    && (w == q <==> (ownHome && (!foeHome || |own| > |foe|)) || (!ownHome && foe == {}))
    && (w == q.Opponent() <==> (ownHome && foeHome && |foe| > |own|) || (!ownHome && blocked))
    && (w == Vacant <==> ownHome && foeHome && |own| == |foe|)
    && (w == Invalid <==> !ownHome && foe != {} && !blocked)
  }

  lemma VerdictIsRight(S: int, p: Position, q: Player)
    requires q.Occupied() && p.winner == Invalid
    ensures RightResult(S, p, q, Verdict(S, p, q))
  {
    hide Legal, HomeRow;
    AllAreHome(S, p.agent);
    AllAreHome(S, p.human);
  }

  lemma AllAreHome(S: int, s: set<Loc>)
    ensures (forall l | l in s :: l.r == HomeRow(S)) ==> Home(S, s) == s
  {
  }

  // ----- Play

  /** Player `q` moves one stone. */
  function MoveOwn(p: Position, q: Player, m: Move): Position {
    var own := Own(p, q) - {m.from} + {m.to};
    if q == Agent then p.(agent := own) else p.(human := own)
  }

  /** Player `q` loses the stone at `l`, a place in the owner's view. */
  function TakeOwn(p: Position, q: Player, l: Loc): Position {
    if q == Agent then p.(agent := p.agent - {l}) else p.(human := p.human - {l})
  }

  /** The stones after a move, with the turn and the result as they were. */
  function Shift(S: int, p: Position, m: Move): Position
    requires p.toMove.Occupied()
  {
    var s := MoveOwn(p, p.toMove, m);
    if IsCapture(m) then TakeOwn(s, p.toMove.Opponent(), Mirror(S, Middle(m))) else s
  }

  ghost function Play(S: int, p: Position, m: Move): Position
    requires p.toMove.Occupied()
  {
    var s := Shift(S, p, m);
    s.(winner := Verdict(S, s, p.toMove), toMove := p.toMove.Opponent())
  }

  ghost function StartRow(S: int): set<Loc> {
    set i | 0 <= i < S :: Loc(1 + 2 * i, 1)
  }

  ghost predicate Start(S: int, p: Position) {
    p.agent == StartRow(S) && p.human == StartRow(S) && p.toMove.Occupied() && p.winner == Invalid
  }

  /** Stones stand on cells, never two on one, and nobody has gained any. */
  ghost predicate Stones(S: int, p: Position) {
    && S >= 4
    && (forall l | l in p.agent :: Hex(S, l) && Mirror(S, l) !in p.human)
    && (forall l | l in p.human :: Hex(S, l) && Mirror(S, l) !in p.agent)
    && |p.agent| <= S && |p.human| <= S
  }

  /** A running game offers the next player a move; a drawn one offers none. */
  ghost predicate Good(S: int, p: Position) {
    && Stones(S, p) && p.toMove.Occupied()
    && (p.winner == Invalid ==> HasMove(S, p, p.toMove))
    && (p.winner == Vacant ==> !HasMove(S, p, p.toMove))
  }

  /** `ps` is the record of a game in which the moves `ms` were played. */
  ghost predicate Game(S: int, ps: seq<Position>, ms: seq<Move>) {
    && |ps| == |ms| + 1
    && (forall i | 0 <= i < |ps| :: ps[i].toMove.Occupied())
    && forall i | 0 <= i < |ms| ::
         !ps[i].winner.Occupied() && Legal(S, ps[i], ps[i].toMove, ms[i]) && ps[i + 1] == Play(S, ps[i], ms[i])
  }

  // ----- Every position of every game is good

  lemma MirrorTwice(S: int, l: Loc)
    ensures Mirror(S, Mirror(S, l)) == l
  {
  }

  /** Two sets of stones, each in its owner's view, never two stones on one cell. */
  ghost predicate Apart(S: int, own: set<Loc>, foe: set<Loc>) {
    && (forall l | l in own :: Hex(S, l) && Mirror(S, l) !in foe)
    && (forall l | l in foe :: Hex(S, l) && Mirror(S, l) !in own)
  }

  lemma StepApart(S: int, own: set<Loc>, foe: set<Loc>, m: Move)
    requires Apart(S, own, foe) && Hex(S, m.to) && Mirror(S, m.to) !in foe
    ensures Apart(S, own - {m.from} + {m.to}, foe)
  {
    hide Hex;
    MirrorTwice(S, m.to);
  }

  lemma StepHome(S: int, own: set<Loc>, m: Move)
    requires m.from in own && m.to !in own && m.from.r != HomeRow(S)
    ensures var own' := own - {m.from} + {m.to};
            |own'| == |own| && Home(S, own') == Home(S, own) + (if m.to.r == HomeRow(S) then {m.to} else {})
  {
    assert |own - {m.from} + {m.to}| == |own|;
  }

  lemma StepKeepsApart(S: int, own: set<Loc>, foe: set<Loc>, m: Move)
    requires Apart(S, own, foe) && m.from in own
    requires Hex(S, m.to) && m.to !in own && Mirror(S, m.to) !in foe && m.to.r > m.from.r
    ensures var own' := own - {m.from} + {m.to};
            && Apart(S, own', foe) && |own'| == |own| && m.from.r != HomeRow(S)
            && Home(S, own') == Home(S, own) + (if m.to.r == HomeRow(S) then {m.to} else {})
  {
    StepApart(S, own, foe, m);
    StepHome(S, own, m);
  }

  lemma CaptureKeepsApart(S: int, own: set<Loc>, foe: set<Loc>, l: Loc)
    requires Apart(S, own, foe) && l in foe && l.r != HomeRow(S)
    ensures Apart(S, own, foe - {l}) && |foe - {l}| == |foe| - 1 && Home(S, foe - {l}) == Home(S, foe)
  {
  }

  /** A move keeps the stones in order; stones at home neither move nor are captured. */
  lemma ShiftKeepsStones(S: int, p: Position, m: Move)
    requires Stones(S, p) && p.toMove.Occupied() && Legal(S, p, p.toMove, m)
    ensures Stones(S, Shift(S, p, m))
    ensures var q, s := p.toMove, Shift(S, p, m);
            && Home(S, Foe(s, q)) == Home(S, Foe(p, q))
            && Home(S, Own(s, q)) == Home(S, Own(p, q)) + (if m.to.r == HomeRow(S) then {m.to} else {})
            && m.to !in Own(p, q) && m.from.r != HomeRow(S)
            && |Own(s, q)| == |Own(p, q)|
            && |Foe(s, q)| == |Foe(p, q)| - (if IsCapture(m) then 1 else 0)
  {
    var q, own, foe := p.toMove, Own(p, p.toMove), Foe(p, p.toMove);
    assert Apart(S, own, foe);
    StepKeepsApart(S, own, foe, m);
    var own', s := own - {m.from} + {m.to}, Shift(S, p, m);
    if IsCapture(m) {
      CaptureKeepsApart(S, own', foe, Mirror(S, Middle(m)));
    }
    assert Apart(S, Own(s, q), Foe(s, q));
  }

  /** All stones home: nothing can move any more. */
  lemma HomeMeansNoMove(S: int, p: Position, q: Player)
    requires q.Occupied() && AllHome(S, Own(p, q))
    ensures !HasMove(S, p, q)
  {
  }

  /** What can be played does not depend on the turn or the recorded result. */
  lemma MovesDependOnStones(S: int, p: Position, n: Position, q: Player)
    requires q.Occupied() && p.agent == n.agent && p.human == n.human
    ensures HasMove(S, p, q) <==> HasMove(S, n, q)
  {
    assert forall k :: Legal(S, p, q, k) <==> Legal(S, n, q, k);
  }

  lemma PlayKeepsGood(S: int, p: Position, m: Move)
    requires Good(S, p) && !p.winner.Occupied() && Legal(S, p, p.toMove, m)
    ensures Good(S, Play(S, p, m))
  {
    ShiftKeepsStones(S, p, m);
    var q, s, n := p.toMove, Shift(S, p, m), Play(S, p, m);
    assert p.winner == Invalid;
    MovesDependOnStones(S, s, n, q.Opponent());
    if n.winner == Vacant {
      assert Foe(s, q) == Own(s, q.Opponent());
      HomeMeansNoMove(S, s, q.Opponent());
    }
  }

  lemma StartIsGood(S: int, p: Position)
    requires S >= 4 && Start(S, p)
    ensures Good(S, p) && |p.agent| == S && |p.human| == S
  {
    RowSize(S, S);
    assert Loc(1 + 2 * 0, 1) in StartRow(S);
    assert Legal(S, p, p.toMove, Move(Loc(1, 1), Loc(2, 2)));
  }

  lemma {:induction false} RowSize(S: int, n: nat)
    ensures |set i | 0 <= i < n :: Loc(1 + 2 * i, 1)| == n
  {
    if n > 0 {
      RowSize(S, n - 1);
      var s := set i | 0 <= i < n :: Loc(1 + 2 * i, 1);
      var t := set i | 0 <= i < n - 1 :: Loc(1 + 2 * i, 1);
      assert s == t + {Loc(1 + 2 * (n - 1), 1)};
    }
  }

  // ----- Every game ends

  /** Folds in the steps a stone still needs to its home row. */
  ghost function AddSteps(S: int): (int, Loc) -> int {
    (w: int, l: Loc) => w + HomeRow(S) - l.r
  }

  /** The summed distance of all stones to their home rows. */
  ghost function Distance(S: int, p: Position): int {
    Fold(AddSteps(S), p.human, Fold(AddSteps(S), p.agent, 0))
  }

  lemma {:induction false} FoldSteps(S: int, s: set<Loc>, w: int)
    ensures Fold(AddSteps(S), s, w) == w + Fold(AddSteps(S), s, 0)
    decreases s
  {
    if s != {} {
      var x :| x in s;
      FoldLast(AddSteps(S), s, w, x);
      FoldLast(AddSteps(S), s, 0, x);
      FoldSteps(S, s - {x}, w);
    }
  }

  ghost function Steps(S: int, s: set<Loc>): int {
    Fold(AddSteps(S), s, 0)
  }

  lemma StepsOf(S: int, s: set<Loc>, l: Loc)
    requires l in s
    ensures Steps(S, s) == Steps(S, s - {l}) + HomeRow(S) - l.r
  {
    FoldLast(AddSteps(S), s, 0, l);
  }

  lemma {:induction false} StepsNonNegative(S: int, s: set<Loc>)
    requires forall l | l in s :: l.r <= HomeRow(S)
    ensures Steps(S, s) >= 0
    decreases s
  {
    if s != {} {
      var x :| x in s;
      StepsOf(S, s, x);
      StepsNonNegative(S, s - {x});
    }
  }

  lemma DistanceSum(S: int, p: Position)
    ensures Distance(S, p) == Steps(S, p.agent) + Steps(S, p.human)
  {
    FoldSteps(S, p.human, Fold(AddSteps(S), p.agent, 0));
  }

  lemma StepsMove(S: int, own: set<Loc>, m: Move)
    requires m.from in own && m.to !in own
    ensures Steps(S, own - {m.from} + {m.to}) == Steps(S, own) + m.from.r - m.to.r
  {
    var own' := own - {m.from} + {m.to};
    StepsOf(S, own, m.from);
    StepsOf(S, own', m.to);
    assert own' - {m.to} == own - {m.from};
  }

  /** What a legal move does to the two sets of stones. */
  lemma ShiftParts(S: int, p: Position, m: Move)
    requires Stones(S, p) && p.toMove.Occupied() && Legal(S, p, p.toMove, m)
    ensures var q, s, taken := p.toMove, Shift(S, p, m), Mirror(S, Middle(m));
            && m.from in Own(p, q) && m.to !in Own(p, q) && m.from.r < m.to.r
            && Own(s, q) == Own(p, q) - {m.from} + {m.to}
            && (if IsCapture(m) then taken in Foe(p, q) && Foe(s, q) == Foe(p, q) - {taken} else Foe(s, q) == Foe(p, q))
  {
  }

  lemma StonesInRange(S: int, p: Position)
    requires Stones(S, p)
    ensures forall l | l in p.agent || l in p.human :: l.r <= HomeRow(S)
  {
  }

  /** Each ply brings the stones of both sides strictly closer to home, taken together. */
  lemma PlyApproaches(S: int, p: Position, m: Move)
    requires Stones(S, p) && p.toMove.Occupied() && Legal(S, p, p.toMove, m)
    ensures 0 <= Distance(S, Shift(S, p, m)) < Distance(S, p)
  {
    hide Stones, Legal, Shift, Distance, Steps, IsCapture, Mirror, Middle, HomeRow;
    var q, s, taken := p.toMove, Shift(S, p, m), Mirror(S, Middle(m));
    ShiftKeepsStones(S, p, m);
    ShiftParts(S, p, m);
    StonesInRange(S, p);
    StonesInRange(S, s);
    DistanceSum(S, p);
    DistanceSum(S, s);
    StepsMove(S, Own(p, q), m);
    if IsCapture(m) { StepsOf(S, Foe(p, q), taken); }
    StepsNonNegative(S, s.agent);
    StepsNonNegative(S, s.human);
  }

  lemma {:induction false} StartSteps(S: int, s: set<Loc>)
    requires forall l | l in s :: l.r == 1
    ensures Steps(S, s) == |s| * (HomeRow(S) - 1)
    decreases s
  {
    if s != {} {
      var x :| x in s;
      StepsOf(S, s, x);
      StartSteps(S, s - {x});
      var n, k := |s|, HomeRow(S) - 1;
      assert n * k == (n - 1) * k + k;
    }
  }

  lemma Twice(x: int, y: int)
    ensures 2 * x * y == x * y + x * y
  {
  }

  lemma StartDistance(S: int, p: Position)
    requires S >= 4 && Start(S, p)
    ensures Distance(S, p) == 2 * S * (2 * S - 4)
  {
    StartIsGood(S, p);
    StartSteps(S, p.agent);
    FoldSteps(S, p.human, Fold(AddSteps(S), p.agent, 0));
    var k := HomeRow(S) - 1;
    assert Steps(S, p.agent) == S * k;
    assert k == 2 * S - 4;
    Twice(S, k);
  }

  /** Over every game: all positions are good, and the plies played and the distance left never
      exceed `2S(2S - 4)` together, so no game is longer than that. */
  lemma GamesAreGoodAndShort(S: int, ps: seq<Position>, ms: seq<Move>)
    requires S >= 4 && Game(S, ps, ms) && Start(S, ps[0])
    ensures forall i | 0 <= i < |ps| :: Good(S, ps[i]) && 0 <= Distance(S, ps[i]) <= 2 * S * (2 * S - 4) - i
    ensures |ms| <= 2 * S * (2 * S - 4)
  {
    hide Good, Distance, Start, Legal, Play;
    StartIsGood(S, ps[0]);
    StartDistance(S, ps[0]);
    var n, bound := 0, 2 * S * (2 * S - 4);
    StartInRange(S, ps[0]);
    while n < |ms|
      invariant 0 <= n <= |ms|
      invariant forall i | 0 <= i <= n :: Good(S, ps[i]) && 0 <= Distance(S, ps[i]) <= bound - i
    {
      PlayKeepsGood(S, ps[n], ms[n]);
      PlayApproaches(S, ps[n], ms[n]);
      n := n + 1;
    }
    assert 0 <= Distance(S, ps[n]) <= bound - n;
  }

  lemma StartInRange(S: int, p: Position)
    requires S >= 4 && Start(S, p)
    ensures Distance(S, p) >= 0
  {
    hide Distance;
    StartDistance(S, p);
    Bits.Positive(2 * S, 2 * S - 4);
  }

  lemma PlayApproaches(S: int, p: Position, m: Move)
    requires Good(S, p) && p.toMove.Occupied() && Legal(S, p, p.toMove, m)
    ensures 0 <= Distance(S, Play(S, p, m)) < Distance(S, p)
  {
    hide Legal, Shift, Verdict;
    PlyApproaches(S, p, m);
    assert Distance(S, Play(S, p, m)) == Distance(S, Shift(S, p, m));
  }

  /** After every move of every game, the right side has won. */
  lemma ResultsAreRight(S: int, ps: seq<Position>, ms: seq<Move>, i: nat)
    requires S >= 4 && Game(S, ps, ms) && Start(S, ps[0]) && i < |ms|
    ensures RightResult(S, ps[i + 1], ps[i].toMove, ps[i + 1].winner)
    ensures ps[i + 1].toMove == ps[i].toMove.Opponent()
  {
    hide Start, Distance, RightResult, Verdict;
    GamesAreGoodAndShort(S, ps, ms);
    var p, s := ps[i], Shift(S, ps[i], ms[i]);
    VerdictIsRight(S, s, p.toMove);
    StonesDecide(S, s, ps[i + 1], p.toMove, ps[i + 1].winner);
  }

  lemma StonesDecide(S: int, p: Position, n: Position, q: Player, w: Player)
    requires q.Occupied() && p.agent == n.agent && p.human == n.human && RightResult(S, p, q, w)
    ensures RightResult(S, n, q, w)
  {
    assert forall k :: Legal(S, p, q.Opponent(), k) <==> Legal(S, n, q.Opponent(), k);
  }

  /** A game that cannot go on has a result, and one without a result can go on. */
  lemma GamesEndWithResult(S: int, ps: seq<Position>, ms: seq<Move>)
    requires S >= 4 && Game(S, ps, ms) && Start(S, ps[0])
    ensures var p := ps[|ms|];
            p.winner == Invalid <==> !p.winner.Occupied() && HasMove(S, p, p.toMove)
  {
    GamesAreGoodAndShort(S, ps, ms);
  }

  // ----- Hashing

  /** Mixes in the key of a stone of `q`, taken at the stone's place in its owner's view. */
  ghost function AddKey<W>(mix: Mixer<W>, key: (Player, Loc) -> W, q: Player): (W, Loc) -> W {
    (w: W, l: Loc) => mix(w, key(q, l))
  }

  ghost function StoneHash<W>(mix: Mixer<W>, key: (Player, Loc) -> W, p: Position, h: W): W {
    Fold(AddKey(mix, key, Human), p.human, Fold(AddKey(mix, key, Agent), p.agent, h))
  }

  lemma KeysCommute<W(!new)>(mix: Mixer<W>, key: (Player, Loc) -> W, q: Player)
    requires IsXor(mix)
    ensures Commuting(AddKey(mix, key, q))
  {
    var f := AddKey(mix, key, q);
    forall w, x, y ensures f(f(w, x), y) == f(f(w, y), x) {
      assert mix(mix(w, key(q, x)), key(q, y)) == mix(mix(w, key(q, y)), key(q, x));
    }
  }

  /** Any word can be mixed in before or after the stones. */
  lemma {:induction false} FoldKeyMix<W(!new)>(mix: Mixer<W>, key: (Player, Loc) -> W, q: Player, s: set<Loc>, h: W,
                                               k: W)
    requires IsXor(mix)
    ensures Fold(AddKey(mix, key, q), s, mix(h, k)) == mix(Fold(AddKey(mix, key, q), s, h), k)
    decreases s
  {
    if s != {} {
      var x :| x in s;
      KeysCommute(mix, key, q);
      FoldLast(AddKey(mix, key, q), s, h, x);
      FoldLast(AddKey(mix, key, q), s, mix(h, k), x);
      FoldKeyMix(mix, key, q, s - {x}, h, k);
      var w := Fold(AddKey(mix, key, q), s - {x}, h);
      assert mix(mix(w, k), key(q, x)) == mix(mix(w, key(q, x)), k);
    }
  }

  /** A stone that appears or disappears changes the hash by its key. */
  lemma HashToggle<W(!new)>(mix: Mixer<W>, key: (Player, Loc) -> W, p: Position, n: Position, q: Player, l: Loc, h: W)
    requires IsXor(mix) && q.Occupied() && l !in Own(p, q)
    requires Own(n, q) == Own(p, q) + {l} && Foe(n, q) == Foe(p, q)
    ensures StoneHash(mix, key, n, h) == mix(StoneHash(mix, key, p, h), key(q, l))
    ensures StoneHash(mix, key, p, h) == mix(StoneHash(mix, key, n, h), key(q, l))
  {
    KeysCommute(mix, key, q);
    if q == Agent {
      FoldAdd(AddKey(mix, key, Agent), p.agent, h, l);
      FoldKeyMix(mix, key, Human, p.human, Fold(AddKey(mix, key, Agent), p.agent, h), key(q, l));
    } else {
      FoldAdd(AddKey(mix, key, Human), p.human, Fold(AddKey(mix, key, Agent), p.agent, h), l);
    }
    var w, k := StoneHash(mix, key, p, h), key(q, l);
    assert mix(mix(w, k), k) == w;
  }

  /** The hash updates of a move account for all its changes to the stones. */
  lemma HashMoveOwn<W(!new)>(mix: Mixer<W>, key: (Player, Loc) -> W, p: Position, q: Player, m: Move, h: W)
    requires IsXor(mix) && q.Occupied() && m.from in Own(p, q) && m.to !in Own(p, q)
    ensures StoneHash(mix, key, MoveOwn(p, q, m), h)
         == mix(mix(StoneHash(mix, key, p, h), key(q, m.from)), key(q, m.to))
  {
    var t := TakeOwn(p, q, m.from);
    assert Own(t, q) + {m.from} == Own(p, q);
    HashToggle(mix, key, t, p, q, m.from, h);
    HashToggle(mix, key, t, MoveOwn(p, q, m), q, m.to, h);
  }

  lemma HashTakeOwn<W(!new)>(mix: Mixer<W>, key: (Player, Loc) -> W, p: Position, q: Player, l: Loc, h: W)
    requires IsXor(mix) && q.Occupied() && l in Own(p, q)
    ensures StoneHash(mix, key, TakeOwn(p, q, l), h) == mix(StoneHash(mix, key, p, h), key(q, l))
  {
    assert Own(TakeOwn(p, q, l), q) + {l} == Own(p, q);
    HashToggle(mix, key, TakeOwn(p, q, l), p, q, l, h);
  }

  /** Mixing all stones in twice leaves the word as it was. */
  lemma {:induction false} FoldKeysTwice<W(!new)>(mix: Mixer<W>, key: (Player, Loc) -> W, q: Player, s: set<Loc>, h: W)
    requires IsXor(mix)
    ensures Fold(AddKey(mix, key, q), s, Fold(AddKey(mix, key, q), s, h)) == h
    decreases s
  {
    if s != {} {
      var x :| x in s;
      var f := AddKey(mix, key, q);
      KeysCommute(mix, key, q);
      var w := Fold(f, s - {x}, h);
      FoldLast(f, s, h, x);
      FoldLast(f, s, f(w, x), x);
      FoldFirst(f, s - {x}, w, x);
      FoldKeysTwice(mix, key, q, s - {x}, h);
      assert mix(mix(h, key(q, x)), key(q, x)) == h;
    }
  }

  lemma {:induction false} FoldsSwap<W(!new)>(mix: Mixer<W>, key: (Player, Loc) -> W, s: set<Loc>, t: set<Loc>, h: W)
    requires IsXor(mix)
    ensures var f, g := AddKey(mix, key, Agent), AddKey(mix, key, Human);
            Fold(f, s, Fold(g, t, h)) == Fold(g, t, Fold(f, s, h))
    decreases s
  {
    if s != {} {
      var x :| x in s;
      var f, g := AddKey(mix, key, Agent), AddKey(mix, key, Human);
      KeysCommute(mix, key, Agent);
      FoldLast(f, s, Fold(g, t, h), x);
      FoldLast(f, s, h, x);
      FoldsSwap(mix, key, s - {x}, t, h);
      FoldKeyMix(mix, key, Human, t, Fold(f, s - {x}, h), key(Agent, x));
    }
  }

  /** Hence any start word has the form `StoneHash` of some constant. */
  lemma StoneHashTwice<W(!new)>(mix: Mixer<W>, key: (Player, Loc) -> W, p: Position, h: W)
    requires IsXor(mix)
    ensures StoneHash(mix, key, p, StoneHash(mix, key, p, h)) == h
  {
    var f, g := AddKey(mix, key, Agent), AddKey(mix, key, Human);
    FoldsSwap(mix, key, p.agent, p.human, Fold(f, p.agent, h));
    FoldKeysTwice(mix, key, Agent, p.agent, h);
    FoldKeysTwice(mix, key, Human, p.human, h);
  }

  /** The words a move mixes into the running hash. */
  function HashStep<W>(mix: Mixer<W>, key: (Player, Loc) -> W, S: int, p: Position, m: Move, h: W): W
    requires p.toMove.Occupied()
  {
    var h' := mix(mix(h, key(p.toMove, m.from)), key(p.toMove, m.to));
    if IsCapture(m) then mix(h', key(p.toMove.Opponent(), Mirror(S, Middle(m)))) else h'
  }

  ghost function GameHash<W>(mix: Mixer<W>, key: (Player, Loc) -> W, S: int, ps: seq<Position>, ms: seq<Move>, h: W): W
    requires |ps| == |ms| + 1 && forall i | 0 <= i < |ps| :: ps[i].toMove.Occupied()
  {
    if ms == [] then h
    else
      var n := |ms| - 1;
      HashStep(mix, key, S, ps[n], ms[n], GameHash(mix, key, S, ps[..n + 1], ms[..n], h))
  }

  lemma HashStepExact<W(!new)>(mix: Mixer<W>, key: (Player, Loc) -> W, S: int, p: Position, m: Move, h: W)
    requires IsXor(mix) && Stones(S, p) && p.toMove.Occupied() && Legal(S, p, p.toMove, m)
    ensures HashStep(mix, key, S, p, m, StoneHash(mix, key, p, h)) == StoneHash(mix, key, Shift(S, p, m), h)
  {
    var q, s := p.toMove, MoveOwn(p, p.toMove, m);
    HashMoveOwn(mix, key, p, q, m, h);
    if IsCapture(m) {
      HashTakeOwn(mix, key, s, q.Opponent(), Mirror(S, Middle(m)), h);
    }
  }

  /** Along every game the running hash is the hash of the stones, each taken at its place in its
      owner's view, mixed into a constant that the start fixes once and for all. */
  lemma {:induction false} GameHashExact<W(!new)>(mix: Mixer<W>, key: (Player, Loc) -> W, S: int, ps: seq<Position>,
                                                  ms: seq<Move>, h: W)
    requires IsXor(mix) && S >= 4 && Game(S, ps, ms) && Start(S, ps[0])
    ensures GameHash(mix, key, S, ps, ms, h) == StoneHash(mix, key, ps[|ms|], StoneHash(mix, key, ps[0], h))
  {
    var seed := StoneHash(mix, key, ps[0], h);
    if ms == [] {
      StoneHashTwice(mix, key, ps[0], h);
    } else {
      var n := |ms| - 1;
      GameHashExact(mix, key, S, ps[..n + 1], ms[..n], h);
      GamesAreGoodAndShort(S, ps[..n + 1], ms[..n]);
      HashStepExact(mix, key, S, ps[n], ms[n], seed);
      var s := Shift(S, ps[n], ms[n]);
      assert ps[n + 1].agent == s.agent && ps[n + 1].human == s.human;
    }
  }

  /** Two games from one start that reach the same stones have the same hash, whatever happened. */
  lemma HashForgetsHistory<W(!new)>(mix: Mixer<W>, key: (Player, Loc) -> W, S: int, h: W,
                                    ps: seq<Position>, ms: seq<Move>, qs: seq<Position>, ns: seq<Move>)
    requires IsXor(mix) && S >= 4 && Game(S, ps, ms) && Game(S, qs, ns) && Start(S, ps[0]) && Start(S, qs[0])
    requires ps[|ms|].agent == qs[|ns|].agent && ps[|ms|].human == qs[|ns|].human
    ensures GameHash(mix, key, S, ps, ms, h) == GameHash(mix, key, S, qs, ns, h)
  {
    GameHashExact(mix, key, S, ps, ms, h);
    GameHashExact(mix, key, S, qs, ns, h);
  }
}
