/** Arithmetic modulo 2^64 and the SplitMix generator built on it. */
module SplitMix {
  import opened Bits

  // ----- Congruence

  ghost predicate Cong(x: int, y: int) {
    (x - y) % M == 0
  }

  lemma CongMod(x: int)
    ensures Cong(x % M, x)
  {
  }

  lemma CongWords(x: U64, y: U64)
    requires Cong(x, y)
    ensures x == y
  {
  }

  lemma CongTrans(x: int, y: int, z: int)
    requires Cong(x, y) && Cong(y, z)
    ensures Cong(x, z) && Cong(z, x)
  {
  }

  lemma CongMeet(p: int, x: int, y: int)
    requires Cong(p, x) && Cong(p, y)
    ensures Cong(y, x)
  {
  }

  lemma CongMul(x: int, y: int, z: int)
    requires Cong(x, y)
    ensures Cong(x * z, y * z) && Cong(z * x, z * y)
  {
    var k := (x - y) / M;
    assert x - y == k * M;
    Factor(x, y, k, z);
    Multiple(k * z);
  }

  lemma Factor(x: int, y: int, k: int, z: int)
    requires x - y == k * M
    ensures x * z - y * z == (k * z) * M && z * x - z * y == (k * z) * M
  {
    assert (x - y) * z == x * z - y * z;
    assert (k * M) * z == (k * z) * M;
  }

  lemma Multiple(t: int)
    ensures (t * M) % M == 0
  {
  }

  lemma CongMul2(x: int, y: int, v: int, w: int)
    requires Cong(x, y) && Cong(v, w)
    ensures Cong(x * v, y * w)
  {
    CongMul(x, y, v);
    CongMul(v, w, y);
    CongTrans(x * v, y * v, y * w);
  }

  // ----- Powers

  function Pow(x: int, n: nat): int {
    if n == 0 then 1 else x * Pow(x, n - 1)
  }

  lemma {:induction false} PowAdd(x: int, a: nat, b: nat)
    ensures Pow(x, a + b) == Pow(x, a) * Pow(x, b)
    decreases a
  {
    if a > 0 {
      PowAdd(x, a - 1, b);
      var p, q := Pow(x, a - 1), Pow(x, b);
      assert x * (p * q) == (x * p) * q;
    }
  }

  lemma {:induction false} PowCong(x: int, y: int, n: nat)
    requires Cong(x, y)
    ensures Cong(Pow(x, n), Pow(y, n))
    decreases n
  {
    if n > 0 {
      PowCong(x, y, n - 1);
      CongMul2(x, y, Pow(x, n - 1), Pow(y, n - 1));
    }
  }

  lemma {:induction false} PowSquare(x: int, n: nat)
    ensures Pow(x * x, n) == Pow(x, 2 * n)
    decreases n
  {
    if n > 0 {
      PowSquare(x, n - 1);
      var p := Pow(x, 2 * n - 2);
      assert Pow(x, 2 * n) == x * (x * p);
      assert (x * x) * p == x * (x * p);
    }
  }

  /** Exponentiation by repeated squaring computes the power modulo 2^64. */
  method FastExp(x: U64, power: U64) returns (result: U64)
    ensures result == Pow(x, power) % M
  {
    hide Cong, Pow;
    result := 1;
    var multiplier, n := x, power;
    PowBase(x, power);
    while n != 0
      invariant 0 <= n
      invariant Cong(result * Pow(multiplier, n), Pow(x, power))
      decreases n
    {
      SquareStep(result, multiplier, n);
      ghost var kept := result * Pow(multiplier, n);
      var factor := if n % 2 == 1 then multiplier else 1;
      result := result * factor % M;
      n := n / 2;
      multiplier := multiplier * multiplier % M;
      CongTrans(result * Pow(multiplier, n), kept, Pow(x, power));
    }
    PowDone(result, multiplier, Pow(x, power));
  }

  lemma PowBase(x: int, n: nat)
    ensures Cong(1 * Pow(x, n), Pow(x, n))
  {
  }

  lemma PowDone(result: U64, multiplier: int, p: int)
    requires Cong(result * Pow(multiplier, 0), p)
    ensures result == p % M
  {
    CongMod(p);
    CongTrans(p % M, p, result);
    CongWords(p % M, result);
  }

  /** One round of the loop keeps `result * multiplier ^ n`. */
  lemma SquareStep(result: int, multiplier: int, n: nat)
    requires n > 0
    ensures Cong((result * (if n % 2 == 1 then multiplier else 1)) % M * Pow(multiplier * multiplier % M, n / 2),
                 result * Pow(multiplier, n))
  {
    var f, h := if n % 2 == 1 then multiplier else 1, n / 2;
    var sq := multiplier * multiplier;
    CongMod(result * f);
    CongMod(sq);
    PowCong(sq % M, sq, h);
    CongMul2((result * f) % M, result * f, Pow(sq % M, h), Pow(sq, h));
    PowSquare(multiplier, h);
    var p := Pow(multiplier, 2 * h);
    assert Pow(multiplier, n) == f * p by {
      if n % 2 == 1 { assert n == 2 * h + 1; } else { assert n == 2 * h; }
    }
    assert (result * f) * p == result * (f * p);
  }

  // ----- Odd numbers are invertible

  /** Squaring gains a bit: `y = 1 (mod 2^j)` gives `y^2 = 1 (mod 2^(j+1))`. */
  lemma SquareGains(y: int, p: int)
    requires p > 0 && p % 2 == 0 && y % p == 1
    ensures (y * y) % (2 * p) == 1
  {
    var t, h := y / p, p / 2;
    assert y == t * p + 1 && p == 2 * h;
    var q := t + t * t * h;
    SquareExpand(t, p, h);
    ModOne(q, 2 * p);
  }

  lemma SquareExpand(t: int, p: int, h: int)
    requires p == 2 * h
    ensures (t * p + 1) * (t * p + 1) == (t + t * t * h) * (2 * p) + 1
  {
    var u := t * p;
    assert (u + 1) * (u + 1) == u * u + 2 * u + 1;
    assert u * u == (t * t) * (p * p) by { Regroup(t, p); }
    assert (t + t * t * h) * (2 * p) == t * (2 * p) + (t * t * h) * (2 * p);
    assert t * (2 * p) == 2 * u;
    var v := t * t;
    assert (v * h) * (2 * p) == v * (p * p) by {
      assert (v * h) * (2 * p) == v * (h * (2 * p));
      assert h * (2 * p) == p * p;
    }
  }

  lemma Regroup(t: int, p: int)
    ensures (t * p) * (t * p) == (t * t) * (p * p)
  {
    assert (t * p) * (t * p) == t * (p * (t * p));
    assert p * (t * p) == t * (p * p);
    assert t * (t * (p * p)) == (t * t) * (p * p);
  }

  lemma ModOne(q: int, m: int)
    requires m > 1
    ensures (q * m + 1) % m == 1
  {
    Unique(q * m + 1, q, 1, m);
  }

  lemma {:induction false} OddPower(x: int, k: nat)
    requires x % 2 == 1
    ensures Pow(x, Pow2(k)) % (2 * Pow2(k)) == 1
    decreases k
  {
    hide Pow, Pow2;
    if k == 0 {
      FirstPower(x);
    } else {
      var h := Pow2(k - 1);
      OddPower(x, k - 1);
      PowerDoubles(k);
      PowAdd(x, h, h);
      SquareGains(Pow(x, h), 2 * h);
    }
  }

  lemma FirstPower(x: int)
    ensures Pow2(0) == 1 && Pow(x, 1) == x
  {
    assert Pow(x, 0) == 1;
  }

  lemma PowerDoubles(k: nat)
    requires k > 0
    ensures Pow2(k) == Pow2(k - 1) + Pow2(k - 1)
  {
  }

  /** `modular_inverse`: the power 2^64 - 1 of an odd word is its inverse. */
  method ModularInverse(x: U64) returns (inv: U64)
    ensures inv == Pow(x, M - 1) % M
    ensures x % 2 == 1 ==> Cong(x * inv, 1) && inv % 2 == 1
  {
    inv := FastExp(x, M - 1);
    if x % 2 == 1 { InverseWorks(x); }
  }

  lemma InverseWorks(x: U64)
    requires x % 2 == 1
    ensures Cong(x * (Pow(x, M - 1) % M), 1)
    ensures (Pow(x, M - 1) % M) % 2 == 1
  {
    WordSize();
    OddPower(x, 64);
    var p := Pow(x, M - 1);
    assert Pow(x, M) == x * p;
    HalfModulus(Pow(x, M));
    CongMod(p);
    CongMul(p % M, p, x);
    CongTrans(x * (p % M), x * p, 1);
    OddFactor(x, p % M);
  }

  lemma HalfModulus(a: int)
    requires a % (2 * M) == 1
    ensures Cong(a, 1)
  {
  }

  lemma OddFactor(x: int, y: int)
    requires Cong(x * y, 1)
    ensures y % 2 == 1
  {
    var h := y / 2;
    assert y == 2 * h || y == 2 * h + 1;
    assert y == 2 * h ==> x * y == 2 * (x * h);
  }

  /** The inverse is unique, whatever computes it. */
  lemma InverseUnique(x: int, a: U64, b: U64)
    requires Cong(x * a, 1) && Cong(x * b, 1)
    ensures a == b
  {
    hide Cong;
    CongMul(x * a, 1, b);
    CongMul(x * b, 1, a);
    SwapFactors(x, a, b);
    CongMeet((x * a) * b, b, a);
    CongWords(a, b);
  }

  lemma SwapFactors(x: int, a: int, b: int)
    ensures (x * a) * b == (x * b) * a
  {
  }

  /** Multiplying by an odd number and by its inverse undo each other. */
  lemma UnMul(y: U64, x: int, inv: int)
    requires Cong(x * inv, 1)
    ensures y * x % M * inv % M == y
  {
    CongMod(y * x);
    CongMul(y * x % M, y * x, inv);
    assert (y * x) * inv == y * (x * inv);
    CongMul(x * inv, 1, y);
    CongTrans(y * x % M * inv, (y * x) * inv, y * 1);
    CongMod(y * x % M * inv);
    CongTrans(y * x % M * inv % M, y * x % M * inv, y);
    CongWords(y * x % M * inv % M, y);
  }

  // ----- Mixing

  /** The constants of one instantiation of the generator template. */
  datatype Params = Params(m1: U64, m2: U64, p: nat, q: nat, r: nat, m3: U64, m4: U64, s: nat, t: nat, u: nat) {
    /** Odd multipliers and real shifts. */
    predicate Bijective() {
      m3 % 2 == 1 && m4 % 2 == 1 && s > 0 && t > 0 && u > 0
    }
  }

  /** `splitmix64`. */
  const SPLITMIX64 := Params(0xff51afd7ed558ccd, 0xc4ceb9fe1a85ec53, 33, 33, 33,
                             0xbf58476d1ce4e5b9, 0x94d049bb133111eb, 30, 27, 31)

  function Shifted(x: U64, s: nat): (y: U64)
  {
    WordSize();
    XorFits(x, Shr(x, s), 64);
    XorShift(x, s)
  }

  function Mix64(g: Params, x: U64): U64 {
    var a := Shifted(x, g.s) * g.m3 % M;
    var b := Shifted(a, g.t) * g.m4 % M;
    Shifted(b, g.u)
  }

  /** Word `y` is `x` with every bit mixed with the one `s` places further up. */
  ghost predicate ShiftMixed(x: U64, s: nat, y: U64) {
    forall i: nat :: Bit(y, i) == (Bit(x, i) + Bit(x, i + s)) % 2
  }

  lemma ShiftedBits(x: U64, s: nat)
    ensures ShiftMixed(x, s, Shifted(x, s))
  {
    hide Bit, Xor, Shr;
    forall i: nat ensures Bit(Shifted(x, s), i) == (Bit(x, i) + Bit(x, i + s)) % 2 {
      XorBit(x, Shr(x, s), i);
      ShrBit(x, s, i);
    }
  }

  /** `mix64` bit by bit: three times every bit is mixed with one further up, with a multiplication
      modulo 2^64 after the first and the second time. */
  lemma Mix64Stages(g: Params, x: U64) returns (a: U64, b: U64)
    ensures ShiftMixed(x, g.s, a) && ShiftMixed(a * g.m3 % M, g.t, b) && ShiftMixed(b * g.m4 % M, g.u, Mix64(g, x))
  {
    hide Shifted, ShiftMixed;
    a := Shifted(x, g.s);
    b := Shifted(a * g.m3 % M, g.t);
    ShiftedBits(x, g.s);
    ShiftedBits(a * g.m3 % M, g.t);
    ShiftedBits(b * g.m4 % M, g.u);
  }

  function Unshifted(z: U64, s: nat): (y: U64)
    requires s > 0
  {
    WordSize();
    UnshiftFits(z, s, 64);
    Unshift(z, s)
  }

  function Inverse(x: U64): U64 {
    Pow(x, M - 1) % M
  }

  /** The way back through the mixer, last step first. */
  function Unmix64(g: Params, z: U64): U64
    requires g.Bijective()
  {
    var b := Unshifted(z, g.u);
    var a := Unshifted(b * Inverse(g.m4) % M, g.t);
    Unshifted(a * Inverse(g.m3) % M, g.s)
  }

  lemma OddMulBijective(y: U64, m: U64)
    requires m % 2 == 1
    ensures y * m % M * Inverse(m) % M == y && y * Inverse(m) % M * m % M == y
  {
    InverseWorks(m);
    UnMul(y, m, Inverse(m));
    assert Inverse(m) * m == m * Inverse(m);
    UnMul(y, Inverse(m), m);
  }

  /** `mix64` is a bijection on 64-bit words: `Unmix64` undoes it on both sides. */
  lemma MixBijective(g: Params, x: U64)
    requires g.Bijective()
    ensures Unmix64(g, Mix64(g, x)) == x && Mix64(g, Unmix64(g, x)) == x
  {
    hide Inverse, XorShift, Unshift, Pow;
    UnmixMix(g, x);
    MixUnmix(g, x);
  }

  lemma UnmixMix(g: Params, x: U64)
    requires g.Bijective()
    ensures Unmix64(g, Mix64(g, x)) == x
  {
    hide Inverse, XorShift, Unshift, Pow;
    var a := Shifted(x, g.s) * g.m3 % M;
    var b := Shifted(a, g.t) * g.m4 % M;
    UnshiftShift(b, g.u);
    OddMulBijective(Shifted(a, g.t), g.m4);
    UnshiftShift(a, g.t);
    OddMulBijective(Shifted(x, g.s), g.m3);
    UnshiftShift(x, g.s);
  }

  lemma MixUnmix(g: Params, z: U64)
    requires g.Bijective()
    ensures Mix64(g, Unmix64(g, z)) == z
  {
    hide Inverse, XorShift, Unshift, Pow;
    var b := Unshifted(z, g.u);
    var b' := b * Inverse(g.m4) % M;
    var a := Unshifted(b', g.t);
    var a' := a * Inverse(g.m3) % M;
    ShiftUnshift(a', g.s);
    OddMulBijective(a, g.m3);
    ShiftUnshift(b', g.t);
    OddMulBijective(b, g.m4);
    ShiftUnshift(z, g.u);
  }

  // ----- The stream of outputs

  /** The seed after `n` single steps. */
  function SeedAt(seed: U64, gamma: U64, n: nat): U64 {
    if n == 0 then seed else (SeedAt(seed, gamma, n - 1) + gamma) % M
  }

  function Output(g: Params, seed: U64, gamma: U64, n: nat): U64 {
    Mix64(g, SeedAt(seed, gamma, n))
  }

  /** `n` single steps are one jump by `n`. */
  lemma {:induction false} SeedAtJumps(seed: U64, gamma: U64, n: nat)
    ensures SeedAt(seed, gamma, n) == (seed + n * gamma) % M
    decreases n
  {
    if n > 0 {
      SeedAtJumps(seed, gamma, n - 1);
      OneMore(n, gamma);
      AddReduced2(seed + (n - 1) * gamma, gamma);
    }
  }

  lemma OneMore(n: int, gamma: int)
    ensures n * gamma == (n - 1) * gamma + gamma
  {
  }

  lemma AddReduced2(a: int, b: int)
    ensures (a % M + b) % M == (a + b) % M
  {
  }

  /** The number of steps from one seed to another, modulo 2^64. */
  function StepsBetween(from: U64, to: U64, gamma: U64): U64 {
    (to - from) % M * Inverse(gamma) % M
  }

  /** `operator-` undoes any number of steps, modulo 2^64. */
  lemma DistanceRecovers(seed: U64, gamma: U64, n: nat)
    requires gamma % 2 == 1
    ensures StepsBetween(seed, SeedAt(seed, gamma, n), gamma) == n % M
  {
    SeedAtJumps(seed, gamma, n);
    InverseWorks(gamma);
    var to, inv := (seed + n * gamma) % M, Inverse(gamma);
    assert (to - seed) % M == n * gamma % M by { Difference(seed, n * gamma); }
    ReduceFactor(n, gamma);
    UnMul(n % M, gamma, inv);
  }

  lemma Difference(seed: U64, d: int)
    ensures ((seed + d) % M - seed) % M == d % M
  {
  }

  lemma SameWord(x: int, y: int)
    requires Cong(x, y)
    ensures x % M == y % M
  {
  }

  lemma ReduceFactor(n: int, gamma: int)
    ensures n * gamma % M == (n % M) * gamma % M
  {
    hide Cong;
    CongMod(n);
    CongMul(n % M, n, gamma);
    SameWord((n % M) * gamma, n * gamma);
  }

  /** Walking the distance leads from one seed to the other. */
  lemma DistanceLeads(from: U64, to: U64, gamma: U64)
    requires gamma % 2 == 1
    ensures SeedAt(from, gamma, StepsBetween(from, to, gamma)) == to
  {
    hide Pow, Cong, SeedAt;
    var d, inv := (to - from) % M, Inverse(gamma);
    var n := d * inv % M;
    SeedAtJumps(from, gamma, n);
    OddMulBijective(d, gamma);
    AddReduced(from, n * gamma);
    Reached(from, to);
  }

  lemma Reached(from: U64, to: U64)
    ensures (from + (to - from) % M) % M == to
  {
  }

  lemma AddReduced(from: U64, x: int)
    ensures (from + x) % M == (from + x % M) % M
  {
  }

  /** Full period: among any 2^64 consecutive outputs every 64-bit value occurs exactly once. */
  lemma FullPeriod(g: Params, seed: U64, gamma: U64, v: U64)
    requires g.Bijective() && gamma % 2 == 1
    ensures exists n: nat :: n < M && Output(g, seed, gamma, n) == v
    ensures forall i: nat, j: nat | i < M && j < M && Output(g, seed, gamma, i) == Output(g, seed, gamma, j) :: i == j
  {
    hide Mix64, Unmix64, SeedAt, StepsBetween;
    var target := Unmix64(g, v);
    var n := StepsBetween(seed, target, gamma);
    DistanceLeads(seed, target, gamma);
    MixBijective(g, v);
    assert Output(g, seed, gamma, n) == v;
    forall i: nat, j: nat | i < M && j < M && Output(g, seed, gamma, i) == Output(g, seed, gamma, j) ensures i == j {
      MixBijective(g, SeedAt(seed, gamma, i));
      MixBijective(g, SeedAt(seed, gamma, j));
      DistanceRecovers(seed, gamma, i);
      DistanceRecovers(seed, gamma, j);
    }
  }

  /** The constants of `splitmix64` have what it takes. */
  lemma SplitMix64Period(seed: U64, gamma: U64, v: U64)
    requires gamma % 2 == 1
    ensures exists n: nat :: n < M && Output(SPLITMIX64, seed, gamma, n) == v
    ensures forall i: nat, j: nat
              | i < M && j < M && Output(SPLITMIX64, seed, gamma, i) == Output(SPLITMIX64, seed, gamma, j) :: i == j
  {
    hide Output;
    FullPeriod(SPLITMIX64, seed, gamma, v);
  }

  // ----- Gamma

  /** The number of places where neighbouring bits differ. */
  function Transitions(x: nat): nat {
    Ones(Xor(x, x / 2))
  }

  /** The bit-clearing loop counts the one-bits. */
  method PopCount(x0: U64) returns (count: nat)
    ensures count == Ones(x0)
  {
    count := 0;
    var x := x0;
    while x != 0
      invariant 0 <= x < M && count + Ones(x) == Ones(x0)
      decreases x
    {
      DropBit(x);
      count := count + 1;
      x := And(x, x - 1);
    }
  }

  /** Flipping every second bit turns `n` transitions into `64 - n`. */
  lemma FlipTransitions(x: U64)
    ensures Alternating(32) == 0xaaaa_aaaa_aaaa_aaaa
    ensures Transitions(Xor(x, 0xaaaa_aaaa_aaaa_aaaa)) == 64 - Transitions(x)
    ensures Xor(x, 0xaaaa_aaaa_aaaa_aaaa) % 2 == x % 2 && Xor(x, 0xaaaa_aaaa_aaaa_aaaa) < M
  {
    hide Xor, Ones, Alternating, Pow2;
    WordSize();
    AlternatingValue(32);
    AlternatingEdges(32);
    var a := 0xaaaa_aaaa_aaaa_aaaa;
    XorBits(x, a);
    XorSwap(x, a, x / 2, a / 2);
    XorFits(x, x / 2, 64);
    XorFits(x, a, 64);
    OnesComplement(Xor(x, x / 2), 64);
  }

  /** `x | 1` and the word that marks its transitions. */
  lemma SetLowBit(x: U64)
    ensures var y := x + 1 - x % 2; y < M && y % 2 == 1 && Xor(y, y / 2) < M
  {
    hide Xor;
    WordSize();
    XorFits(x + 1 - x % 2, (x + 1 - x % 2) / 2, 64);
  }

  /** A seed mixed for use as a gamma, made odd. */
  function OddMix(g: Params, x: U64): (y: U64)
    ensures y % 2 == 1
  {
    hide Xor, XorShift, Shr;
    var a := Shifted(x, g.p) * g.m1 % M;
    var b := Shifted(a, g.q) * g.m2 % M;
    var c := Shifted(b, g.r);
    SetLowBit(c);
    c + 1 - c % 2
  }

  /** The same for the word that a gamma is made of, which is made odd at the end. */
  lemma OddMixStages(g: Params, x: U64) returns (a: U64, b: U64, c: U64)
    ensures ShiftMixed(x, g.p, a) && ShiftMixed(a * g.m1 % M, g.q, b) && ShiftMixed(b * g.m2 % M, g.r, c)
    ensures OddMix(g, x) == if c % 2 == 0 then c + 1 else c
  {
    hide Shifted, ShiftMixed;
    a := Shifted(x, g.p);
    b := Shifted(a * g.m1 % M, g.q);
    c := Shifted(b * g.m2 % M, g.r);
    ShiftedBits(x, g.p);
    ShiftedBits(a * g.m1 % M, g.q);
    ShiftedBits(b * g.m2 % M, g.r);
  }

  /** A gamma with too few transitions has every second bit flipped. */
  function GammaOf(g: Params, x: U64): (gamma: U64)
    ensures gamma % 2 == 1 && Transitions(gamma) >= 24
  {
    hide Xor, Ones, OddMix;
    var y := OddMix(g, x);
    FlipTransitions(y);
    if Transitions(y) < 24 then Xor(y, 0xaaaa_aaaa_aaaa_aaaa) else y
  }

  /** A mixed odd word with transitions enough is taken as it is; any other has every second bit flipped,
      and with that 64 transitions less those it had. */
  lemma GammaExact(g: Params, x: U64)
    ensures var y, gamma := OddMix(g, x), GammaOf(g, x);
            && (Transitions(y) >= 24 ==> gamma == y)
            && (Transitions(y) < 24 ==>
                  gamma == Xor(y, 0xaaaa_aaaa_aaaa_aaaa) && Transitions(gamma) == 64 - Transitions(y))
  {
    hide Xor, Ones, OddMix, Transitions;
    FlipTransitions(OddMix(g, x));
  }

  /** `mix_gamma` always returns an odd word with at least 24 transitions. */
  method MixGamma(g: Params, x0: U64) returns (gamma: U64)
    ensures gamma == GammaOf(g, x0) && gamma % 2 == 1 && Transitions(gamma) >= 24
  {
    hide Xor, XorShift, Ones, Shr;
    var x := Shifted(x0, g.p) * g.m1 % M;
    x := Shifted(x, g.q) * g.m2 % M;
    x := Shifted(x, g.r);
    SetLowBit(x);
    x := x + 1 - x % 2;
    var n := PopCount(Xor(x, x / 2));
    FlipTransitions(x);
    gamma := if n < 24 then Xor(x, 0xaaaa_aaaa_aaaa_aaaa) else x;
  }

  class Generator {
    const g: Params
    var seed: U64
    var gamma: U64

    ghost predicate Valid()
      reads this
    {
      gamma % 2 == 1
    }

    constructor (g: Params, seed: U64, gamma: U64)
      ensures Valid() && this.g == g && this.seed == seed
      ensures this.gamma == gamma + 1 - gamma % 2
    {
      this.g, this.seed, this.gamma := g, seed, gamma + 1 - gamma % 2;
    }

    /** One output: the mixed seed, and the seed moves one step on. */
    method Next() returns (v: U64)
      modifies this`seed
      ensures v == Output(g, old(seed), gamma, 0) == Mix64(g, old(seed)) && seed == SeedAt(old(seed), gamma, 1)
    {
      v := Mix64(g, seed);
      seed := (seed + gamma) % M;
    }

    /** A run of outputs is a stretch of the stream. */
    method Generate(n: nat) returns (vs: seq<U64>)
      modifies this`seed
      ensures |vs| == n && forall i | 0 <= i < n :: vs[i] == Output(g, old(seed), gamma, i)
      ensures seed == SeedAt(old(seed), gamma, n)
    {
      hide Mix64;
      vs := [];
      for i := 0 to n
        invariant |vs| == i && seed == SeedAt(old(seed), gamma, i)
        invariant forall k | 0 <= k < i :: vs[k] == Output(g, old(seed), gamma, k)
      {
        vs := vs + [Mix64(g, seed)];
        seed := (seed + gamma) % M;
      }
    }

    /** `advance(delta)` is `delta` single steps at once. */
    method Advance(delta: U64)
      modifies this`seed
      ensures seed == SeedAt(old(seed), gamma, delta)
    {
      hide SeedAt;
      SeedAtJumps(seed, gamma, delta);
      AddReduced(seed, delta * gamma);
      seed := (seed + delta * gamma % M) % M;
    }

    /** `backstep` undoes `advance`, and `advance` undoes it. */
    method Backstep(delta: U64)
      modifies this`seed
      ensures SeedAt(seed, gamma, delta) == old(seed)
      ensures forall x: U64 | old(seed) == SeedAt(x, gamma, delta) :: seed == x
    {
      hide SeedAt;
      BackAndForth(seed, gamma, delta);
      forall x: U64 ensures SeedAt(SeedAt(x, gamma, delta), gamma, (M - delta) % M) == x {
        ForthAndBack(x, gamma, delta);
      }
      Advance((M - delta) % M);
    }

    /** `operator-`. */
    method Minus(other: Generator) returns (n: U64)
      requires other.Valid()
      ensures n == StepsBetween(other.seed, seed, other.gamma)
      ensures SeedAt(other.seed, other.gamma, n) == seed
    {
      var inv := ModularInverse(other.gamma);
      n := (seed - other.seed) % M * inv % M;
      DistanceLeads(other.seed, seed, other.gamma);
    }

    /** `split`: a second generator with a gamma of its own; this one has moved two steps on. */
    method Split() returns (other: Generator)
      requires Valid()
      modifies this`seed
      ensures fresh(other) && other.Valid() && other.g == g && Transitions(other.gamma) >= 24
      ensures other.gamma == GammaOf(g, SeedAt(old(seed), gamma, 1))
      ensures other.seed == Output(g, old(seed), gamma, 0) && seed == SeedAt(old(seed), gamma, 2)
    {
      hide Mix64, Transitions, GammaOf;
      var newSeed := Next();
      var newGamma := MixGamma(g, seed);
      seed := (seed + gamma) % M;
      other := new Generator(g, newSeed, newGamma);
    }
  }

  lemma BackAndForth(seed: U64, gamma: U64, delta: U64)
    ensures SeedAt(SeedAt(seed, gamma, (M - delta) % M), gamma, delta) == seed
  {
    hide SeedAt;
    var back := (M - delta) % M;
    SeedAtJumps(seed, gamma, back);
    SeedAtJumps(SeedAt(seed, gamma, back), gamma, delta);
    AddReduced2(seed + back * gamma, delta * gamma);
    RoundTrip(seed, back, delta, gamma);
  }

  lemma ForthAndBack(seed: U64, gamma: U64, delta: U64)
    ensures SeedAt(SeedAt(seed, gamma, delta), gamma, (M - delta) % M) == seed
  {
    hide SeedAt;
    var back := (M - delta) % M;
    assert (M - back) % M == delta;
    BackAndForth(seed, gamma, back);
  }

  lemma RoundTrip(seed: U64, a: int, b: int, gamma: int)
    requires a + b == 0 || a + b == M
    ensures (seed + a * gamma + b * gamma) % M == seed
  {
    Distribute(a, b, gamma);
    WholeTurns(seed, a * gamma, b * gamma, gamma);
  }

  lemma Distribute(a: int, b: int, c: int)
    ensures a * c + b * c == (a + b) * c
  {
  }

  lemma WholeTurns(seed: U64, p: int, q: int, k: int)
    requires p + q == 0 || p + q == M * k
    ensures (seed + p + q) % M == seed
  {
  }
}
