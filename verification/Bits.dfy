/** Bit operations on natural numbers, defined bit by bit. */
module Bits {

  function Pow2(n: nat): (p: nat)
    ensures p > 0
  {
    if n == 0 then 1 else 2 * Pow2(n - 1)
  }

  const M: nat := 0x1_0000_0000_0000_0000

  type U64 = x: int | 0 <= x < M

  lemma WordSize()
    ensures Pow2(64) == M
  {
    hide Pow2;
    Sixteen();
    assert Pow2(8) == 0x100 by { Pow2Add(4, 4); }
    assert Pow2(16) == 0x1_0000 by { Pow2Add(8, 8); }
    assert Pow2(32) == 0x1_0000_0000 by { Pow2Add(16, 16); }
    assert Pow2(64) == M by { Pow2Add(32, 32); }
  }

  lemma Sixteen()
    ensures Pow2(4) == 16
  {
  }

  lemma Doubled(p: int, q: int)
    ensures 2 * (p * q) == (2 * p) * q
  {
  }

  lemma {:induction false} Pow2Add(a: nat, b: nat)
    ensures Pow2(a + b) == Pow2(a) * Pow2(b)
    decreases a
  {
    if a > 0 {
      Pow2Add(a - 1, b);
      Doubled(Pow2(a - 1), Pow2(b));
    }
  }

  // ----- Division

  lemma Unique(a: int, q: int, r: int, m: int)
    requires m > 0 && a == q * m + r && 0 <= r < m
    ensures a % m == r
  {
    var k, s := a / m, a % m;
    var d := k - q;
    assert a == k * m + s;
    assert d * m == k * m - q * m;
    SmallMultiple(d, m);
  }

  lemma SmallMultiple(d: int, m: int)
    requires m > 0 && -m < d * m < m
    ensures d == 0
  {
    if d > 0 { Grows(d, m); }
    if d < 0 { Grows(-d, m); }
  }

  lemma Positive(x: int, y: int)
    requires x > 0 && y > 0
    ensures x * y > 0
  {
  }

  lemma Grows(d: int, m: int)
    requires d > 0 && m > 0
    ensures d * m >= m
  {
  }

  // ----- Bits

  function Xor(x: nat, y: nat): nat
    decreases x + y
  {
    if x == 0 && y == 0 then 0 else 2 * Xor(x / 2, y / 2) + (x + y) % 2
  }

  function And(x: nat, y: nat): nat
    decreases x
  {
    if x == 0 || y == 0 then 0 else 2 * And(x / 2, y / 2) + (x % 2) * (y % 2)
  }

  /** The right shift by `s` places. */
  function Shr(x: nat, s: nat): (y: nat)
    ensures y <= x
    ensures s > 0 && x > 0 ==> y < x
    decreases s
  {
    if s == 0 then x else Shr(x / 2, s - 1)
  }

  /** The number of one-bits. */
  function Ones(x: nat): nat {
    if x == 0 then 0 else x % 2 + Ones(x / 2)
  }

  // ----- Laws of exclusive-or

  lemma {:induction false} XorBits(x: nat, y: nat)
    ensures Xor(x, y) % 2 == (x + y) % 2 && Xor(x, y) / 2 == Xor(x / 2, y / 2)
  {
    hide Xor;
    XorStep(x, y);
    DoubleAndBit(Xor(x / 2, y / 2), (x + y) % 2);
  }

  lemma {:induction false} XorStep(x: nat, y: nat)
    ensures Xor(x, y) == 2 * Xor(x / 2, y / 2) + (x + y) % 2
  {
  }

  lemma DoubleAndBit(t: nat, b: nat)
    requires b < 2
    ensures (2 * t + b) / 2 == t && (2 * t + b) % 2 == b
  {
  }

  lemma {:induction false} XorZero(x: nat)
    ensures Xor(x, 0) == x
  {
    if x > 0 { XorZero(x / 2); }
  }

  lemma {:induction false} XorSelf(x: nat)
    ensures Xor(x, x) == 0
  {
    if x > 0 { XorSelf(x / 2); }
  }

  lemma {:induction false} XorCommutes(x: nat, y: nat)
    ensures Xor(x, y) == Xor(y, x)
    decreases x + y
  {
    if x > 0 || y > 0 { XorCommutes(x / 2, y / 2); }
  }

  lemma Parity(a: int, b: int, c: int)
    requires a % 2 == b % 2
    ensures (a + c) % 2 == (b + c) % 2
  {
  }

  lemma SameBits(a: int, b: int)
    requires a % 2 == b % 2 && a / 2 == b / 2
    ensures a == b
  {
  }

  lemma {:induction false} XorAssociates(x: nat, y: nat, z: nat)
    ensures Xor(Xor(x, y), z) == Xor(x, Xor(y, z))
    decreases x + y + z
  {
    hide Xor;
    XorZero(0);
    if x > 0 || y > 0 || z > 0 {
      var a, b := Xor(x, y), Xor(y, z);
      XorBits(x, y);
      XorBits(y, z);
      XorBits(a, z);
      XorBits(x, b);
      Parity(a, x + y, z);
      Parity(b, y + z, x);
      XorAssociates(x / 2, y / 2, z / 2);
      SameBits(Xor(a, z), Xor(x, b));
    }
  }

  /** Mixing a number in twice takes it out again. */
  lemma XorCancels(x: nat, y: nat)
    ensures Xor(Xor(x, y), y) == x && Xor(y, Xor(y, x)) == x
  {
    XorAssociates(x, y, y);
    XorAssociates(y, y, x);
    XorSelf(y);
    XorZero(x);
    XorCommutes(0, x);
  }

  lemma XorSwap(a: nat, b: nat, c: nat, d: nat)
    ensures Xor(Xor(a, b), Xor(c, d)) == Xor(Xor(a, c), Xor(b, d))
  {
    XorAssociates(a, b, Xor(c, d));
    XorAssociates(b, c, d);
    XorCommutes(b, c);
    XorAssociates(c, b, d);
    XorAssociates(a, c, Xor(b, d));
  }

  lemma {:induction false} XorFits(x: nat, y: nat, n: nat)
    requires x < Pow2(n) && y < Pow2(n)
    ensures Xor(x, y) < Pow2(n)
    decreases n
  {
    if n > 0 { XorFits(x / 2, y / 2, n - 1); }
  }

  lemma {:induction false} ShrXor(x: nat, y: nat, s: nat)
    ensures Shr(Xor(x, y), s) == Xor(Shr(x, s), Shr(y, s))
    decreases s
  {
    if s > 0 {
      XorBits(x, y);
      ShrXor(x / 2, y / 2, s - 1);
    }
  }

  // ----- x ^ (x >> s) is a bijection

  function XorShift(x: nat, s: nat): nat {
    Xor(x, Shr(x, s))
  }

  function Unshift(z: nat, s: nat): nat
    requires s > 0
    decreases z
  {
    if z == 0 then 0 else Xor(z, Unshift(Shr(z, s), s))
  }

  lemma {:induction false} UnshiftShift(x: nat, s: nat)
    requires s > 0
    ensures Unshift(XorShift(x, s), s) == x
    decreases x
  {
    var h, z := Shr(x, s), XorShift(x, s);
    if x > 0 {
      UnshiftShift(h, s);
      ShrXor(x, h, s);
      XorCancels(x, h);
    }
  }

  lemma {:induction false} ShiftUnshift(z: nat, s: nat)
    requires s > 0
    ensures XorShift(Unshift(z, s), s) == z
    decreases z
  {
    if z == 0 {
      ShrZero(s);
    } else {
      var w := Shr(z, s);
      var v := Unshift(w, s);
      ShiftUnshift(w, s);
      ShrXor(z, v, s);
      XorCommutes(v, Shr(v, s));
      XorCancels(Shr(v, s), v);
      XorCommutes(w, Shr(v, s));
      XorCancels(v, Shr(v, s));
      XorCancels(z, v);
    }
  }

  lemma {:induction false} ShrZero(s: nat)
    ensures Shr(0, s) == 0
  {
  }

  lemma {:induction false} UnshiftFits(z: nat, s: nat, n: nat)
    requires s > 0 && z < Pow2(n)
    ensures Unshift(z, s) < Pow2(n)
    decreases z
  {
    if z > 0 {
      UnshiftFits(Shr(z, s), s, n);
      XorFits(z, Unshift(Shr(z, s), s), n);
    }
  }

  // ----- Counting bits

  lemma {:induction false} AndSelf(x: nat)
    ensures And(x, x) == x
  {
    hide And;
    AndStep(x, x);
    BitSquare(x % 2);
    if x > 0 { AndSelf(x / 2); }
  }

  lemma BitSquare(b: nat)
    requires b < 2
    ensures b * b == b
  {
    assert b == 0 || b == 1;
  }

  /** `x & (x - 1)` drops exactly one one-bit. */
  lemma {:induction false} DropBit(x: nat)
    requires x > 0
    ensures And(x, x - 1) < x && Ones(And(x, x - 1)) == Ones(x) - 1
  {
    hide And, Ones;
    AndStep(x, x - 1);
    if x % 2 == 1 {
      AndSelf(x / 2);
      assert (x - 1) / 2 == x / 2;
      OnesStep(x / 2, 0);
    } else {
      DropBit(x / 2);
      assert (x - 1) / 2 == x / 2 - 1;
      OnesStep(And(x / 2, x / 2 - 1), 0);
    }
    OnesStep(x / 2, x % 2);
  }

  lemma {:induction false} AndStep(x: nat, y: nat)
    ensures And(x, y) == 2 * And(x / 2, y / 2) + (x % 2) * (y % 2)
  {
  }

  lemma {:induction false} OnesStep(x: nat, b: nat)
    requires b < 2
    ensures Ones(2 * x + b) == Ones(x) + b
  {
  }

  lemma {:induction false} OnesZero()
    ensures Ones(0) == 0
  {
  }

  /** Complementing the low `n` bits. */
  lemma {:induction false} OnesComplement(z: nat, n: nat)
    requires z < Pow2(n)
    ensures Ones(Xor(z, Pow2(n) - 1)) == n - Ones(z)
    decreases n
  {
    hide Xor, Ones;
    if n == 0 {
      XorZero(0);
      OnesStep(0, 0);
      OnesZero();
    } else {
      var m := Pow2(n) - 1;
      assert m / 2 == Pow2(n - 1) - 1 && m % 2 == 1;
      XorStep(z, m);
      OnesComplement(z / 2, n - 1);
      OnesStep(Xor(z / 2, m / 2), 1 - z % 2);
      OnesStep(z / 2, z % 2);
    }
  }

  /** `0xaa...aa` with `n` bit pairs. */
  function Alternating(n: nat): nat {
    if n == 0 then 0 else 4 * Alternating(n - 1) + 2
  }

  lemma {:induction false} AlternatingValue(n: nat)
    ensures 3 * Alternating(n) == 2 * (Pow2(2 * n) - 1)
  {
    if n > 0 { AlternatingValue(n - 1); }
  }

  lemma PrependPair(b: nat)
    requires b % 2 == 0
    ensures Xor(4 * b + 2, (4 * b + 2) / 2) == 4 * Xor(b, b / 2) + 3
  {
    hide Xor;
    PairBits(b);
    XorStep(4 * b + 2, 2 * b + 1);
    XorStep(2 * b + 1, b);
  }

  lemma PairBits(b: nat)
    requires b % 2 == 0
    ensures (4 * b + 2) / 2 == 2 * b + 1 && (2 * b + 1) / 2 == b
    ensures (4 * b + 2 + (2 * b + 1)) % 2 == 1 && (2 * b + 1 + b) % 2 == 1
  {
    var h := b / 2;
    assert b == 2 * h;
    DoubleAndBit(2 * b + 1, 0);
    DoubleAndBit(b, 1);
    DoubleAndBit(3 * b + 1, 1);
    DoubleAndBit(3 * h, 1);
  }

  /** Every bit of the alternating pattern differs from its left neighbour. */
  lemma {:induction false} AlternatingEdges(n: nat)
    ensures Xor(Alternating(n), Alternating(n) / 2) == Pow2(2 * n) - 1
  {
    hide Xor, Pow2, Alternating;
    if n == 0 {
      NoPairs();
    } else {
      AlternatingEdges(n - 1);
      OneMorePair(n);
      PrependPair(Alternating(n - 1));
    }
  }

  lemma NoPairs()
    ensures Xor(Alternating(0), Alternating(0) / 2) == Pow2(0) - 1
  {
    hide Xor;
    XorZero(0);
  }

  lemma OneMorePair(n: nat)
    requires n > 0
    ensures Alternating(n) == 4 * Alternating(n - 1) + 2 && Alternating(n - 1) % 2 == 0
    ensures Pow2(2 * n) == 4 * Pow2(2 * (n - 1))
  {
    assert Pow2(2 * n) == 2 * Pow2(2 * n - 1) == 4 * Pow2(2 * n - 2);
    if n > 1 { DoubleAndBit(2 * Alternating(n - 2) + 1, 0); }
  }

  // ----- Single bits

  function Bit(x: nat, i: nat): nat {
    x / Pow2(i) % 2
  }

  lemma Quotient(a: int, q: int, r: int, m: int)
    requires m > 0 && a == q * m + r && 0 <= r < m
    ensures a / m == q
  {
    var k, s := a / m, a % m;
    assert a == k * m + s;
    assert (k - q) * m == k * m - q * m;
    SmallMultiple(k - q, m);
  }

  lemma HalveFirst(x: nat, p: nat)
    requires p > 0
    ensures x / (2 * p) == (x / 2) / p
  {
    var h := x / 2;
    var q, r := h / p, h % p;
    assert h == q * p + r && x == 2 * h + x % 2;
    assert q * (2 * p) == 2 * (q * p);
    Quotient(x, q, 2 * r + x % 2, 2 * p);
  }

  lemma BitStep(x: nat, i: nat)
    requires i > 0
    ensures Bit(x, i) == Bit(x / 2, i - 1)
  {
    HalveFirst(x, Pow2(i - 1));
  }

  lemma BitZero(x: nat)
    ensures Bit(x, 0) == x % 2
  {
  }

  /** Exclusive-or works on each bit by itself. */
  lemma {:induction false} XorBit(x: nat, y: nat, i: nat)
    ensures Bit(Xor(x, y), i) == (Bit(x, i) + Bit(y, i)) % 2
    decreases i
  {
    hide Xor, Bit;
    XorBits(x, y);
    if i == 0 {
      BitZero(x);
      BitZero(y);
      BitZero(Xor(x, y));
    } else {
      BitStep(x, i);
      BitStep(y, i);
      BitStep(Xor(x, y), i);
      XorBit(x / 2, y / 2, i - 1);
    }
  }

  /** A right shift moves every bit down. */
  lemma {:induction false} ShrBit(x: nat, s: nat, i: nat)
    ensures Bit(Shr(x, s), i) == Bit(x, i + s)
    decreases s
  {
    hide Bit;
    if s > 0 {
      ShrBit(x / 2, s - 1, i);
      BitStep(x, i + s);
    }
  }

  // ----- Exclusive-or of machine words

  function Xor64(x: U64, y: U64): (z: U64) {
    WordSize();
    XorFits(x, y, 64);
    Xor(x, y)
  }

  /** Words may be mixed in in any order, and a word mixed in twice is taken out again. */
  lemma Xor64Mixes(x: U64, y: U64, z: U64)
    ensures Xor64(Xor64(x, y), z) == Xor64(Xor64(x, z), y)
    ensures Xor64(Xor64(x, y), y) == x
  {
    hide Xor;
    XorAssociates(x, y, z);
    XorAssociates(x, z, y);
    XorCommutes(y, z);
    XorCancels(x, y);
  }
}
