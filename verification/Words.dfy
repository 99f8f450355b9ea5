/** Exclusive-or of machine words, seen through the two laws that incremental hashing relies on. */
module Words {
  import opened Bits

  /** An operation that mixes a key into a word. */
  type Mixer<!W> = (W, W) -> W

  /** Keys may be mixed in in any order, and mixing a key in twice takes it out again. */
  ghost predicate IsXor<W(!new)>(mix: Mixer<W>) {
    && (forall x, y, z :: mix(mix(x, y), z) == mix(mix(x, z), y))
    && (forall x, y :: mix(mix(x, y), y) == x)
  }

  /** Exclusive-or of 64-bit words is such an operation. */
  lemma Xor64IsXor()
    ensures IsXor(Xor64)
  {
    hide Xor64;
    forall x: U64, y: U64, z: U64
      ensures Xor64(Xor64(x, y), z) == Xor64(Xor64(x, z), y) && Xor64(Xor64(x, y), y) == x
    {
      Xor64Mixes(x, y, z);
    }
  }
}
