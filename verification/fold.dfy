/** Folding a byte-mixing step over a sequence of bytes, left to right: the
    common meaning of every multi-byte hash in this library. */
module Fold {
  import opened Memory

  /** Start from `seed` and apply `step` to each byte in index order. */
  function FoldLeft<W>(step: (Byte, W) -> W, bytes: seq<Byte>, seed: W): W
    decreases |bytes|
  {
    if bytes == [] then seed else FoldLeft(step, bytes[1..], step(bytes[0], seed))
  }

  /** Folding a concatenation folds the second part seeded with the fold of
      the first, so a hash can be computed piece by piece. */
  lemma {:induction false} FoldConcat<W>(step: (Byte, W) -> W, a: seq<Byte>, b: seq<Byte>, seed: W)
    ensures FoldLeft(step, a + b, seed) == FoldLeft(step, b, FoldLeft(step, a, seed))
    decreases |a|
  {
    if a != [] {
      assert (a + b)[1..] == a[1..] + b;
      FoldConcat(step, a[1..], b, step(a[0], seed));
    } else {
      assert a + b == b;
    }
  }

  /** One more byte is one more step. */
  lemma FoldSnoc<W>(step: (Byte, W) -> W, a: seq<Byte>, x: Byte, seed: W)
    ensures FoldLeft(step, a + [x], seed) == step(x, FoldLeft(step, a, seed))
  {
    FoldConcat(step, a, [x], seed);
  }

  /** The fold of a longer prefix is one more step on the fold of the
      shorter one. */
  lemma FoldPrefix<W>(step: (Byte, W) -> W, bytes: seq<Byte>, i: nat, seed: W)
    requires i < |bytes|
    ensures FoldLeft(step, bytes[..i + 1], seed) == step(bytes[i], FoldLeft(step, bytes[..i], seed))
  {
    assert bytes[..i + 1] == bytes[..i] + [bytes[i]];
    FoldSnoc(step, bytes[..i], bytes[i], seed);
  }

  /** When every step is injective in the running value, different seeds
      stay different after any common suffix of bytes. */
  lemma {:induction false} FoldInjective<W>(step: (Byte, W) -> W, bytes: seq<Byte>, s1: W, s2: W)
    requires forall c: Byte, h1: W, h2: W :: step(c, h1) == step(c, h2) ==> h1 == h2
    requires s1 != s2
    ensures FoldLeft(step, bytes, s1) != FoldLeft(step, bytes, s2)
    decreases |bytes|
  {
    if bytes != [] {
      FoldInjective(step, bytes[1..], step(bytes[0], s1), step(bytes[0], s2));
    }
  }

  /** When, moreover, every step is injective in the byte, two inputs of the
      same length that differ in exactly one position always fold to
      different values. */
  lemma OneByteChangeIsSeen<W>(step: (Byte, W) -> W, prefix: seq<Byte>, x: Byte, y: Byte, suffix: seq<Byte>, seed: W)
    requires forall c: Byte, h1: W, h2: W :: step(c, h1) == step(c, h2) ==> h1 == h2
    requires forall h: W, c1: Byte, c2: Byte :: step(c1, h) == step(c2, h) ==> c1 == c2
    requires x != y
    ensures FoldLeft(step, prefix + [x] + suffix, seed) != FoldLeft(step, prefix + [y] + suffix, seed)
  {
    var h := FoldLeft(step, prefix, seed);
    FoldConcat(step, prefix + [x], suffix, seed);
    FoldConcat(step, prefix + [y], suffix, seed);
    FoldSnoc(step, prefix, x, seed);
    FoldSnoc(step, prefix, y, seed);
    FoldInjective(step, suffix, step(x, h), step(y, h));
  }
}
