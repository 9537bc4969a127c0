/** The FNV-1a hash of the `ctHash_Internal` namespace: the byte steps for
    32-bit and 64-bit words, the 64-bit multiply built from 32-bit halves,
    and the folds of the steps over a C string and over a sized buffer. */
module CtHashInternal {
  import opened Bits
  import opened Memory
  import opened Fold

  /** The source's `h32` and `h64`. */
  type H32 = Word32
  type H64 = Word64

  const FNV_PRIME_32: H32 := 0x0100_0193
  const FNV_OFFSET_BASIS_32: H32 := 0x811C_9DC5

  const FNV_PRIME_64: H64 := 0x0000_0100_0000_01B3
  const FNV_OFFSET_BASIS_64: H64 := 0xCBF2_9CE4_8422_2325

  // ---------------------------------------------------------------------
  // 32-bit FNV-1a

  /** One FNV-1a step: exclusive-or the `char` into the hash, then multiply
      by the prime. The `char` is promoted and converted to `unsigned int`
      (so a negative `char` is sign-extended), the product is formed in
      `h64` and narrowed back to `h32`; the result is the product modulo
      2^32, and for a byte below 0x80 it is the textbook FNV-1a step. */
  function Fnv1a32Char(byte: Byte, hash: H32): (r: H32)
    ensures r == (Xor(hash, ToWord32(CharValue(byte))) * FNV_PRIME_32) % TWO_32
    ensures byte < 0x80 ==> r == (Xor(hash, byte) * FNV_PRIME_32) % TWO_32
  {
    var promoted := ToWord32(CharValue(byte));
    XorWord32(hash, promoted);
    var mixed := Xor(hash, promoted);
    ModSmall(mixed * FNV_PRIME_32, TWO_64);
    ToWord32(Mul64(mixed, FNV_PRIME_32))
  }

  /** The recursive fold over a NUL-terminated string: the hash of the bytes
      before the first NUL, folded left to right from `hash`. */
  function Fnv1a32String(mem: seq<Byte>, hash: H32): (r: H32)
    requires Terminated(mem)
    ensures r == FoldLeft(Fnv1a32Char, CString(mem), hash)
    decreases |mem|
  {
    if mem[0] == NUL then hash
    else
      assert mem == [mem[0]] + mem[1..];
      Fnv1a32String(mem[1..], Fnv1a32Char(mem[0], hash))
  }

  /** The loop over a buffer of `numBytes` bytes: every byte is hashed,
      NULs included, in index order. */
  method Fnv1a32Buffer(bytes: seq<Byte>, numBytes: nat, hash: H32) returns (r: H32)
    requires numBytes <= |bytes|
    ensures r == FoldLeft(Fnv1a32Char, bytes[..numBytes], hash)
  {
    r := hash;
    for i := 0 to numBytes
      invariant r == FoldLeft(Fnv1a32Char, bytes[..i], hash)
    {
      FoldPrefix(Fnv1a32Char, bytes, i, hash);
      r := Fnv1a32Char(bytes[i], r);
    }
  }

  // ---------------------------------------------------------------------
  // 64-bit FNV-1a

  /** `lo`: the low 32 bits of a word. */
  function Lo(val: H64): (r: H64)
    ensures r == val % TWO_32
  {
    AndLow32(val);
    And(val, 0xFFFF_FFFF)
  }

  /** `hi`: the high 32 bits of a word; with `Lo` it splits the word. */
  function Hi(val: H64): (r: H64)
    ensures r < TWO_32 && val == Lo(val) + r * TWO_32
  {
    Pow2Words();
    Shr64(val, 32)
  }

  /** `multiply_h64`: the 64-bit unsigned product, `lhs * rhs` modulo 2^64,
      assembled from 32-bit halves: `lo_mult` below and `hi_mult` above (the
      product of the two high halves only reaches bits 64 and up, so leaving
      it out changes nothing). */
  function MultiplyH64(lhs: H64, rhs: H64): (r: H64)
    ensures r == (lhs * rhs) % TWO_64
  {
    var loMult := LoMult(lhs, rhs);
    var hiMult := HiMult(lhs, rhs);
    Pow2Words();
    ModSmall(hiMult * TWO_32, TWO_64);
    OrDisjoint(loMult, hiMult, 32);
    HalvesProduct(lhs, rhs, Lo(lhs), Hi(lhs), Lo(rhs), Hi(rhs));
    Or(loMult, Shl64(hiMult, 32))
  }

  /** `lo_mult`: the low half of `lo(lhs) * lo(rhs)`. */
  function LoMult(lhs: H64, rhs: H64): (r: H64)
    ensures r == (Lo(lhs) * Lo(rhs)) % TWO_32
  {
    MulAddNoWrap(0, Lo(lhs), Lo(rhs));
    AndLow32(Mul64(Lo(lhs), Lo(rhs)));
    And(Mul64(Lo(lhs), Lo(rhs)), 0xFFFF_FFFF)
  }

  /** `aux_0`: the carry out of `lo(lhs) * lo(rhs)` plus the first cross
      product, modulo 2^32. */
  function Aux0(lhs: H64, rhs: H64): (r: H64)
    ensures r == ((Lo(lhs) * Lo(rhs)) / TWO_32 + Lo(lhs) * Hi(rhs)) % TWO_32
  {
    var loLo := Mul64(Lo(lhs), Lo(rhs));
    MulAddNoWrap(0, Lo(lhs), Lo(rhs));
    HiIsQuotient(loLo);
    MulAddNoWrap(Hi(loLo), Lo(lhs), Hi(rhs));
    var sum := Add64(Hi(loLo), Mul64(Lo(lhs), Hi(rhs)));
    AndLow32(sum);
    And(sum, 0xFFFF_FFFF)
  }

  /** `hi_mult`: `aux_0` plus the second cross product, modulo 2^32. */
  function HiMult(lhs: H64, rhs: H64): (r: H64)
    ensures r == (Aux0(lhs, rhs) + Hi(lhs) * Lo(rhs)) % TWO_32
  {
    MulAddNoWrap(Aux0(lhs, rhs), Hi(lhs), Lo(rhs));
    var sum := Add64(Aux0(lhs, rhs), Mul64(Hi(lhs), Lo(rhs)));
    AndLow32(sum);
    And(sum, 0xFFFF_FFFF)
  }

  lemma HiIsQuotient(v: H64)
    ensures Hi(v) == v / TWO_32
  {
    DivModUnique(v, TWO_32, Hi(v), Lo(v));
  }

  /** None of the 64-bit products and sums inside `multiply_h64` wraps: each
      returns the exact mathematical value (the halves are below 2^32, and
      (2^32 - 1)^2 + 2^32 - 1 is below 2^64). */
  lemma MultiplyH64NoOverflow(lhs: H64, rhs: H64)
    ensures Mul64(Lo(lhs), Lo(rhs)) == Lo(lhs) * Lo(rhs)
    ensures Mul64(Lo(lhs), Hi(rhs)) == Lo(lhs) * Hi(rhs)
    ensures Mul64(Hi(lhs), Lo(rhs)) == Hi(lhs) * Lo(rhs)
    ensures Add64(Hi(Mul64(Lo(lhs), Lo(rhs))), Mul64(Lo(lhs), Hi(rhs)))
         == Hi(Mul64(Lo(lhs), Lo(rhs))) + Mul64(Lo(lhs), Hi(rhs))
    ensures Add64(Aux0(lhs, rhs), Mul64(Hi(lhs), Lo(rhs))) == Aux0(lhs, rhs) + Mul64(Hi(lhs), Lo(rhs))
  {
    MulAddNoWrap(0, Lo(lhs), Lo(rhs));
    MulAddNoWrap(Hi(Mul64(Lo(lhs), Lo(rhs))), Lo(lhs), Hi(rhs));
    MulAddNoWrap(Aux0(lhs, rhs), Hi(lhs), Lo(rhs));
  }

  /** Schoolbook multiplication of two words given by their 32-bit halves,
      keeping the low 64 bits. */
  lemma HalvesProduct(lhs: nat, rhs: nat, a0: nat, a1: nat, b0: nat, b1: nat)
    requires a0 < TWO_32 && a1 < TWO_32 && b0 < TWO_32 && b1 < TWO_32
    requires lhs == a0 + a1 * TWO_32 && rhs == b0 + b1 * TWO_32
    ensures (lhs * rhs) % TWO_64
         == (a0 * b0) % TWO_32
            + (((a0 * b0) / TWO_32 + a0 * b1) % TWO_32 + a1 * b0) % TWO_32 * TWO_32
  {
    var m := TWO_32;
    var p := a0 * b0;
    var t := p / m + a0 * b1 + a1 * b0;
    ModAddLeft(p / m + a0 * b1, a1 * b0, m);
    assert (a0 + a1 * m) * (b0 + b1 * m) == p + m * (a0 * b1 + a1 * b0) + (m * m) * (a1 * b1);
    assert p == p % m + m * (p / m);
    assert t == m * (t / m) + t % m;
    var low := p % m + m * (t % m);
    assert low < m * m;
    assert (a0 + a1 * m) * (b0 + b1 * m) == low + (m * m) * (t / m + a1 * b1);
    DivModUnique(lhs * rhs, m * m, t / m + a1 * b1, low);
  }

  /** The 64-bit FNV-1a step, through `MultiplyH64`: the `char` is
      sign-extended to `h64` before the exclusive or. */
  function Fnv1a64Char(byte: Byte, hash: H64): (r: H64)
    ensures r == (Xor(hash, ToWord64(CharValue(byte))) * FNV_PRIME_64) % TWO_64
    ensures byte < 0x80 ==> r == (Xor(hash, byte) * FNV_PRIME_64) % TWO_64
  {
    var promoted := ToWord64(CharValue(byte));
    XorWord64(hash, promoted);
    MultiplyH64(Xor(hash, promoted), FNV_PRIME_64)
  }

  function Fnv1a64String(mem: seq<Byte>, hash: H64): (r: H64)
    requires Terminated(mem)
    ensures r == FoldLeft(Fnv1a64Char, CString(mem), hash)
    decreases |mem|
  {
    if mem[0] == NUL then hash
    else
      assert mem == [mem[0]] + mem[1..];
      Fnv1a64String(mem[1..], Fnv1a64Char(mem[0], hash))
  }

  method Fnv1a64Buffer(bytes: seq<Byte>, numBytes: nat, hash: H64) returns (r: H64)
    requires numBytes <= |bytes|
    ensures r == FoldLeft(Fnv1a64Char, bytes[..numBytes], hash)
  {
    r := hash;
    for i := 0 to numBytes
      invariant r == FoldLeft(Fnv1a64Char, bytes[..i], hash)
    {
      FoldPrefix(Fnv1a64Char, bytes, i, hash);
      r := Fnv1a64Char(bytes[i], r);
    }
  }

  // ---------------------------------------------------------------------
  // The steps are invertible

  /** Multiplying by the 32-bit prime modulo 2^32 loses nothing: the prime is
      odd, and 0x359C449B is its inverse. */
  lemma {:induction false} MulPrime32Injective(x: H32, y: H32)
    requires (x * FNV_PRIME_32) % TWO_32 == (y * FNV_PRIME_32) % TWO_32
    ensures x == y
  {
    var inv := 0x359C_449B;
    ModMulCong(x * FNV_PRIME_32, y * FNV_PRIME_32, inv, TWO_32);
    assert x * FNV_PRIME_32 * inv == x + (x * 3513497) * TWO_32;
    assert y * FNV_PRIME_32 * inv == y + (y * 3513497) * TWO_32;
    ModAddMultiple(x, x * 3513497, TWO_32);
    ModAddMultiple(y, y * 3513497, TWO_32);
    ModSmall(x, TWO_32);
    ModSmall(y, TWO_32);
  }

  /** The same for the 64-bit prime, whose inverse modulo 2^64 is
      0xCE965057AFF6957B. */
  lemma {:induction false} MulPrime64Injective(x: H64, y: H64)
    requires (x * FNV_PRIME_64) % TWO_64 == (y * FNV_PRIME_64) % TWO_64
    ensures x == y
  {
    var inv := 0xCE96_5057_AFF6_957B;
    ModMulCong(x * FNV_PRIME_64, y * FNV_PRIME_64, inv, TWO_64);
    assert x * FNV_PRIME_64 * inv == x + (x * 887285111055) * TWO_64;
    assert y * FNV_PRIME_64 * inv == y + (y * 887285111055) * TWO_64;
    ModAddMultiple(x, x * 887285111055, TWO_64);
    ModAddMultiple(y, y * 887285111055, TWO_64);
    ModSmall(x, TWO_64);
    ModSmall(y, TWO_64);
  }

  /** Distinct bytes promote to distinct words. */
  lemma PromotionInjective(c1: Byte, c2: Byte)
    requires ToWord32(CharValue(c1)) == ToWord32(CharValue(c2)) || ToWord64(CharValue(c1)) == ToWord64(CharValue(c2))
    ensures c1 == c2
  {
  }

  /** A promoted `char` is a small word (0 .. 0x7F) or, sign-extended, one
      of the 128 largest words. */
  lemma PromotionRange(c: Byte)
    ensures ToWord32(CharValue(c)) < 0x80 || ToWord32(CharValue(c)) >= TWO_32 - 0x80
    ensures ToWord64(CharValue(c)) < 0x80 || ToWord64(CharValue(c)) >= TWO_64 - 0x80
  {
    var v := CharValue(c);
    if v < 0 {
      DivModUnique(v, TWO_32, -1, v + TWO_32);
      DivModUnique(v, TWO_64, -1, v + TWO_64);
    }
  }

  /** Plain `char` is signed here: a byte from 0x80 up enters the hash
      sign-extended, so for every hash the step differs from the textbook
      FNV-1a step, which takes the byte as an unsigned octet. */
  lemma Fnv1a32CharSignExtends(c: Byte, h: H32)
    requires c >= 0x80
    ensures Fnv1a32Char(c, h) != (Xor(h, c) * FNV_PRIME_32) % TWO_32
  {
    var u := ToWord32(CharValue(c));
    PromotionRange(c);
    XorWord32(h, u);
    XorWord32(h, c);
    if Fnv1a32Char(c, h) == (Xor(h, c) * FNV_PRIME_32) % TWO_32 {
      MulPrime32Injective(Xor(h, u), Xor(h, c));
      XorComm(h, u);
      XorComm(h, c);
      XorCancel(u, h);
      XorCancel(c, h);
    }
  }

  lemma Fnv1a64CharSignExtends(c: Byte, h: H64)
    requires c >= 0x80
    ensures Fnv1a64Char(c, h) != (Xor(h, c) * FNV_PRIME_64) % TWO_64
  {
    var u := ToWord64(CharValue(c));
    PromotionRange(c);
    XorWord64(h, u);
    XorWord64(h, c);
    if Fnv1a64Char(c, h) == (Xor(h, c) * FNV_PRIME_64) % TWO_64 {
      MulPrime64Injective(Xor(h, u), Xor(h, c));
      XorComm(h, u);
      XorComm(h, c);
      XorCancel(u, h);
      XorCancel(c, h);
    }
  }

  /** A 32-bit step forgets neither the running hash nor the byte: two steps
      agree only on the same hash and the same byte. */
  lemma Fnv1a32CharInjective(c1: Byte, h1: H32, c2: Byte, h2: H32)
    requires Fnv1a32Char(c1, h1) == Fnv1a32Char(c2, h2)
    requires c1 == c2 || h1 == h2
    ensures c1 == c2 && h1 == h2
  {
    var u1, u2 := ToWord32(CharValue(c1)), ToWord32(CharValue(c2));
    XorWord32(h1, u1);
    XorWord32(h2, u2);
    MulPrime32Injective(Xor(h1, u1), Xor(h2, u2));
    if c1 == c2 {
      XorCancel(h1, u1);
      XorCancel(h2, u2);
    } else {
      XorComm(h1, u1);
      XorComm(h2, u2);
      XorCancel(u1, h1);
      XorCancel(u2, h2);
      PromotionInjective(c1, c2);
    }
  }

  lemma Fnv1a64CharInjective(c1: Byte, h1: H64, c2: Byte, h2: H64)
    requires Fnv1a64Char(c1, h1) == Fnv1a64Char(c2, h2)
    requires c1 == c2 || h1 == h2
    ensures c1 == c2 && h1 == h2
  {
    var u1, u2 := ToWord64(CharValue(c1)), ToWord64(CharValue(c2));
    XorWord64(h1, u1);
    XorWord64(h2, u2);
    MulPrime64Injective(Xor(h1, u1), Xor(h2, u2));
    if c1 == c2 {
      XorCancel(h1, u1);
      XorCancel(h2, u2);
    } else {
      XorComm(h1, u1);
      XorComm(h2, u2);
      XorCancel(u1, h1);
      XorCancel(u2, h2);
      PromotionInjective(c1, c2);
    }
  }

  lemma MulPrime32Zero(x: H32)
    ensures (x * FNV_PRIME_32) % TWO_32 == 0 <==> x == 0
  {
    if (x * FNV_PRIME_32) % TWO_32 == 0 {
      MulPrime32Injective(x, 0);
    }
  }

  lemma MulPrime64Zero(x: H64)
    ensures (x * FNV_PRIME_64) % TWO_64 == 0 <==> x == 0
  {
    if (x * FNV_PRIME_64) % TWO_64 == 0 {
      MulPrime64Injective(x, 0);
    }
  }

  /** A step yields 0 exactly when the running hash equals the promoted
      byte. */
  lemma Fnv1a32CharZero(c: Byte, h: H32)
    ensures Fnv1a32Char(c, h) == 0 <==> h == ToWord32(CharValue(c))
  {
    var u := ToWord32(CharValue(c));
    XorWord32(h, u);
    MulPrime32Zero(Xor(h, u));
    if Fnv1a32Char(c, h) == 0 {
      XorCancel(h, u);
    } else if h == u {
      XorSelf(u);
    }
  }

  lemma Fnv1a64CharZero(c: Byte, h: H64)
    ensures Fnv1a64Char(c, h) == 0 <==> h == ToWord64(CharValue(c))
  {
    var u := ToWord64(CharValue(c));
    XorWord64(h, u);
    MulPrime64Zero(Xor(h, u));
    if Fnv1a64Char(c, h) == 0 {
      XorCancel(h, u);
    } else if h == u {
      XorSelf(u);
    }
  }

  /** Two inputs of the same length that differ in exactly one byte never
      hash alike, whatever the seed: a consequence of the steps being
      invertible. */
  lemma Fnv1a32OneByteChange(prefix: seq<Byte>, x: Byte, y: Byte, suffix: seq<Byte>, seed: H32)
    requires x != y
    ensures FoldLeft(Fnv1a32Char, prefix + [x] + suffix, seed)
         != FoldLeft(Fnv1a32Char, prefix + [y] + suffix, seed)
  {
    forall c: Byte, h1: H32, h2: H32 | Fnv1a32Char(c, h1) == Fnv1a32Char(c, h2)
      ensures h1 == h2
    {
      Fnv1a32CharInjective(c, h1, c, h2);
    }
    forall h: H32, c1: Byte, c2: Byte | Fnv1a32Char(c1, h) == Fnv1a32Char(c2, h)
      ensures c1 == c2
    {
      Fnv1a32CharInjective(c1, h, c2, h);
    }
    OneByteChangeIsSeen(Fnv1a32Char, prefix, x, y, suffix, seed);
  }

  lemma Fnv1a64OneByteChange(prefix: seq<Byte>, x: Byte, y: Byte, suffix: seq<Byte>, seed: H64)
    requires x != y
    ensures FoldLeft(Fnv1a64Char, prefix + [x] + suffix, seed)
         != FoldLeft(Fnv1a64Char, prefix + [y] + suffix, seed)
  {
    forall c: Byte, h1: H64, h2: H64 | Fnv1a64Char(c, h1) == Fnv1a64Char(c, h2)
      ensures h1 == h2
    {
      Fnv1a64CharInjective(c, h1, c, h2);
    }
    forall h: H64, c1: Byte, c2: Byte | Fnv1a64Char(c1, h) == Fnv1a64Char(c2, h)
      ensures c1 == c2
    {
      Fnv1a64CharInjective(c1, h, c2, h);
    }
    OneByteChangeIsSeen(Fnv1a64Char, prefix, x, y, suffix, seed);
  }
}
