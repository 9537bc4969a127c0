/** Unsigned machine words as bounded naturals, and the C operators the hash
    uses on them.

    A C `unsigned` value of width W is a natural below 2^W. The standard
    defines `+`, `*` and `<<` on such values as the mathematical result
    reduced modulo 2^W, and `>>` as division by a power of two; those are
    written out below as arithmetic. `&`, `|` and `^` are defined on the
    binary digits, so they are written out here by recursion over the bits
    of their operands, and the lemmas below connect them with arithmetic. */
module Bits {

  const TWO_32: nat := 0x1_0000_0000
  const TWO_64: nat := 0x1_0000_0000_0000_0000

  /** `unsigned int` (the source's `h32`) and `unsigned long long` (`h64`). */
  type Word32 = x: int | 0 <= x < 0x1_0000_0000
  type Word64 = x: int | 0 <= x < 0x1_0000_0000_0000_0000

  function Pow2(k: nat): (r: nat)
    ensures r >= 1
  {
    if k == 0 then 1 else 2 * Pow2(k - 1)
  }

  lemma {:induction false} Pow2Add(a: nat, b: nat)
    ensures Pow2(a + b) == Pow2(a) * Pow2(b)
    decreases a
  {
    if a != 0 {
      Pow2Add(a - 1, b);
      assert Pow2(a + b) == 2 * Pow2(a - 1 + b);
      Double(Pow2(b), Pow2(a - 1));
    }
  }

  lemma Pow2Words()
    ensures Pow2(32) == TWO_32 && Pow2(64) == TWO_64
  {
    Pow2Word32();
    Pow2Add(32, 32);
  }

  lemma Pow2Word32()
    ensures Pow2(32) == TWO_32
  {
    Pow2Word16();
    Pow2Add(16, 16);
  }

  lemma Pow2Word16()
    ensures Pow2(16) == 0x1_0000
  {
    assert Pow2(8) == 0x100;
    Pow2Add(8, 8);
  }

  /** Bitwise and, or, exclusive or of two naturals, lowest bit first. */
  function And(a: nat, b: nat): nat
  {
    if a == 0 || b == 0 then 0 else 2 * And(a / 2, b / 2) + (a % 2) * (b % 2)
  }

  function Or(a: nat, b: nat): nat
    decreases a + b
  {
    if a == 0 then b
    else if b == 0 then a
    else 2 * Or(a / 2, b / 2) + (if a % 2 == 1 || b % 2 == 1 then 1 else 0)
  }

  function Xor(a: nat, b: nat): nat
    decreases a + b
  {
    if a == 0 then b
    else if b == 0 then a
    else 2 * Xor(a / 2, b / 2) + (if a % 2 == b % 2 then 0 else 1)
  }

  /** The recursive case of `Xor` holds for zero operands too. */
  lemma XorUnfold(a: nat, b: nat)
    ensures Xor(a, b) == 2 * Xor(a / 2, b / 2) + (if a % 2 == b % 2 then 0 else 1)
  {
  }

  /** Exclusive or with a k-bit value leaves the bits from k up alone. */
  lemma {:induction false} XorLowBits(a: nat, b: nat, k: nat)
    requires b < Pow2(k)
    ensures Xor(a, b) == (a / Pow2(k)) * Pow2(k) + Xor(a % Pow2(k), b)
    decreases k
  {
    if k == 0 {
      assert b == 0 && a % 1 == 0 && a / 1 == a;
    } else {
      var p := Pow2(k - 1);
      assert Pow2(k) == 2 * p;
      var bit := if a % 2 == b % 2 then 0 else 1;
      var x := Xor((a / 2) % p, b / 2);
      XorLowBits(a / 2, b / 2, k - 1);
      assert Xor(a / 2, b / 2) == ((a / 2) / p) * p + x;
      XorUnfold(a, b);
      assert Xor(a, b) == 2 * (((a / 2) / p) * p) + 2 * x + bit;
      DivModPow2(a, k);
      var low := a % Pow2(k);
      assert low == 2 * ((a / 2) % p) + a % 2;
      assert low / 2 == (a / 2) % p && low % 2 == a % 2;
      XorUnfold(low, b);
      assert Xor(low, b) == 2 * x + bit;
      var q := (a / 2) / p;
      assert a / Pow2(k) == q;
      Double(q, p);
    }
  }

  lemma Double(q: int, p: int)
    ensures q * (2 * p) == 2 * (q * p)
  {
  }

  lemma XorLowByte(a: nat, b: nat)
    requires b < 0x100
    ensures Xor(a, b) == (a / 0x100) * 0x100 + Xor(a % 0x100, b)
  {
    assert Pow2(8) == 0x100;
    XorLowBits(a, b, 8);
  }

  /** Exclusive or of two W-bit values is a W-bit value. */
  lemma {:induction false} XorBound(a: nat, b: nat, w: nat)
    requires a < Pow2(w) && b < Pow2(w)
    ensures Xor(a, b) < Pow2(w)
    decreases w
  {
    if a != 0 && b != 0 {
      XorBound(a / 2, b / 2, w - 1);
    }
  }

  /** Exclusive or is symmetric. */
  lemma {:induction false} XorComm(a: nat, b: nat)
    ensures Xor(a, b) == Xor(b, a)
    decreases a + b
  {
    if a != 0 && b != 0 {
      XorComm(a / 2, b / 2);
    }
  }

  /** Exclusive or with the same mask twice gives back the value, so
      `x ^ k` is injective in `x`. */
  lemma {:induction false} XorCancel(a: nat, k: nat)
    ensures Xor(Xor(a, k), k) == a
    decreases a + k
  {
    if a == 0 {
      XorSelf(k);
    } else if k != 0 {
      XorCancel(a / 2, k / 2);
      var x := Xor(a / 2, k / 2);
      var bit := if a % 2 == k % 2 then 0 else 1;
      assert Xor(a, k) == 2 * x + bit;
      if x == 0 && bit == 0 {
        assert a / 2 == k / 2;
        assert a == k;
      } else {
        assert (2 * x + bit) / 2 == x && (2 * x + bit) % 2 == bit;
      }
    }
  }

  /** A value exclusive-ored with itself is zero. */
  lemma {:induction false} XorSelf(a: nat)
    ensures Xor(a, a) == 0
    decreases a
  {
    if a != 0 {
      XorSelf(a / 2);
    }
  }

  /** `v & (2^k - 1)` keeps the low k bits: it is `v mod 2^k`. */
  lemma {:induction false} AndLowMask(v: nat, k: nat)
    ensures And(v, Pow2(k) - 1) == v % Pow2(k)
    decreases k
  {
    if k == 0 {
      assert And(v, 0) == 0;
    } else if v != 0 {
      var p := Pow2(k - 1);
      var m := Pow2(k) - 1;
      assert m == 2 * (p - 1) + 1;
      DivModUnique(m, 2, p - 1, 1);
      AndLowMask(v / 2, k - 1);
      assert And(v, m) == 2 * And(v / 2, p - 1) + (v % 2) * 1;
      DivModPow2(v, k);
    }
  }

  /** `v div 2^k` and `v mod 2^k` through the low bit and the rest. */
  lemma DivModPow2(v: nat, k: nat)
    requires k >= 1
    ensures v / Pow2(k) == (v / 2) / Pow2(k - 1)
    ensures v % Pow2(k) == 2 * ((v / 2) % Pow2(k - 1)) + v % 2
  {
    var p := Pow2(k - 1);
    var q := (v / 2) / p;
    var r := (v / 2) % p;
    assert v / 2 == q * p + r;
    assert v == q * (2 * p) + (2 * r + v % 2);
    assert 0 <= 2 * r + v % 2 < 2 * p;
    DivModUnique(v, 2 * p, q, 2 * r + v % 2);
  }

  /** Euclidean division has one quotient and one remainder. */
  lemma DivModUnique(v: int, d: int, q: int, r: int)
    requires d > 0 && 0 <= r < d && v == q * d + r
    ensures v / d == q && v % d == r
  {
    var q0, r0 := v / d, v % d;
    assert q0 * d + r0 == q * d + r;
    if q0 > q {
      MulAtLeast(q0 - q, d);
    } else if q0 < q {
      MulAtLeast(q - q0, d);
    }
  }

  lemma MulAtLeast(a: int, d: int)
    requires a >= 1 && d > 0
    ensures a * d >= d
  {
  }

  /** `a | (b << k)` is `a + b * 2^k` when `a` fits in the low k bits. */
  lemma {:induction false} OrDisjoint(a: nat, b: nat, k: nat)
    requires a < Pow2(k)
    ensures Or(a, b * Pow2(k)) == a + b * Pow2(k)
    decreases k
  {
    if k != 0 && a != 0 && b != 0 {
      var p := Pow2(k - 1);
      assert b * Pow2(k) == 2 * (b * p);
      assert (b * Pow2(k)) / 2 == b * p && (b * Pow2(k)) % 2 == 0;
      OrDisjoint(a / 2, b, k - 1);
    }
  }

  /** C's unsigned 64-bit `+`, `*` and `<<`: the result reduced modulo 2^64;
      and `>>`: the quotient by a power of two. */
  function Add64(a: Word64, b: Word64): Word64
  {
    (a + b) % TWO_64
  }

  function Mul64(a: Word64, b: Word64): Word64
  {
    (a * b) % TWO_64
  }

  function Shl64(v: Word64, k: nat): Word64
  {
    (v * Pow2(k)) % TWO_64
  }

  function Shr64(v: Word64, k: nat): Word64
  {
    ShrBound(v, k);
    v / Pow2(k)
  }

  lemma ShrBound(v: Word64, k: nat)
    ensures 0 <= v / Pow2(k) < TWO_64
  {
    DivLe(v, Pow2(k));
  }

  lemma DivLe(v: nat, d: nat)
    requires d >= 1
    ensures 0 <= v / d <= v
  {
    var q := v / d;
    assert q * d + v % d == v;
    MulGrows(q, d);
  }

  lemma MulGrows(q: nat, d: nat)
    requires d >= 1
    ensures q * d >= q
  {
    assert q * d == q * (d - 1) + q;
  }

  /** Word-sized results of the bitwise operators. */
  lemma XorWord32(a: Word32, b: Word32)
    ensures Xor(a, b) < TWO_32
  {
    Pow2Words();
    XorBound(a, b, 32);
  }

  lemma XorWord64(a: Word64, b: Word64)
    ensures Xor(a, b) < TWO_64
  {
    Pow2Words();
    XorBound(a, b, 64);
  }

  /** `v & 0xFFFFFFFF` is the low half of `v`. */
  lemma AndLow32(v: nat)
    ensures And(v, 0xFFFF_FFFF) == v % TWO_32
  {
    Pow2Words();
    AndLowMask(v, 32);
  }

  /** C's conversion of an integer to `unsigned int` / `unsigned long long`:
      the value congruent to it modulo 2^W (which Dafny's `%` returns). */
  function ToWord32(v: int): (r: Word32)
    ensures 0 <= v < TWO_32 ==> r == v
  {
    ModSmall(v, TWO_32);
    v % TWO_32
  }

  function ToWord64(v: int): (r: Word64)
    ensures 0 <= v < TWO_64 ==> r == v
  {
    ModSmall(v, TWO_64);
    v % TWO_64
  }

  // Modular arithmetic used by the proofs about the multiplications.

  lemma ModSmall(v: int, m: int)
    requires m > 0
    ensures 0 <= v < m ==> v % m == v
  {
    if 0 <= v < m {
      DivModUnique(v, m, 0, v);
    }
  }

  lemma ModAddMultiple(v: int, k: int, m: int)
    requires m > 0
    ensures (v + k * m) % m == v % m
  {
    DivModUnique(v + k * m, m, v / m + k, v % m);
  }

  lemma ModAddLeft(x: int, y: int, m: int)
    requires m > 0
    ensures (x % m + y) % m == (x + y) % m
  {
    ModAddMultiple(x % m + y, x / m, m);
    assert x % m + y + (x / m) * m == x + y;
  }

  lemma ModMulCong(a: int, b: int, c: int, m: int)
    requires m > 0 && a % m == b % m
    ensures (a * c) % m == (b * c) % m
  {
    var r := a % m;
    assert a == (a / m) * m + r;
    assert b == (b / m) * m + r;
    assert a * c == r * c + ((a / m) * c) * m;
    assert b * c == r * c + ((b / m) * c) * m;
    ModAddMultiple(r * c, (a / m) * c, m);
    ModAddMultiple(r * c, (b / m) * c, m);
  }

  /** A product of two 32-bit values, plus a 32-bit value, fits in 64 bits,
      so C's 64-bit `*` and `+` do not wrap on them. */
  lemma MulAddNoWrap(a: Word64, b: Word64, c: Word64)
    requires a < TWO_32 && b < TWO_32 && c < TWO_32
    ensures Mul64(b, c) == b * c
    ensures Add64(a, Mul64(b, c)) == a + b * c
  {
    var p := b * c;
    assert 0 <= p <= 0xFFFF_FFFE_0000_0001 by {
      MulLe(b, c, TWO_32 - 1);
    }
    ModSmall(p, TWO_64);
    ModSmall(a + p, TWO_64);
  }

  lemma MulLe(a: nat, b: nat, n: nat)
    requires a <= n && b <= n
    ensures 0 <= a * b <= n * n
  {
    assert a * b <= a * n;
    assert a * n <= n * n;
  }
}
