/** Reference values of the hash functions, worked out step by step: the
    published FNV-1a values for "" and "a", and a non-empty string literal
    that hashes to the sentinel. */
module Fnv1aVectors {
  import opened Bits
  import opened Memory
  import opened Fold
  import opened CtHashInternal
  import opened CtHash

  /** The empty string hashes to the offset basis. */
  lemma EmptyString32()
    ensures Fnv1a32String([NUL], FNV_OFFSET_BASIS_32) == 0x811C_9DC5
  {
  }

  /** "a" hashes to 0xE40C292C under the 32-bit function. */
  lemma LetterA32()
    ensures Fnv1a32String([0x61, NUL], FNV_OFFSET_BASIS_32) == 0xE40C_292C
  {
    assert Xor(0x3, 0x1) == 0x2;
    assert Xor(0x6, 0x3) == 0x5;
    assert Xor(0xC, 0x6) == 0xA;
    assert Xor(0x18, 0xC) == 0x14;
    assert Xor(0x31, 0x18) == 0x29;
    assert Xor(0x62, 0x30) == 0x52;
    assert Xor(0xC5, 0x61) == 0xA4;
    Fnv1a32CharValue(0x61, FNV_OFFSET_BASIS_32, 0x81_1C9D, 0xC5, 0xA4, 0x81_1D68, 0xE40C_292C);
    CStringOfLiteral([0x61], []);
    assert [0x61] + [NUL] + [] == [0x61, NUL];
  }

  /** "a" hashes to 0xAF63DC4C8601EC8C under the 64-bit function. */
  lemma LetterA64()
    ensures Fnv1a64String([0x61, NUL], FNV_OFFSET_BASIS_64) == 0xAF63_DC4C_8601_EC8C
  {
    assert Xor(0x1, 0x3) == 0x2;
    assert Xor(0x2, 0x6) == 0x4;
    assert Xor(0x4, 0xC) == 0x8;
    assert Xor(0x9, 0x18) == 0x11;
    assert Xor(0x12, 0x30) == 0x22;
    assert Xor(0x25, 0x61) == 0x44;
    Fnv1a64CharValue(0x61, FNV_OFFSET_BASIS_64, 0xCB_F29C_E484_2223, 0x25, 0x44, 0xCB_F29C_E5DE, 0xAF63_DC4C_8601_EC8C);
    CStringOfLiteral([0x61], []);
    assert [0x61] + [NUL] + [] == [0x61, NUL];
  }

  /** The sentinel is not reserved: the non-empty literal "ppkttia" hashes
      to 0 under `_h32`, so a result of 0 does not show that a literal was
      empty. */
  lemma NonEmptyLiteralHashesToSentinel32()
    ensures LiteralH32StringSized([0x70, 0x70, 0x6B, 0x74, 0x74, 0x69, 0x61, NUL], 7) == INVALID_HASH_32
  {
    var s: seq<Byte> := [0x70, 0x70, 0x6B, 0x74, 0x74, 0x69, 0x61];
    PpkttiaStep0();
    CStringOfLiteral(s, []);
    assert s + [NUL] + [] == [0x70, 0x70, 0x6B, 0x74, 0x74, 0x69, 0x61, NUL];
  }

  /** `PpkttiaStep`k: the last 7 - k bytes of "ppkttia", from the hash that
      the first k bytes reach, hash to 0; each lemma takes one step. */
  lemma PpkttiaStep0()
    ensures FoldLeft(Fnv1a32Char, [0x70, 0x70, 0x6B, 0x74, 0x74, 0x69, 0x61], 0x811C_9DC5) == 0
  {
    assert Xor(0x3, 0x1) == 0x2;
    assert Xor(0x6, 0x3) == 0x5;
    assert Xor(0xC, 0x7) == 0xB;
    assert Xor(0x18, 0xE) == 0x16;
    assert Xor(0x31, 0x1C) == 0x2D;
    assert Xor(0x62, 0x38) == 0x5A;
    assert Xor(0xC5, 0x70) == 0xB5;
    Fnv1a32CharValue(0x70, 0x811C_9DC5, 0x81_1C9D, 0xC5, 0xB5, 0x81_1D68, 0xF50C_43EF);
    PpkttiaStep1();
  }

  lemma PpkttiaStep1()
    ensures FoldLeft(Fnv1a32Char, [0x70, 0x6B, 0x74, 0x74, 0x69, 0x61], 0xF50C_43EF) == 0
  {
    assert Xor(0x3, 0x1) == 0x2;
    assert Xor(0x7, 0x3) == 0x4;
    assert Xor(0xE, 0x7) == 0x9;
    assert Xor(0x1D, 0xE) == 0x13;
    assert Xor(0x3B, 0x1C) == 0x27;
    assert Xor(0x77, 0x38) == 0x4F;
    assert Xor(0xEF, 0x70) == 0x9F;
    Fnv1a32CharValue(0x70, 0xF50C_43EF, 0xF5_0C43, 0xEF, 0x9F, 0xF5_0DC5, 0x614E_734D);
    PpkttiaStep2();
  }

  lemma PpkttiaStep2()
    ensures FoldLeft(Fnv1a32Char, [0x6B, 0x74, 0x74, 0x69, 0x61], 0x614E_734D) == 0
  {
    assert Xor(0x1, 0x1) == 0x0;
    assert Xor(0x2, 0x3) == 0x1;
    assert Xor(0x4, 0x6) == 0x2;
    assert Xor(0x9, 0xD) == 0x4;
    assert Xor(0x13, 0x1A) == 0x9;
    assert Xor(0x26, 0x35) == 0x13;
    assert Xor(0x4D, 0x6B) == 0x26;
    Fnv1a32CharValue(0x6B, 0x614E_734D, 0x61_4E73, 0x4D, 0x26, 0x61_4F0C, 0x547F_44D2);
    PpkttiaStep3();
  }

  lemma PpkttiaStep3()
    ensures FoldLeft(Fnv1a32Char, [0x74, 0x74, 0x69, 0x61], 0x547F_44D2) == 0
  {
    assert Xor(0x3, 0x1) == 0x2;
    assert Xor(0x6, 0x3) == 0x5;
    assert Xor(0xD, 0x7) == 0xA;
    assert Xor(0x1A, 0xE) == 0x14;
    assert Xor(0x34, 0x1D) == 0x29;
    assert Xor(0x69, 0x3A) == 0x53;
    assert Xor(0xD2, 0x74) == 0xA6;
    Fnv1a32CharValue(0x74, 0x547F_44D2, 0x54_7F44, 0xD2, 0xA6, 0x54_7FC9, 0xAA59_1152);
    PpkttiaStep4();
  }

  lemma PpkttiaStep4()
    ensures FoldLeft(Fnv1a32Char, [0x74, 0x69, 0x61], 0xAA59_1152) == 0
  {
    assert Xor(0x1, 0x1) == 0x0;
    assert Xor(0x2, 0x3) == 0x1;
    assert Xor(0x5, 0x7) == 0x2;
    assert Xor(0xA, 0xE) == 0x4;
    assert Xor(0x14, 0x1D) == 0x9;
    assert Xor(0x29, 0x3A) == 0x13;
    assert Xor(0x52, 0x74) == 0x26;
    Fnv1a32CharValue(0x74, 0xAA59_1152, 0xAA_5911, 0x52, 0x26, 0xAA_5A1D, 0x5035_FED2);
    PpkttiaStep5();
  }

  lemma PpkttiaStep5()
    ensures FoldLeft(Fnv1a32Char, [0x69, 0x61], 0x5035_FED2) == 0
  {
    assert Xor(0x3, 0x1) == 0x2;
    assert Xor(0x6, 0x3) == 0x5;
    assert Xor(0xD, 0x6) == 0xB;
    assert Xor(0x1A, 0xD) == 0x17;
    assert Xor(0x34, 0x1A) == 0x2E;
    assert Xor(0x69, 0x34) == 0x5D;
    assert Xor(0xD2, 0x69) == 0xBB;
    Fnv1a32CharValue(0x69, 0x5035_FED2, 0x50_35FE, 0xD2, 0xBB, 0x50_367D, 0x61);
    PpkttiaStep6();
  }

  lemma PpkttiaStep6()
    ensures FoldLeft(Fnv1a32Char, [0x61], 0x61) == 0
  {
    assert Xor(0x1, 0x1) == 0x0;
    assert Xor(0x3, 0x3) == 0x0;
    assert Xor(0x6, 0x6) == 0x0;
    assert Xor(0xC, 0xC) == 0x0;
    assert Xor(0x18, 0x18) == 0x0;
    assert Xor(0x30, 0x30) == 0x0;
    assert Xor(0x61, 0x61) == 0x0;
    Fnv1a32CharValue(0x61, 0x61, 0x0, 0x61, 0x00, 0x0, 0x0);
  }

  /** One 32-bit step on an ASCII byte, from the decomposition of the hash
      into its high bytes `hi` and low byte `lo` and of the product into
      quotient `q` and remainder `r` by 2^32. */
  lemma Fnv1a32CharValue(c: Byte, h: H32, hi: nat, lo: nat, x: nat, q: nat, r: H32)
    requires c < 0x80 && lo < 0x100 && h == hi * 0x100 + lo
    requires Xor(lo, c) == x
    requires (hi * 0x100 + x) * FNV_PRIME_32 == q * TWO_32 + r
    ensures Fnv1a32Char(c, h) == r
  {
    var y := Xor(h, c);
    assert y == hi * 0x100 + x by {
      DivModUnique(h, 0x100, hi, lo);
      XorLowByte(h, c);
    }
    DivModUnique(y * FNV_PRIME_32, TWO_32, q, r);
  }

  lemma Fnv1a64CharValue(c: Byte, h: H64, hi: nat, lo: nat, x: nat, q: nat, r: H64)
    requires c < 0x80 && lo < 0x100 && h == hi * 0x100 + lo
    requires Xor(lo, c) == x
    requires (hi * 0x100 + x) * FNV_PRIME_64 == q * TWO_64 + r
    ensures Fnv1a64Char(c, h) == r
  {
    var y := Xor(h, c);
    assert y == hi * 0x100 + x by {
      DivModUnique(h, 0x100, hi, lo);
      XorLowByte(h, c);
    }
    DivModUnique(y * FNV_PRIME_64, TWO_64, q, r);
  }
}
