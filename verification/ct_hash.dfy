/** The client interface of the library: `create_hash_32` / `create_hash_64`
    for values and for C strings, and the `_h32` / `_h64` literal operators. */
module CtHash {
  import opened Bits
  import opened Memory
  import opened Fold
  import opened CtHashInternal

  /** The sentinel the string literal operators return for an empty string. */
  const INVALID_HASH_32: H32 := 0
  const INVALID_HASH_64: H64 := 0

  /** The number of bytes of an `unsigned long long`. */
  const SIZEOF_ULL: nat := 8

  // ---------------------------------------------------------------------
  // create_hash_32 / create_hash_64 of a value

  /** `create_hash_32(value)`: the buffer fold over the value's object
      representation (its `sizeof(value)` bytes), from the offset basis. */
  method CreateHash32(repr: seq<Byte>) returns (r: H32)
    ensures r == FoldLeft(Fnv1a32Char, repr, FNV_OFFSET_BASIS_32)
  {
    r := Fnv1a32Buffer(repr, |repr|, FNV_OFFSET_BASIS_32);
    assert repr[..|repr|] == repr;
  }

  method CreateHash64(repr: seq<Byte>) returns (r: H64)
    ensures r == FoldLeft(Fnv1a64Char, repr, FNV_OFFSET_BASIS_64)
  {
    r := Fnv1a64Buffer(repr, |repr|, FNV_OFFSET_BASIS_64);
    assert repr[..|repr|] == repr;
  }

  // ---------------------------------------------------------------------
  // create_hash_32 / create_hash_64 of a C string

  /** The `char const` specialisation: a loop that advances the string
      pointer (here the offset `p` into `mem`) until it reaches the NUL.
      It computes what the recursive fold computes from the offset basis. */
  method CreateHash32String(mem: seq<Byte>) returns (r: H32)
    requires Terminated(mem)
    ensures r == Fnv1a32String(mem, FNV_OFFSET_BASIS_32)
  {
    ghost var s := CString(mem);
    r := FNV_OFFSET_BASIS_32;
    var p := 0;
    assert mem[..p] == [];
    while mem[p] != NUL
      invariant p <= |s|
      invariant r == FoldLeft(Fnv1a32Char, mem[..p], FNV_OFFSET_BASIS_32)
      decreases |mem| - p
    {
      FoldPrefix(Fnv1a32Char, mem, p, FNV_OFFSET_BASIS_32);
      r := Fnv1a32Char(mem[p], r);
      p := p + 1;
    }
    assert mem[..p] == s;
  }

  /** The `char` specialisation delegates to the `char const` one. */
  method CreateHash32MutableString(mem: seq<Byte>) returns (r: H32)
    requires Terminated(mem)
    ensures r == Fnv1a32String(mem, FNV_OFFSET_BASIS_32)
  {
    r := CreateHash32String(mem);
  }

  method CreateHash64String(mem: seq<Byte>) returns (r: H64)
    requires Terminated(mem)
    ensures r == Fnv1a64String(mem, FNV_OFFSET_BASIS_64)
  {
    ghost var s := CString(mem);
    r := FNV_OFFSET_BASIS_64;
    var p := 0;
    assert mem[..p] == [];
    while mem[p] != NUL
      invariant p <= |s|
      invariant r == FoldLeft(Fnv1a64Char, mem[..p], FNV_OFFSET_BASIS_64)
      decreases |mem| - p
    {
      FoldPrefix(Fnv1a64Char, mem, p, FNV_OFFSET_BASIS_64);
      r := Fnv1a64Char(mem[p], r);
      p := p + 1;
    }
    assert mem[..p] == s;
  }

  method CreateHash64MutableString(mem: seq<Byte>) returns (r: H64)
    requires Terminated(mem)
    ensures r == Fnv1a64String(mem, FNV_OFFSET_BASIS_64)
  {
    r := CreateHash64String(mem);
  }

  // ---------------------------------------------------------------------
  // Literal operators

  /** `n_h32`: the hash of the eight bytes of the `unsigned long long`. */
  method LiteralH32Integer(n: H64) returns (r: H32)
    ensures r == FoldLeft(Fnv1a32Char, LittleEndian(n, SIZEOF_ULL), FNV_OFFSET_BASIS_32)
  {
    r := CreateHash32(LittleEndian(n, SIZEOF_ULL));
  }

  method LiteralH64Integer(n: H64) returns (r: H64)
    ensures r == FoldLeft(Fnv1a64Char, LittleEndian(n, SIZEOF_ULL), FNV_OFFSET_BASIS_64)
  {
    r := CreateHash64(LittleEndian(n, SIZEOF_ULL));
  }

  /** The bytes an integer literal is hashed from are its value. */
  lemma IntegerLiteralBytes(n: H64)
    ensures |LittleEndian(n, SIZEOF_ULL)| == SIZEOF_ULL
    ensures FromLittleEndian(LittleEndian(n, SIZEOF_ULL)) == n
  {
    Pow2Words();
    LittleEndianRoundTrip(n, SIZEOF_ULL);
  }

  /** `'c'_h32`: one step from the offset basis. Even for `'\0'` this is not
      the sentinel, nor for any other character. */
  function LiteralH32Char(c: Byte): (r: H32)
    ensures r == FoldLeft(Fnv1a32Char, [c], FNV_OFFSET_BASIS_32)
    ensures r != INVALID_HASH_32
  {
    Fnv1a32CharZero(c, FNV_OFFSET_BASIS_32);
    PromotionRange(c);
    assert [c][1..] == [];
    Fnv1a32Char(c, FNV_OFFSET_BASIS_32)
  }

  function LiteralH64Char(c: Byte): (r: H64)
    ensures r == FoldLeft(Fnv1a64Char, [c], FNV_OFFSET_BASIS_64)
    ensures r != INVALID_HASH_64
  {
    Fnv1a64CharZero(c, FNV_OFFSET_BASIS_64);
    PromotionRange(c);
    assert [c][1..] == [];
    Fnv1a64Char(c, FNV_OFFSET_BASIS_64)
  }

  /** The raw literal operator `_h32(char const*)`, which takes no size: the
      sentinel when the first byte is NUL, and otherwise the fold of the
      bytes before the first NUL. A string literal `"..."_h32` never reaches
      it (the compiler calls the sized form below); it runs only when called
      explicitly. */
  function LiteralH32String(mem: seq<Byte>): (r: H32)
    requires Terminated(mem)
    ensures CString(mem) == [] ==> r == INVALID_HASH_32
    ensures CString(mem) != [] ==> r == FoldLeft(Fnv1a32Char, CString(mem), FNV_OFFSET_BASIS_32)
  {
    if mem[0] == NUL then INVALID_HASH_32 else Fnv1a32String(mem, FNV_OFFSET_BASIS_32)
  }

  function LiteralH64String(mem: seq<Byte>): (r: H64)
    requires Terminated(mem)
    ensures CString(mem) == [] ==> r == INVALID_HASH_64
    ensures CString(mem) != [] ==> r == FoldLeft(Fnv1a64Char, CString(mem), FNV_OFFSET_BASIS_64)
  {
    if mem[0] == NUL then INVALID_HASH_64 else Fnv1a64String(mem, FNV_OFFSET_BASIS_64)
  }

  /** `"..."_h32`, the form every string literal is compiled to, with the
      literal's length: the length decides only whether the sentinel is
      returned; what is hashed still ends at the first NUL. */
  function LiteralH32StringSized(mem: seq<Byte>, size: nat): (r: H32)
    requires Terminated(mem)
    ensures size == 0 ==> r == INVALID_HASH_32
    ensures size != 0 ==> r == FoldLeft(Fnv1a32Char, CString(mem), FNV_OFFSET_BASIS_32)
  {
    if size == 0 then INVALID_HASH_32 else Fnv1a32String(mem, FNV_OFFSET_BASIS_32)
  }

  function LiteralH64StringSized(mem: seq<Byte>, size: nat): (r: H64)
    requires Terminated(mem)
    ensures size == 0 ==> r == INVALID_HASH_64
    ensures size != 0 ==> r == FoldLeft(Fnv1a64Char, CString(mem), FNV_OFFSET_BASIS_64)
  {
    if size == 0 then INVALID_HASH_64 else Fnv1a64String(mem, FNV_OFFSET_BASIS_64)
  }

  // ---------------------------------------------------------------------
  // Properties of the entry points

  /** The sentinel rule for a string literal `s` (no NULs inside, laid out
      with its terminator): the empty literal gives the sentinel, although
      the fold of no bytes is the non-zero offset basis; any other literal
      gives the fold of its bytes, which is also what the run-time buffer
      path computes for the same bytes. */
  lemma StringLiteralSentinel32(s: seq<Byte>)
    requires NUL !in s
    ensures s == [] ==> LiteralH32StringSized(s + [NUL], |s|) == INVALID_HASH_32
    ensures s == [] ==> FoldLeft(Fnv1a32Char, s, FNV_OFFSET_BASIS_32) != INVALID_HASH_32
    ensures s != [] ==> LiteralH32StringSized(s + [NUL], |s|) == FoldLeft(Fnv1a32Char, s, FNV_OFFSET_BASIS_32)
    ensures LiteralH32StringSized(s + [NUL], |s|) == LiteralH32String(s + [NUL])
  {
    CStringOfLiteral(s, []);
    assert s + [NUL] + [] == s + [NUL];
  }

  lemma StringLiteralSentinel64(s: seq<Byte>)
    requires NUL !in s
    ensures s == [] ==> LiteralH64StringSized(s + [NUL], |s|) == INVALID_HASH_64
    ensures s == [] ==> FoldLeft(Fnv1a64Char, s, FNV_OFFSET_BASIS_64) != INVALID_HASH_64
    ensures s != [] ==> LiteralH64StringSized(s + [NUL], |s|) == FoldLeft(Fnv1a64Char, s, FNV_OFFSET_BASIS_64)
    ensures LiteralH64StringSized(s + [NUL], |s|) == LiteralH64String(s + [NUL])
  {
    CStringOfLiteral(s, []);
    assert s + [NUL] + [] == s + [NUL];
  }

  /** Bytes that start with an embedded NUL, such as the literal
      `"\0abc"`: the sized operator (what the literal compiles to) sees a
      non-zero length, hashes no bytes and returns the offset basis; only an
      explicit call of the unsized operator returns the sentinel. */
  lemma LeadingNulLiteral(tail: seq<Byte>)
    ensures LiteralH32StringSized([NUL] + tail + [NUL], |tail| + 1) == FNV_OFFSET_BASIS_32
    ensures LiteralH32String([NUL] + tail + [NUL]) == INVALID_HASH_32
    ensures LiteralH64StringSized([NUL] + tail + [NUL], |tail| + 1) == FNV_OFFSET_BASIS_64
    ensures LiteralH64String([NUL] + tail + [NUL]) == INVALID_HASH_64
  {
  }
}
