# ct_hash in Dafny

ct_hash is a header-only C++ library that hashes values, C strings and
literals with FNV-1a, in a 32-bit (`h32`) and a 64-bit (`h64`) width. One
FNV-1a step exclusive-ors a byte into the running hash and multiplies by a
prime, modulo the word size; a hash is the left fold of that step over the
bytes, starting from a fixed offset basis. The library offers the step, a
recursive fold over a NUL-terminated string and a loop over a sized buffer
(namespace `ctHash_Internal`); the client functions `create_hash_32` /
`create_hash_64` for any value (its object representation) and for C strings;
and the literal operators `_h32` / `_h64`, which map the empty string literal
to the sentinel 0 (`INVALID_HASH_32` / `INVALID_HASH_64`). To avoid MSVC
warning C4307 (integral constant overflow) on a wrapping 64-bit product, the
64-bit step multiplies through `multiply_h64`, which assembles the product
from 32-bit halves none of whose intermediate products or sums wraps.

A string literal `"..."_h32` is always compiled to a call of the sized
operator `_h32(char const*, std::size_t)` with the literal's length; numeric
literals go to the `unsigned long long` and `long double` overloads. The
unsized raw operator `_h32(char const*)` (and its `_h64` twin) therefore runs
only when it is called explicitly. In particular `"\0abc"_h32` yields the
offset basis, not the sentinel.

The model is split as the header is:

- `Bits` — C's unsigned words as bounded naturals (`Word32`, `Word64`) and
  the operators the header applies to them: `&`, `|`, `^` defined on binary
  digits, `+`, `*`, `<<` modulo 2^64, `>>` as division, and the conversion of
  an integer to an unsigned type.
- `Memory` — the bytes behind a `char const*` (`seq<Byte>`), the value of a
  plain `char`, the C string a pointer designates, and the little-endian
  object representation of an integer.
- `Fold` — the left fold of a byte step, the common meaning of every
  multi-byte hash, with the lemmas the rest builds on.
- `CtHashInternal` — the steps, `lo`, `hi`, `multiply_h64`, the recursive
  string folds and the buffer loops, and the invertibility of the steps.
- `CtHash` — `create_hash_32` / `create_hash_64` and the literal operators.
- `Fnv1aVectors` — reference values worked out step by step.

Every recursive or looping hash is specified by `Fold.FoldLeft` over the
bytes it reads; the 32-bit and 64-bit steps are specified by the arithmetic
they perform (`(hash ^ promoted byte) * prime mod 2^W`), and `multiply_h64`
by the 64-bit product it must equal.

Conventions the header leaves to the platform, fixed here:

- plain `char` is signed and two's complement (x86, MSVC). A byte from 0x80
  up is therefore sign-extended before the exclusive or; for such bytes the
  result differs from the textbook FNV-1a step, which takes the byte as an
  unsigned octet (`Fnv1a32CharSignExtends`). For bytes below 0x80 the two
  agree.
- the host is little-endian, so an integer literal is hashed from its value's
  bytes, lowest first.

Two consequences of the code that a summary of FNV-1a would not suggest:
the hashed byte is the sign-extended `char`, not an octet; and 0 is not
reserved for the empty literal — the non-empty literal `"ppkttia"_h32` also
yields 0 (`Fnv1aVectors.NonEmptyLiteralHashesToSentinel32`), so a result of 0
does not prove that a literal was empty.

## Model

| member | source | states |
|---|---|---|
| `CtHashInternal.Fnv1a32Char` | hash.h:17-20 | the 32-bit step is `(hash ^ promoted char) * FNV_PRIME_32` modulo 2^32 (the product taken in `h64` and narrowed), and the textbook FNV-1a step for bytes below 0x80 |
| `CtHashInternal.Fnv1a32String` | hash.h:22-25 | the recursive fold over a C string equals the left fold of the step over the bytes before the first NUL, from the given hash |
| `CtHashInternal.Fnv1a32Buffer` | hash.h:27-34 | the buffer loop hashes exactly the first `num_bytes` bytes, NULs included, in index order: it returns their left fold |
| `CtHashInternal.Lo` | hash.h:40 | `val & 0xFFFFFFFF` is `val` modulo 2^32 |
| `CtHashInternal.Hi` | hash.h:41 | `val >> 32` is below 2^32 and, with `lo`, splits `val` as `lo + hi * 2^32` |
| `CtHashInternal.HiIsQuotient` | hash.h:41 | `hi(v)` is the quotient of `v` by 2^32 |
| `CtHashInternal.LoMult` | hash.h:44 | `lo_mult` is the product of the low halves modulo 2^32 |
| `CtHashInternal.Aux0` | hash.h:45 | `aux_0` is the carry out of the low product plus the first cross product, modulo 2^32 |
| `CtHashInternal.HiMult` | hash.h:46 | `hi_mult` is `aux_0` plus the second cross product, modulo 2^32 |
| `CtHashInternal.MultiplyH64` | hash.h:42-48 | the half-product assembly returns exactly the 64-bit unsigned product `lhs * rhs` modulo 2^64 |
| `CtHashInternal.MultiplyH64NoOverflow` | hash.h:44-46 | none of the 64-bit products and sums inside `multiply_h64` wraps: each is the exact mathematical value |
| `CtHashInternal.HalvesProduct` | hash.h:42-48 | schoolbook multiplication by 32-bit halves, dropping the high-by-high product, gives the low 64 bits of the product |
| `CtHashInternal.Fnv1a64Char` | hash.h:50-53 | the 64-bit step is `(hash ^ sign-extended char) * FNV_PRIME_64` modulo 2^64, and the textbook step for bytes below 0x80 |
| `CtHashInternal.Fnv1a64String` | hash.h:55-58 | the recursive 64-bit fold over a C string equals the left fold over the bytes before the first NUL |
| `CtHashInternal.Fnv1a64Buffer` | hash.h:60-67 | the 64-bit buffer loop returns the left fold over the first `num_bytes` bytes |
| `CtHashInternal.MulPrime32Injective` | hash.h:14 | multiplying by `FNV_PRIME_32` modulo 2^32 is injective (the prime is odd; 0x359C449B is its inverse) |
| `CtHashInternal.MulPrime64Injective` | hash.h:37 | multiplying by `FNV_PRIME_64` modulo 2^64 is injective (inverse 0xCE965057AFF6957B) |
| `CtHashInternal.MulPrime32Zero` | hash.h:14 | the product with the 32-bit prime is 0 modulo 2^32 exactly when the factor is 0 |
| `CtHashInternal.MulPrime64Zero` | hash.h:37 | the same for the 64-bit prime |
| `CtHashInternal.PromotionRange` | hash.h:19 | a promoted `char` is a word below 0x80 or one of the 128 largest words |
| `CtHashInternal.Fnv1a32CharSignExtends` | hash.h:17-20 | for every byte from 0x80 and every hash, the 32-bit step differs from the textbook (unsigned-octet) step |
| `CtHashInternal.Fnv1a64CharSignExtends` | hash.h:50-53 | the same for the 64-bit step |
| `CtHashInternal.Fnv1a32CharInjective` | hash.h:17-20 | two 32-bit steps that share the byte or the hash agree only when they share both |
| `CtHashInternal.Fnv1a64CharInjective` | hash.h:50-53 | the same for the 64-bit step |
| `CtHashInternal.Fnv1a32CharZero` | hash.h:17-20 | a 32-bit step yields 0 if and only if the hash equals the promoted byte |
| `CtHashInternal.Fnv1a64CharZero` | hash.h:50-53 | a 64-bit step yields 0 if and only if the hash equals the sign-extended byte |
| `CtHashInternal.Fnv1a32OneByteChange` | hash.h:27-34 | two inputs of equal length that differ in exactly one byte never have the same 32-bit hash, from any seed |
| `CtHashInternal.Fnv1a64OneByteChange` | hash.h:60-67 | the same for the 64-bit hash |
| `Fold.FoldConcat` | hash.h:22-25 | hashing a concatenation is hashing the second part seeded with the hash of the first |
| `Fold.FoldInjective` | hash.h:27-34 | with steps injective in the hash, different seeds stay different after any common bytes |
| `Fold.OneByteChangeIsSeen` | hash.h:27-34 | with steps injective in the hash and in the byte, one changed byte always changes the fold |
| `Memory.CharValue` | hash.h:17 | the value of a plain `char` lies in -128 .. 127, is congruent to its bit pattern modulo 256, and equals the pattern exactly below 0x80 |
| `Memory.CString` | hash.h:24 | the string a pointer designates is NUL-free, is a prefix of memory, and is followed by a NUL |
| `Memory.CStringIgnoresTail` | hash.h:24 | bytes after the terminator never affect the string |
| `Memory.CStringOfLiteral` | hash.h:117 | a NUL-free literal stored with its terminator reads back as itself |
| `Memory.LittleEndianRoundTrip` | hash.h:115 | the little-endian representation of a value that fits in `size` bytes decodes back to the value |
| `Bits.XorCancel` | hash.h:19 | exclusive or with the same mask twice restores the value |
| `Bits.XorLowBits` | hash.h:19 | exclusive or with a k-bit value leaves the bits from k up unchanged |
| `Bits.OrDisjoint` | hash.h:47 | or-ing `lo_mult` with `hi_mult` shifted left by 32 is `lo_mult + hi_mult * 2^32` when `lo_mult` is below 2^32 |
| `Bits.AndLowMask` | hash.h:40 | `v & (2^k - 1)` is `v` modulo 2^k |
| `Bits.MulAddNoWrap` | hash.h:45-46 | a product of two 32-bit values plus a 32-bit value fits in 64 bits |
| `CtHash.CreateHash32` | hash.h:77-81 | `create_hash_32(value)` is the 32-bit fold over the value's object representation from the offset basis |
| `CtHash.CreateHash64` | hash.h:83-87 | `create_hash_64(value)` is the 64-bit fold over the object representation |
| `CtHash.CreateHash32String` | hash.h:89-96 | the `char const` loop computes what the recursive 32-bit fold computes from the offset basis |
| `CtHash.CreateHash32MutableString` | hash.h:98-99 | the `char` specialisation computes the same as the `char const` one |
| `CtHash.CreateHash64String` | hash.h:101-108 | the 64-bit `char const` loop computes what the recursive 64-bit fold computes |
| `CtHash.CreateHash64MutableString` | hash.h:110-111 | the 64-bit `char` specialisation computes the same |
| `CtHash.LiteralH32Integer` | hash.h:115 | `n_h32` is the 32-bit fold over the eight little-endian bytes of `n` |
| `CtHash.LiteralH64Integer` | hash.h:121 | `n_h64` is the 64-bit fold over the eight little-endian bytes of `n` |
| `CtHash.IntegerLiteralBytes` | hash.h:115 | the eight bytes an integer literal is hashed from encode its value exactly |
| `CtHash.LiteralH32Char` | hash.h:116 | `'c'_h32` is one step from the offset basis and is never the sentinel, even for `'\0'` |
| `CtHash.LiteralH64Char` | hash.h:122 | `'c'_h64` is one step from the offset basis and is never the sentinel |
| `CtHash.LiteralH32String` | hash.h:117 | the unsized raw operator (reached only by an explicit call) gives the sentinel for an empty string and otherwise the fold of the bytes before the first NUL |
| `CtHash.LiteralH64String` | hash.h:123 | the same for `_h64` |
| `CtHash.LiteralH32StringSized` | hash.h:118 | the sized `_h32` gives the sentinel for size 0 and otherwise the fold of the bytes before the first NUL |
| `CtHash.LiteralH64StringSized` | hash.h:124 | the same for `_h64` |
| `CtHash.StringLiteralSentinel32` | hash.h:117-118 | for a NUL-free literal taken through the sized operator with its length: empty gives the sentinel although the fold of no bytes is not 0; non-empty gives the fold of its bytes; on such literals an explicit call of the unsized operator agrees |
| `CtHash.StringLiteralSentinel64` | hash.h:123-124 | the same for `_h64` |
| `CtHash.LeadingNulLiteral` | hash.h:117-118 | bytes starting with an embedded NUL (e.g. the literal `"\0abc"`): the sized operator, which the literal compiles to, returns the offset basis; only an explicit call of the unsized operator returns the sentinel |
| `Fnv1aVectors.EmptyString32` | hash.h:22-25 | the empty C string hashes to the offset basis 0x811C9DC5 |
| `Fnv1aVectors.LetterA32` | hash.h:17-25 | `"a"` hashes to 0xE40C292C under the 32-bit function |
| `Fnv1aVectors.LetterA64` | hash.h:50-58 | `"a"` hashes to 0xAF63DC4C8601EC8C under the 64-bit function |
| `Fnv1aVectors.NonEmptyLiteralHashesToSentinel32` | hash.h:118 | the non-empty literal `"ppkttia"_h32` yields 0, the sentinel |

## Left out

- The `long double` literal operators (hash.h:114 and hash.h:120): floating-point object representations are not modelled.
- `constexpr` evaluation: the model states what each function computes, not when a compiler may evaluate it.
- `create_hash_32(value)` / `create_hash_64(value)` take the value's object representation as a byte sequence (`repr`); how a type lays out its bytes, including padding, and the `reinterpret_cast` to `char const*` are not modelled.
- Platforms where plain `char` is unsigned, and big-endian hosts: the model fixes signed `char` and little-endian integers.
- Pointer validity is a precondition rather than a model of memory: string entry points require a NUL in the memory they are given (`Terminated`), and the buffer loops require `num_bytes` not to exceed it.
- The declarations at hash.h:71-75 of `create_hash_32` / `create_hash_64` for pointers to other types have no definition in the header and are not modelled.
- The demonstration program `ct_hash_test.cpp` is not part of this model.
- `CtHash.LiteralH32String`: states the sentinel for the empty string, not "only for the empty string", because a non-empty literal can also hash to 0.
- `CtHash.LiteralH32StringSized`: likewise not an if-and-only-if, for the same reason.
