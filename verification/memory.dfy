/** Memory as the hash reads it: bytes seen through a `char const*`. */
module Memory {
  import opened Bits

  /** The bit pattern of one `char` in memory. */
  type Byte = b: int | 0 <= b < 0x100

  const NUL: Byte := 0

  /** The value of a `char` whose bit pattern is `b`. This model takes plain
      `char` to be signed and two's complement (as on x86 and with MSVC), so
      patterns from 0x80 up stand for -128 .. -1. */
  function CharValue(b: Byte): (v: int)
    ensures -0x80 <= v < 0x80
    ensures v % 0x100 == b
    ensures b < 0x80 <==> v == b
  {
    if b < 0x80 then b else b - 0x100
  }

  /** The memory from a `char const*` onwards holds a terminating NUL, so
      reading up to it stays inside the object. */
  predicate Terminated(mem: seq<Byte>)
  {
    NUL in mem
  }

  /** The C string that starts at `mem[0]`: the bytes before the first NUL. */
  function CString(mem: seq<Byte>): (s: seq<Byte>)
    requires Terminated(mem)
    ensures NUL !in s
    ensures |s| < |mem| && mem[..|s|] == s && mem[|s|] == NUL
    decreases |mem|
  {
    if mem[0] == NUL then []
    else
      assert mem == [mem[0]] + mem[1..];
      [mem[0]] + CString(mem[1..])
  }

  /** The first NUL is the only place a C string can end: any NUL-free `s`
      followed by a NUL at the start of `mem` is `CString(mem)`. */
  lemma CStringUnique(mem: seq<Byte>, s: seq<Byte>)
    requires NUL !in s && |s| < |mem| && mem[..|s|] == s && mem[|s|] == NUL
    ensures CString(mem) == s
  {
  }

  /** What follows the terminator is never read. */
  lemma CStringIgnoresTail(mem: seq<Byte>, tail: seq<Byte>)
    requires Terminated(mem)
    ensures Terminated(mem + tail) && CString(mem + tail) == CString(mem)
  {
    var s := CString(mem);
    assert (mem + tail)[..|s|] == mem[..|s|];
    CStringUnique(mem + tail, s);
  }

  /** A string without NULs, stored with its terminator, reads back as
      itself (how a string literal is laid out in memory). */
  lemma CStringOfLiteral(s: seq<Byte>, tail: seq<Byte>)
    requires NUL !in s
    ensures Terminated(s + [NUL] + tail) && CString(s + [NUL] + tail) == s
  {
    assert (s + [NUL] + tail)[..|s|] == s;
    CStringUnique(s + [NUL] + tail, s);
  }

  /** The object representation of an unsigned integer `n` that occupies
      `size` bytes, on a little-endian host: lowest byte first. */
  function LittleEndian(n: nat, size: nat): (bytes: seq<Byte>)
    ensures |bytes| == size
  {
    if size == 0 then [] else [n % 0x100] + LittleEndian(n / 0x100, size - 1)
  }

  /** The unsigned integer whose little-endian representation is `bytes`. */
  function FromLittleEndian(bytes: seq<Byte>): nat
  {
    if bytes == [] then 0 else bytes[0] + 0x100 * FromLittleEndian(bytes[1..])
  }

  /** Every value that fits in `size` bytes is represented faithfully. */
  lemma {:induction false} LittleEndianRoundTrip(n: nat, size: nat)
    requires n < Pow2(8 * size)
    ensures FromLittleEndian(LittleEndian(n, size)) == n
    decreases size
  {
    if size == 0 {
    } else {
      assert Pow2(8) == 0x100;
      Pow2Add(8, 8 * (size - 1));
      assert 8 * size == 8 + 8 * (size - 1);
      DivBelow(n, 0x100, Pow2(8 * (size - 1)));
      LittleEndianRoundTrip(n / 0x100, size - 1);
    }
  }

  lemma DivBelow(n: nat, d: nat, q: nat)
    requires d > 0 && n < d * q
    ensures n / d < q
  {
  }
}
