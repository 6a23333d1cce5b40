/** Fixed-width machine values and their little-endian byte images.
    The on-disk format copies integers with memcpy in host byte order; this
    model fixes that order to little-endian. */
module Bytes {

  type byte = x: int | 0 <= x < 0x100
  type uint32 = x: int | 0 <= x < 0x1_0000_0000
  type uint64 = x: int | 0 <= x < 0x1_0000_0000_0000_0000
  type int32 = x: int | -0x8000_0000 <= x < 0x8000_0000

  /** n cut to its low 32 bits, as a conversion to uint32_t does it. */
  function Truncate32(n: nat): uint32
  {
    if n < 0x1_0000_0000 then n else Truncate32(n - 0x1_0000_0000)
  }

  /** Truncation is the remainder modulo 2^32. */
  lemma {:induction false} Truncate32IsMod(n: nat)
    ensures Truncate32(n) == n % 0x1_0000_0000
  {
    if n >= 0x1_0000_0000 {
      Truncate32IsMod(n - 0x1_0000_0000);
    }
  }

  /** 256 to the power n: the number of values n bytes can hold. */
  function Pow256(n: nat): nat
  {
    if n == 0 then 1 else 256 * Pow256(n - 1)
  }

  lemma Pow256Widths()
    ensures Pow256(4) == 0x1_0000_0000
    ensures Pow256(8) == 0x1_0000_0000_0000_0000
  {
    assert Pow256(2) == 0x1_0000;
    assert Pow256(4) == 0x1_0000_0000;
    assert Pow256(6) == 0x1_0000_0000_0000;
  }

  /** Byte i of x, counting from the least significant. */
  function Digit(x: nat, i: nat): byte
  {
    if i == 0 then x % 256 else Digit(x / 256, i - 1)
  }

  /** The n-byte little-endian image of x. */
  function LittleEndian(x: nat, n: nat): (s: seq<byte>)
    ensures |s| == n
  {
    seq(n, i requires 0 <= i < n => Digit(x, i))
  }

  /** The value whose little-endian image is s. */
  function FromLittleEndian(s: seq<byte>): (x: nat)
    ensures x < Pow256(|s|)
  {
    if s == [] then 0 else s[0] + 256 * FromLittleEndian(s[1..])
  }

  lemma {:induction false} LittleEndianRoundTrip(x: nat, n: nat)
    requires x < Pow256(n)
    ensures FromLittleEndian(LittleEndian(x, n)) == x
  {
    if n > 0 {
      LittleEndianRoundTrip(x / 256, n - 1);
      assert LittleEndian(x, n)[1..] == LittleEndian(x / 256, n - 1);
    }
  }

  /** Four bytes, as memcpy of a uint32_t or an int's bit pattern writes them. */
  function Uint32Bytes(x: uint32): (s: seq<byte>)
    ensures |s| == 4
  {
    LittleEndian(x, 4)
  }

  /** Eight bytes, as memcpy of a size_t or a double's bit pattern writes them. */
  function Uint64Bytes(x: uint64): (s: seq<byte>)
    ensures |s| == 8
  {
    LittleEndian(x, 8)
  }

  /** Reading four bytes back into a uint32_t. */
  function Uint32Of(s: seq<byte>): (x: uint32)
    requires |s| == 4
    ensures Uint32Bytes(x) == s
  {
    Pow256Widths();
    var x := FromLittleEndian(s);
    LittleEndianRoundTrip(x, 4);
    LittleEndianInjective(Uint32Bytes(x), s);
    x
  }

  /** Reading eight bytes back into a size_t or a double's bit pattern. */
  function Uint64Of(s: seq<byte>): (x: uint64)
    requires |s| == 8
    ensures Uint64Bytes(x) == s
  {
    Pow256Widths();
    var x := FromLittleEndian(s);
    LittleEndianRoundTrip(x, 8);
    LittleEndianInjective(Uint64Bytes(x), s);
    x
  }

  /** Reading back the four bytes of x gives x. */
  lemma Uint32RoundTrip(x: uint32)
    ensures Uint32Of(Uint32Bytes(x)) == x
  {
    Pow256Widths();
    LittleEndianRoundTrip(x, 4);
  }

  /** Reading back the eight bytes of x gives x. */
  lemma Uint64RoundTrip(x: uint64)
    ensures Uint64Of(Uint64Bytes(x)) == x
  {
    Pow256Widths();
    LittleEndianRoundTrip(x, 8);
  }

  /** Two byte strings of one length with the same value are equal. */
  lemma {:induction false} LittleEndianInjective(s: seq<byte>, t: seq<byte>)
    requires |s| == |t| && FromLittleEndian(s) == FromLittleEndian(t)
    ensures s == t
  {
    if s != [] {
      var a, b := FromLittleEndian(s[1..]), FromLittleEndian(t[1..]);
      assert s[0] + 256 * a == t[0] + 256 * b;
      assert s[0] == t[0] && a == b;
      LittleEndianInjective(s[1..], t[1..]);
      assert s == [s[0]] + s[1..];
      assert t == [t[0]] + t[1..];
    }
  }

  /** b with the bytes from index at on replaced by src, as memcpy into a
      buffer of fixed size leaves it. */
  function Spliced(b: seq<byte>, at: nat, src: seq<byte>): (r: seq<byte>)
    requires at + |src| <= |b|
    ensures |r| == |b|
  {
    b[..at] + src + b[at + |src|..]
  }

  /** After a splice, the bytes before it and src read back, and everything
      from k on past the splice is untouched. */
  lemma SplicedParts(b: seq<byte>, at: nat, src: seq<byte>, k: nat)
    requires at + |src| <= k <= |b|
    ensures Spliced(b, at, src)[..at + |src|] == b[..at] + src
    ensures Spliced(b, at, src)[k..] == b[k..]
  {
    var r := Spliced(b, at, src);
    assert r[..at + |src|] == b[..at] + src;
    assert r[k..] == b[k..] by {
      assert forall j :: k <= j < |b| ==> r[j] == b[j];
    }
  }

  /** Two adjacent copies are one copy of their concatenation. */
  lemma SplicedTwice(b: seq<byte>, at: nat, x: seq<byte>, y: seq<byte>)
    requires at + |x| + |y| <= |b|
    ensures Spliced(Spliced(b, at, x), at + |x|, y) == Spliced(b, at, x + y)
  {
    var r := Spliced(b, at, x);
    assert r[..at + |x|] == b[..at] + x;
    assert r[at + |x| + |y|..] == b[at + |x| + |y|..];
  }

  /** The two's-complement bit pattern of a 32-bit int: the one uint32
      congruent to it modulo 2^32. */
  function Int32Bits(v: int32): (u: uint32)
    ensures u % 0x1_0000_0000 == v % 0x1_0000_0000
  {
    if v < 0 then v + 0x1_0000_0000 else v
  }

  /** The 32-bit int whose two's-complement bit pattern is u. */
  function Int32FromBits(u: uint32): (v: int32)
    ensures Int32Bits(v) == u
  {
    if u >= 0x8000_0000 then u - 0x1_0000_0000 else u
  }

  /** memcpy of an int into four bytes and back gives the same int. */
  lemma Int32BitsRoundTrip(v: int32)
    ensures Int32FromBits(Int32Bits(v)) == v
  {
  }
}
