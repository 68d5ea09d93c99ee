/**
 * The byte assembly of the binary reader: how readToken, readShortLittle,
 * readIntLittle and readLongLittle combine the characters they read, and
 * tokenToBytes, which splits a token id back into its two bytes. Bytes are the
 * unsigned values b & 0xFF; a shifted byte OR-ed into place is the same as the
 * byte times a power of 256 added in, since the bytes occupy disjoint bits.
 */
module LittleEndian {
  /** An unsigned byte value, as (b & 0xFF) yields it. */
  type Byte = x: int | 0 <= x < 256

  /** (byte) reader.read() & 0xFF: the low eight bits of the character read,
    * and all ones for the -1 that marks the end of the input. */
  function ByteOfRead(r: int): (b: Byte)
    requires -1 <= r
  {
    if r == -1 then 0xFF else r % 256
  }

  /** The narrowing casts (short), (int) and (long): keep the low 16, 32 or
    * 64 bits and read them in two's complement. */
  function ToShort(x: int): (v: int)
    ensures -0x8000 <= v < 0x8000 && (v - x) % 0x1_0000 == 0
  {
    var m := x % 0x1_0000;
    if m < 0x8000 then m else m - 0x1_0000
  }

  function ToInt(x: int): (v: int)
    ensures -0x8000_0000 <= v < 0x8000_0000 && (v - x) % 0x1_0000_0000 == 0
  {
    var m := x % 0x1_0000_0000;
    if m < 0x8000_0000 then m else m - 0x1_0000_0000
  }

  function ToLong(x: int): (v: int)
    ensures -0x8000_0000_0000_0000 <= v < 0x8000_0000_0000_0000
    ensures (v - x) % 0x1_0000_0000_0000_0000 == 0
  {
    var m := x % 0x1_0000_0000_0000_0000;
    if m < 0x8000_0000_0000_0000 then m else m - 0x1_0000_0000_0000_0000
  }

  /** readShortLittle and readToken: (short) (((second & 0xFF) << 8) + (first & 0xFF)). */
  function ShortLittle(first: Byte, second: Byte): (s: int)
    ensures -0x8000 <= s < 0x8000
  {
    ToShort(second * 256 + first)
  }

  /** tokenToBytes: {(byte) (token & 0xff), (byte) ((token >> 8) & 0xff)}, as
    * unsigned byte values. The shift is arithmetic, which for a divisor of 256
    * is floor division. */
  function TokenToBytes(token: int): (r: seq<Byte>)
    ensures |r| == 2
  {
    [token % 256, (token / 256) % 256]
  }

  lemma DivMod256(q: int, r: int)
    requires 0 <= r < 256
    ensures (q * 256 + r) / 256 == q && (q * 256 + r) % 256 == r
  {
  }

  /** tokenToBytes undoes the assembly of a token from its two bytes. */
  lemma TokenToBytesOfShortLittle(first: Byte, second: Byte)
    ensures TokenToBytes(ShortLittle(first, second)) == [first, second]
  {
    var v := second * 256 + first;
    if v < 0x8000 {
      DivMod256(second, first);
    } else {
      assert ShortLittle(first, second) == (second - 256) * 256 + first;
      DivMod256(second - 256, first);
      assert (second - 256) % 256 == second;
    }
  }

  /** The assembly of two bytes undoes tokenToBytes on every short. */
  lemma ShortLittleOfTokenToBytes(token: int)
    requires -0x8000 <= token < 0x8000
    ensures ShortLittle(TokenToBytes(token)[0], TokenToBytes(token)[1]) == token
  {
    var lo, q := token % 256, token / 256;
    assert token == q * 256 + lo;
    if token >= 0 {
      assert 0 <= q < 128;
    } else {
      assert -128 <= q < 0;
      assert q % 256 == q + 256;
    }
  }

  /** The unsigned value of little-endian bytes: the first the least significant. */
  function Unsigned(b: seq<Byte>): nat
  {
    if b == [] then 0 else b[0] + 256 * Unsigned(b[1..])
  }

  /** readIntLittle: the int whose bits are the four bytes (Integer.toUnsignedLong
    * of it is Unsigned(b)). */
  function IntLittle(b: seq<Byte>): (x: int)
    requires |b| == 4
    ensures -0x8000_0000 <= x < 0x8000_0000
  {
    ToInt(Unsigned(b))
  }

  /** readLongLittle: the long whose bits are the eight bytes (Long.toUnsignedString
    * prints Unsigned(b)). */
  function LongLittle(b: seq<Byte>): (x: int)
    requires |b| == 8
    ensures -0x8000_0000_0000_0000 <= x < 0x8000_0000_0000_0000
  {
    ToLong(Unsigned(b))
  }

  /** 256 to the n. */
  function Power256(n: nat): (r: nat)
    ensures r >= 1
  {
    if n == 0 then 1 else 256 * Power256(n - 1)
  }

  /** n bytes hold an unsigned value below 256 to the n. */
  lemma {:induction false} UnsignedBound(b: seq<Byte>)
    ensures Unsigned(b) < Power256(|b|)
  {
    if b != [] {
      UnsignedBound(b[1..]);
    }
  }

  /** Integer.toUnsignedLong(readIntLittle()): the int's bits read back as
    * unsigned are the unsigned value of the four bytes. */
  lemma IntLittleUnsigned(b: seq<Byte>)
    requires |b| == 4
    ensures IntLittle(b) % 0x1_0000_0000 == Unsigned(b)
  {
    UnsignedBound(b);
    assert Power256(4) == 0x1_0000_0000;
  }

  /** Long.toUnsignedString(readLongLittle()): the long's bits read back as
    * unsigned are the unsigned value of the eight bytes. */
  lemma LongLittleUnsigned(b: seq<Byte>)
    requires |b| == 8
    ensures LongLittle(b) % 0x1_0000_0000_0000_0000 == Unsigned(b)
  {
    UnsignedBound(b);
    assert Power256(8) == 0x1_0000_0000_0000_0000;
  }
}
