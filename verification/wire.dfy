/** Byte-level helpers for the SOCKS5 codec: Java's signed `byte` and `short`
    views of network-order bytes, and the three outcomes of a decoder that
    reads from an accumulating buffer. */
module Wire {

  /** An octet as it travels on the wire (Java's `byte` read unsigned). */
  type byte = x: int | 0 <= x < 256

  /** Outcome of decoding the front of an accumulating buffer: a message and the
      bytes after it, "more bytes needed" (Java's BufferUnderflowException) or a
      malformed message (Java's IllegalArgumentException). */
  datatype Decoded<+T> = Parsed(msg: T, rest: seq<byte>) | Incomplete | Malformed

  /** The value Java sees for `byte b`: two's complement, -128..127. */
  function Signed8(b: byte): (r: int)
    ensures -128 <= r < 128
    ensures r >= 0 <==> b < 0x80
    ensures r == b || r == b - 256
  {
    if b < 0x80 then b else b - 256
  }

  /** The unsigned value of two network-order (big-endian) bytes. */
  function Unsigned16(hi: byte, lo: byte): (r: int)
    ensures 0 <= r < 0x1_0000
  {
    hi * 256 + lo
  }

  /** `ByteBuffer.getShort()` widened to `int`: sign extension of the two
      big-endian bytes. */
  function Signed16(hi: byte, lo: byte): (r: int)
    ensures -0x8000 <= r < 0x8000
    ensures r == Unsigned16(hi, lo) || r == Unsigned16(hi, lo) - 0x1_0000
    ensures r >= 0 <==> hi < 0x80
  {
    var u := Unsigned16(hi, lo);
    if u < 0x8000 then u else u - 0x1_0000
  }

  /** `ByteBuffer.putShort((short) x)`: the low 16 bits of `x`, big-endian.
      Dafny's `%` is Euclidean, which for a negative `x` gives the same low
      bits as Java's two's complement truncation. */
  function ShortBytes(x: int): (r: seq<byte>)
    ensures |r| == 2
    ensures Unsigned16(r[0], r[1]) == x % 0x1_0000
  {
    var u := x % 0x1_0000;
    [u / 256, u % 256]
  }

  /** Reading back what `ShortBytes` wrote yields `x` exactly when `x` fits a
      Java `short`; otherwise it yields `x`'s low 16 bits sign-extended. */
  lemma ShortBytesSigned(x: int)
    ensures 0 <= x < 0x8000 ==> Signed16(ShortBytes(x)[0], ShortBytes(x)[1]) == x
    ensures -0x8000 <= x < 0 ==> Signed16(ShortBytes(x)[0], ShortBytes(x)[1]) == x
    ensures 0x8000 <= x < 0x1_0000 ==> Signed16(ShortBytes(x)[0], ShortBytes(x)[1]) == x - 0x1_0000
  {
  }

  /** Every pair of bytes is what `ShortBytes` writes for the signed value
      Java reads from them. */
  lemma ShortBytesOfSigned16(hi: byte, lo: byte)
    ensures ShortBytes(Signed16(hi, lo)) == [hi, lo]
  {
    var u := Unsigned16(hi, lo);
    assert Signed16(hi, lo) % 0x1_0000 == u;
    assert u / 256 == hi && u % 256 == lo;
  }

  /** The four parts of a concatenation are its slices at the parts' bounds. */
  lemma SplitFour<T>(a: seq<T>, b: seq<T>, c: seq<T>, d: seq<T>)
    requires |c| == 2
    ensures var s := a + b + c + d;
      && s[..|a|] == a
      && s[|a|..|a| + |b|] == b
      && s[|a| + |b|] == c[0] && s[|a| + |b| + 1] == c[1]
      && s[|a| + |b| + 2..] == d
  {
  }

  /** A sequence is the concatenation of its slices at two cuts and the two
      elements after the second cut. */
  lemma JoinFour<T>(s: seq<T>, i: nat, j: nat)
    requires i <= j && j + 2 <= |s|
    ensures s == s[..i] + s[i..j] + s[j..j + 2] + s[j + 2..]
  {
  }
}
