/** Bytes of a glTF binary buffer and the little-endian integers read from them. */
module Bytes {

  type Byte = b: nat | b < 256

  /** A raw 32-bit word: an unsigned 32-bit index, or the bit pattern of an
      IEEE-754 float32 component, which the model never interprets. */
  type Word32 = w: nat | w < 0x1_0000_0000

  /** `struct.unpack('<H', buf[o:o+2])`: unsigned 16-bit, least significant byte first. */
  function U16LE(buf: seq<Byte>, o: nat): (v: nat)
    requires o + 2 <= |buf|
    ensures v <= 0xFFFF
  {
    var lo: nat, hi: nat := buf[o], buf[o + 1];
    lo + 256 * hi
  }

  /** `struct.unpack('<I', buf[o:o+4])`: unsigned 32-bit, least significant byte first.
      The same four bytes are read for one float32 component of `'<f'`. */
  function U32LE(buf: seq<Byte>, o: nat): (w: Word32)
    requires o + 4 <= |buf|
    ensures w == U16LE(buf, o) + 0x1_0000 * U16LE(buf, o + 2)
  {
    var b0: nat, b1: nat, b2: nat, b3: nat := buf[o], buf[o + 1], buf[o + 2], buf[o + 3];
    b0 + 0x100 * (b1 + 0x100 * (b2 + 0x100 * b3))
  }

  /** The two bytes a writer stores for an unsigned 16-bit value. */
  function EncodeU16(v: nat): (b: seq<Byte>)
    requires v <= 0xFFFF
    ensures |b| == 2
  {
    [v % 256, v / 256]
  }

  /** The four bytes a writer stores for a 32-bit word. */
  function EncodeU32(w: Word32): (b: seq<Byte>)
    ensures |b| == 4
  {
    [w % 0x100, w / 0x100 % 0x100, w / 0x100 / 0x100 % 0x100, w / 0x100 / 0x100 / 0x100]
  }

  /** Decoding what was encoded gives the value back. */
  lemma U16RoundTrip(v: nat)
    requires v <= 0xFFFF
    ensures U16LE(EncodeU16(v), 0) == v
  {
  }

  /** Every two-byte window is the encoding of the value decoded from it:
      decoding loses nothing. */
  lemma U16Exact(buf: seq<Byte>, o: nat)
    requires o + 2 <= |buf|
    ensures EncodeU16(U16LE(buf, o)) == buf[o..o + 2]
  {
  }

  lemma U32RoundTrip(w: Word32)
    ensures U32LE(EncodeU32(w), 0) == w
  {
  }

  lemma U32Exact(buf: seq<Byte>, o: nat)
    requires o + 4 <= |buf|
    ensures EncodeU32(U32LE(buf, o)) == buf[o..o + 4]
  {
    var b0: nat, b1: nat, b2: nat, b3: nat := buf[o], buf[o + 1], buf[o + 2], buf[o + 3];
    var w2: nat := b2 + 0x100 * b3;
    var w1: nat := b1 + 0x100 * w2;
    Digit(w1, b0);
    Digit(w2, b1);
    Digit(b3, b2);
  }

  /** Splitting off the least significant base-256 digit. */
  lemma Digit(q: nat, r: nat)
    requires r < 0x100
    ensures (r + 0x100 * q) % 0x100 == r && (r + 0x100 * q) / 0x100 == q
  {
  }
}
