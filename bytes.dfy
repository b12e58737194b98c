/**
 * Bytes as Swift's `UInt8`, the 16-bit integers of the wire format, the bit
 * operations the code applies to them, and UTF-8 well-formedness of a topic.
 */
module Bytes {

  /** A Swift `UInt8`. */
  type Byte = x: int | 0 <= x < 0x100

  /** A Swift `UInt16`, the type of a packet identifier. */
  type UInt16 = x: int | 0 <= x < 0x1_0000

  function Min(a: int, b: int): int { if a <= b then a else b }

  /**
   * The eight bits of a byte, built from its value one bit at a time, most
   * significant first.
   */
  function Bits(x: Byte): bv8
    decreases x
  {
    if x == 0 then 0 else (Bits(x / 2) << 1) | (if x % 2 == 1 then 1 else 0)
  }

  /** Shifting a bit in below seven bits doubles their value and adds the bit. */
  lemma ShiftInBit(w: bv8, bit: bv8)
    requires w < 128 && bit < 2
    ensures ((w << 1) | bit) as int == 2 * (w as int) + bit as int
  {}

  /** `Bits` is the binary form of the byte: read back as a number it is the byte. */
  lemma {:induction false} BitsValue(x: Byte)
    ensures Bits(x) as int == x
    decreases x
  {
    if x > 0 {
      BitsValue(x / 2);
      ShiftInBit(Bits(x / 2), if x % 2 == 1 then 1 else 0);
    }
  }

  /** `a & b` on two bytes. */
  function And(a: Byte, b: Byte): Byte { (Bits(a) & Bits(b)) as int }

  /** `a | b` on two bytes. */
  function Or(a: Byte, b: Byte): Byte { (Bits(a) | Bits(b)) as int }

  /** `a << n` on a byte: bits shifted past bit 7 are dropped, as Swift's `<<` on `UInt8` does. */
  function ShiftLeft(a: Byte, n: nat): Byte
    requires n <= 8
  {
    (Bits(a) << n) as int
  }

  lemma MaskBits(b: bv8)
    ensures (b & 0x7F) as int == (b as int) % 128
    ensures (b & 0x80 != 0) == (b as int >= 128)
  {}

  /** Masking with 127 keeps the low seven bits; masking with 128 tests the top bit. */
  lemma MaskLow7High1(b: Byte)
    ensures And(b, 0x7F) == b % 128
    ensures (And(b, 0x80) != 0) == (b >= 128)
  {
    BitsValue(b);
    MaskBits(Bits(b));
    assert Bits(0x7F) == 0x7F && Bits(0x80) == 0x80;
  }

  /** The value of two bytes read big-endian, `256 * hi + lo`, which always fits a `UInt16`. */
  function FromBigEndian16(hi: Byte, lo: Byte): (v: UInt16)
    ensures v / 256 == hi && v % 256 == lo
  {
    256 * hi + lo
  }

  /** `mqtt_append(UInt16)`: the value as two bytes, most significant first. */
  function BigEndian16(v: UInt16): (r: seq<Byte>)
    ensures |r| == 2 && FromBigEndian16(r[0], r[1]) == v
  {
    [v / 256, v % 256]
  }

  predicate IsContinuationByte(b: Byte) { 0x80 <= b <= 0xBF }

  /**
   * The length of the well-formed UTF-8 character that `s` starts with, or 0
   * when `s` does not start with one (the byte table of section 4 of RFC 3629:
   * no overlong forms, no surrogates, nothing above U+10FFFF).
   */
  function CharLength(s: seq<Byte>): (n: nat)
    requires |s| > 0
    ensures n <= 4 && n <= |s|
  {
    var b0 := s[0];
    if b0 <= 0x7F then 1
    else if 0xC2 <= b0 <= 0xDF then
      if |s| >= 2 && IsContinuationByte(s[1]) then 2 else 0
    else if 0xE0 <= b0 <= 0xEF then
      var lo := if b0 == 0xE0 then 0xA0 else 0x80;
      var hi := if b0 == 0xED then 0x9F else 0xBF;
      if |s| >= 3 && lo <= s[1] <= hi && IsContinuationByte(s[2]) then 3 else 0
    else if 0xF0 <= b0 <= 0xF4 then
      var lo := if b0 == 0xF0 then 0x90 else 0x80;
      var hi := if b0 == 0xF4 then 0x8F else 0xBF;
      if |s| >= 4 && lo <= s[1] <= hi && IsContinuationByte(s[2]) && IsContinuationByte(s[3]) then 4 else 0
    else 0
  }

  /**
   * `s` is a well-formed UTF-8 byte sequence. This stands for the check that
   * `String(data:encoding: .utf8)` performs before it yields a `String`.
   */
  predicate ValidUtf8(s: seq<Byte>)
    decreases |s|
  {
    s == [] || (CharLength(s) > 0 && ValidUtf8(s[CharLength(s)..]))
  }
}
