/**
 * Byte strings as the binary codecs see them: PHP's pack/unpack formats
 * 'c' (signed char), 'L' (unsigned 32-bit, little-endian on the platforms
 * the library targets), 'd' (a double, stood in for by an 8-byte two's
 * complement integer) and 'H*' (hexadecimal text, high nibble first).
 */
module Bytes {

  type Byte = b: int | 0 <= b < 256

  const Two32: nat := 0x1_0000_0000
  const Two63: nat := 0x8000_0000_0000_0000
  const Two64: nat := 0x1_0000_0000_0000_0000

  function Pow256(n: nat): (r: nat)
    ensures r >= 1
  {
    if n == 0 then 1 else 256 * Pow256(n - 1)
  }

  /** The `n` low-order bytes of `v`, least significant first. */
  function LittleEndian(v: nat, n: nat): (r: seq<Byte>)
    ensures |r| == n
  {
    if n == 0 then [] else [(v % 256) as Byte] + LittleEndian(v / 256, n - 1)
  }

  /** The number whose little-endian bytes are `bs`. */
  function FromLittleEndian(bs: seq<Byte>): (v: nat)
    ensures v < Pow256(|bs|)
  {
    if bs == [] then 0 else bs[0] + 256 * FromLittleEndian(bs[1..])
  }

  lemma {:induction false} FromLittleEndianOf(v: nat, n: nat)
    requires v < Pow256(n)
    ensures FromLittleEndian(LittleEndian(v, n)) == v
  {
    if n > 0 {
      var r := LittleEndian(v, n);
      assert r[1..] == LittleEndian(v / 256, n - 1);
      FromLittleEndianOf(v / 256, n - 1);
    }
  }

  lemma {:induction false} LittleEndianOf(bs: seq<Byte>)
    ensures LittleEndian(FromLittleEndian(bs), |bs|) == bs
  {
    if bs != [] {
      var v := FromLittleEndian(bs);
      assert v % 256 == bs[0] && v / 256 == FromLittleEndian(bs[1..]);
      LittleEndianOf(bs[1..]);
    }
  }

  /** pack('L', v): 32 bits, so larger values wrap. */
  function PackU32(v: int): (r: seq<Byte>)
    ensures |r| == 4
  {
    LittleEndian(v % Two32, 4)
  }

  /** unpack('L', ...) of four bytes. */
  function UnpackU32(bs: seq<Byte>): (v: nat)
    requires |bs| == 4
    ensures v < Two32
  {
    FromLittleEndian(bs)
  }

  lemma UnpackPackU32(v: int)
    ensures UnpackU32(PackU32(v)) == v % Two32
  {
    assert Pow256(4) == Two32;
    FromLittleEndianOf(v % Two32, 4);
  }

  /** pack('d', x) for the model's coordinates: eight bytes, two's complement. */
  function PackDouble(x: int): (r: seq<Byte>)
    ensures |r| == 8
  {
    LittleEndian(x % Two64, 8)
  }

  /** unpack('d', ...) of eight bytes. */
  function UnpackDouble(bs: seq<Byte>): int
    requires |bs| == 8
  {
    var v := FromLittleEndian(bs);
    if v >= Two63 then v - Two64 else v
  }

  predicate DoubleRange(x: int)
  {
    -(Two63 as int) <= x < Two63
  }

  lemma UnpackPackDouble(x: int)
    requires DoubleRange(x)
    ensures UnpackDouble(PackDouble(x)) == x
  {
    assert Pow256(8) == Two64;
    FromLittleEndianOf(x % Two64, 8);
  }

  // --------------------------------------------------------------------- hex

  const Zero: Byte := 48
  const LowerA: Byte := 97
  const UpperA: Byte := 65

  /** The lower-case hexadecimal digit of a nibble, as unpack('H*') writes it. */
  function HexDigit(n: nat): (c: Byte)
    requires n < 16
  {
    if n < 10 then Zero + n else LowerA + (n - 10)
  }

  /** The nibble pack('H*') reads from a digit; anything but a hexadecimal digit counts as 0. */
  function NibbleOf(c: Byte): (n: nat)
    ensures n < 16
  {
    if Zero <= c < Zero + 10 then c - Zero
    else if LowerA <= c < LowerA + 6 then c - LowerA + 10
    else if UpperA <= c < UpperA + 6 then c - UpperA + 10
    else 0
  }

  /** unpack('H*', ...): two lower-case digits per byte, high nibble first. */
  function HexEncode(bs: seq<Byte>): (r: seq<Byte>)
    ensures |r| == 2 * |bs|
  {
    if bs == [] then [] else [HexDigit(bs[0] / 16), HexDigit(bs[0] % 16)] + HexEncode(bs[1..])
  }

  /** pack('H*', ...): a trailing odd digit becomes a high nibble with a zero low nibble. */
  function HexDecode(text: seq<Byte>): (r: seq<Byte>)
    ensures |r| == (|text| + 1) / 2
  {
    if text == [] then []
    else if |text| == 1 then [(NibbleOf(text[0]) * 16) as Byte]
    else [(NibbleOf(text[0]) * 16 + NibbleOf(text[1])) as Byte] + HexDecode(text[2..])
  }

  lemma {:induction false} HexDecodeEncode(bs: seq<Byte>)
    ensures HexDecode(HexEncode(bs)) == bs
  {
    if bs != [] {
      var t := HexEncode(bs);
      assert t[2..] == HexEncode(bs[1..]);
      assert NibbleOf(HexDigit(bs[0] / 16)) == bs[0] / 16;
      assert NibbleOf(HexDigit(bs[0] % 16)) == bs[0] % 16;
      HexDecodeEncode(bs[1..]);
    }
  }
}
