/**
 The two symbol tables of libb64 and the facts that make them inverse to each other.

 A C `char` is modelled by a `bv8`; where the program reads it as a signed number, the
 values from 128 up are the negative ones (two's complement), so `-1` is 255 and `-2` is 254.
 */
module Alphabet {

  type Bytes = seq<bv8>

  const NEWLINE: bv8 := 10
  const PAD: bv8 := 61

  /** The characters of a string literal as bytes. */
  function Ascii(s: string): (b: Bytes)
    ensures |b| == |s|
  {
    seq(|s|, i requires 0 <= i < |s| => ByteOf(s[i]))
  }

  /** Only ASCII literals are used, so the default is never taken. */
  function ByteOf(c: char): bv8 {
    if c as int < 256 then c as bv8 else 0
  }

  predicate Negative(c: bv8) {
    c >= 128
  }

  /** The alphabet of RFC 4648, section 4, as character ranges. */
  predicate IsSymbol(c: bv8) {
    65 <= c <= 90 || 97 <= c <= 122 || 48 <= c <= 57 || c == 43 || c == 47
  }

  /** Entry `v` of the string of 64 symbols: A-Z, a-z, 0-9, +, /. */
  function EncodingAt(v: bv8): bv8
    requires v < 64
  {
    if v < 26 then v + 65
    else if v < 52 then v + 71
    else if v < 62 then v - 4
    else if v == 62 then 43
    else 47
  }

  /** `base64_encode_value`. Arguments from 128 up are negative, and index before the table. */
  function EncodeValue(v: bv8): bv8
    requires !Negative(v)
  {
    if v > 63 then PAD else EncodingAt(v)
  }

  /** Entry `k` of the table of 80 decoded values, which starts at character 43, '+'. */
  function DecodingAt(k: bv8): bv8
    requires k < 80
  {
    if k == 0 then 62
    else if k == 4 then 63
    else if 5 <= k <= 14 then k + 47
    else if k == 18 then 254
    else if 22 <= k <= 47 then k - 22
    else if 54 <= k <= 79 then k - 28
    else 255
  }

  /** The only character whose offset equals the size of the table: '{'. */
  const BRACE: bv8 := 123

  /**
   `base64_decode_value`, cut to a `char` as its caller does. The guard rejects offsets greater
   than the table's size but not the size itself, so '{' reads the byte behind the table. That
   byte is the parameter `beyond`.
   */
  function DecodeValue(beyond: bv8, c: bv8): bv8 {
    var k := c - 43;
    if Negative(k) || k > 80 then 255
    else if k == 80 then beyond
    else DecodingAt(k)
  }

  lemma DecodeInvertsEncode(beyond: bv8, v: bv8)
    requires v < 64
    ensures IsSymbol(EncodeValue(v))
    ensures DecodeValue(beyond, EncodeValue(v)) == v
  {
  }

  lemma EncodeInvertsDecode(beyond: bv8, c: bv8)
    requires IsSymbol(c)
    ensures DecodeValue(beyond, c) < 64
    ensures EncodeValue(DecodeValue(beyond, c)) == c
  {
  }

  /** Exactly the alphabet is decoded, except that '{' is decoded too if `beyond` allows it. */
  lemma DecodedCharacters(beyond: bv8, c: bv8)
    ensures !Negative(DecodeValue(beyond, c)) <==> IsSymbol(c) || (c == 123 && !Negative(beyond))
    ensures DecodeValue(beyond, 123) == beyond
  {
  }

  // `DecodingAt` is the table of the program, entry by entry.

  lemma DecodingTableLow()
    ensures [DecodingAt(0), DecodingAt(1), DecodingAt(2), DecodingAt(3), DecodingAt(4),
             DecodingAt(5), DecodingAt(6), DecodingAt(7), DecodingAt(8), DecodingAt(9),
             DecodingAt(10), DecodingAt(11), DecodingAt(12), DecodingAt(13), DecodingAt(14),
             DecodingAt(15), DecodingAt(16), DecodingAt(17), DecodingAt(18), DecodingAt(19),
             DecodingAt(20), DecodingAt(21), DecodingAt(22), DecodingAt(23), DecodingAt(24),
             DecodingAt(25), DecodingAt(26), DecodingAt(27), DecodingAt(28), DecodingAt(29),
             DecodingAt(30), DecodingAt(31), DecodingAt(32), DecodingAt(33), DecodingAt(34),
             DecodingAt(35), DecodingAt(36), DecodingAt(37), DecodingAt(38), DecodingAt(39)]
         == [62, 255, 255, 255, 63, 52, 53, 54, 55, 56, 57, 58, 59, 60, 61, 255, 255, 255, 254, 255,
             255, 255, 0, 1, 2, 3, 4, 5, 6, 7, 8, 9, 10, 11, 12, 13, 14, 15, 16, 17]
  {
  }

  lemma DecodingTableHigh()
    ensures [DecodingAt(40), DecodingAt(41), DecodingAt(42), DecodingAt(43), DecodingAt(44),
             DecodingAt(45), DecodingAt(46), DecodingAt(47), DecodingAt(48), DecodingAt(49),
             DecodingAt(50), DecodingAt(51), DecodingAt(52), DecodingAt(53), DecodingAt(54),
             DecodingAt(55), DecodingAt(56), DecodingAt(57), DecodingAt(58), DecodingAt(59),
             DecodingAt(60), DecodingAt(61), DecodingAt(62), DecodingAt(63), DecodingAt(64),
             DecodingAt(65), DecodingAt(66), DecodingAt(67), DecodingAt(68), DecodingAt(69),
             DecodingAt(70), DecodingAt(71), DecodingAt(72), DecodingAt(73), DecodingAt(74),
             DecodingAt(75), DecodingAt(76), DecodingAt(77), DecodingAt(78), DecodingAt(79)]
         == [18, 19, 20, 21, 22, 23, 24, 25, 255, 255, 255, 255, 255, 255, 26, 27, 28, 29, 30, 31,
             32, 33, 34, 35, 36, 37, 38, 39, 40, 41, 42, 43, 44, 45, 46, 47, 48, 49, 50, 51]
  {
  }
}
