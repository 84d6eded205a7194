/**
 The Base64 encoding as section 4 of RFC 4648 words it, written without reference to the
 coroutines: three bytes form one 24-bit group, which is read as four 6-bit values; a last
 group of one or two bytes is filled with zero bits and padded with `=`.
 */
module Rfc4648 {
  import opened Alphabet

  predicate AllSextets(ss: seq<bv8>) {
    forall i | 0 <= i < |ss| :: ss[i] < 64
  }

  // ---------- 24-bit groups ----------

  function GroupOfBytes(x: bv8, y: bv8, z: bv8): bv24 {
    ((x as bv24) << 16) | ((y as bv24) << 8) | (z as bv24)
  }

  function GroupOfSextets(a: bv8, b: bv8, c: bv8, d: bv8): bv24
    requires a < 64 && b < 64 && c < 64 && d < 64
  {
    ((a as bv24) << 18) | ((b as bv24) << 12) | ((c as bv24) << 6) | (d as bv24)
  }

  function Sextet(g: bv24, i: nat): (s: bv8)
    requires i < 4
    ensures s < 64
  {
    if i == 0 then ((g >> 18) & 0x3f) as bv8
    else if i == 1 then ((g >> 12) & 0x3f) as bv8
    else if i == 2 then ((g >> 6) & 0x3f) as bv8
    else (g & 0x3f) as bv8
  }

  function Octet(g: bv24, i: nat): bv8
    requires i < 3
  {
    if i == 0 then ((g >> 16) & 0xff) as bv8
    else if i == 1 then ((g >> 8) & 0xff) as bv8
    else (g & 0xff) as bv8
  }

  lemma GroupFromItsSextets(g: bv24)
    ensures GroupOfSextets(Sextet(g, 0), Sextet(g, 1), Sextet(g, 2), Sextet(g, 3)) == g
  {
  }

  lemma GroupFromItsOctets(g: bv24)
    ensures GroupOfBytes(Octet(g, 0), Octet(g, 1), Octet(g, 2)) == g
  {
  }

  lemma OctetsOfGroup(x: bv8, y: bv8, z: bv8)
    ensures var g := GroupOfBytes(x, y, z); Octet(g, 0) == x && Octet(g, 1) == y && Octet(g, 2) == z
  {
  }

  lemma SextetsOfGroup(a: bv8, b: bv8, c: bv8, d: bv8)
    requires a < 64 && b < 64 && c < 64 && d < 64
    ensures var g := GroupOfSextets(a, b, c, d);
            Sextet(g, 0) == a && Sextet(g, 1) == b && Sextet(g, 2) == c && Sextet(g, 3) == d
  {
  }

  /** A group filled up with zero bytes has zero sextets where it has no data. */
  lemma FillSextets(x: bv8, y: bv8)
    ensures Sextet(GroupOfBytes(x, y, 0), 3) == 0
    ensures Sextet(GroupOfBytes(x, 0, 0), 2) == 0 && Sextet(GroupOfBytes(x, 0, 0), 3) == 0
  {
  }

  // ---------- Bytes to 6-bit values and back ----------

  function Sextets(g: bv24): (ss: seq<bv8>)
    ensures |ss| == 4 && AllSextets(ss)
  {
    [Sextet(g, 0), Sextet(g, 1), Sextet(g, 2), Sextet(g, 3)]
  }

  function Octets(g: bv24): (bs: Bytes)
    ensures |bs| == 3
  {
    [Octet(g, 0), Octet(g, 1), Octet(g, 2)]
  }

  /** The 6-bit values of less than one group, which is filled up with zero bits. */
  function PackTail(xs: Bytes): (ss: seq<bv8>)
    requires |xs| < 3
    ensures AllSextets(ss) && |ss| == if xs == [] then 0 else |xs| + 1
  {
    if |xs| == 0 then []
    else if |xs| == 1 then Sextets(GroupOfBytes(xs[0], 0, 0))[..2]
    else Sextets(GroupOfBytes(xs[0], xs[1], 0))[..3]
  }

  /** The 6-bit values of a byte string; the last one may hold zero fill bits. */
  function Pack(xs: Bytes): (ss: seq<bv8>)
    ensures AllSextets(ss)
  {
    if |xs| < 3 then PackTail(xs) else Sextets(GroupOfBytes(xs[0], xs[1], xs[2])) + Pack(xs[3..])
  }

  /** The whole bytes contained in less than four 6-bit values. */
  function UnpackTail(ss: seq<bv8>): (bs: Bytes)
    requires |ss| < 4 && AllSextets(ss)
    ensures |bs| == if ss == [] then 0 else |ss| - 1
  {
    if |ss| < 2 then []
    else if |ss| == 2 then Octets(GroupOfSextets(ss[0], ss[1], 0, 0))[..1]
    else Octets(GroupOfSextets(ss[0], ss[1], ss[2], 0))[..2]
  }

  /** The whole bytes contained in a string of 6-bit values; left-over bits are dropped. */
  function Unpack(ss: seq<bv8>): Bytes
    requires AllSextets(ss)
  {
    if |ss| < 4 then UnpackTail(ss) else Octets(GroupOfSextets(ss[0], ss[1], ss[2], ss[3])) + Unpack(ss[4..])
  }

  lemma UnpackTailInvertsPackTail(xs: Bytes)
    requires |xs| < 3
    ensures UnpackTail(PackTail(xs)) == xs
  {
    if |xs| == 1 {
      OctetsOfGroup(xs[0], 0, 0);
      FillSextets(xs[0], 0);
      GroupFromItsSextets(GroupOfBytes(xs[0], 0, 0));
    } else if |xs| == 2 {
      OctetsOfGroup(xs[0], xs[1], 0);
      FillSextets(xs[0], xs[1]);
      GroupFromItsSextets(GroupOfBytes(xs[0], xs[1], 0));
    }
  }

  lemma GroupSurvives(x: bv8, y: bv8, z: bv8)
    ensures var ss := Sextets(GroupOfBytes(x, y, z)); Octets(GroupOfSextets(ss[0], ss[1], ss[2], ss[3])) == [x, y, z]
  {
    OctetsOfGroup(x, y, z);
    GroupFromItsSextets(GroupOfBytes(x, y, z));
  }

  lemma {:induction false} UnpackInvertsPack(xs: Bytes)
    ensures Unpack(Pack(xs)) == xs
  {
    hide Sextets, Octets, GroupOfBytes, GroupOfSextets, PackTail, UnpackTail;
    if |xs| < 3 {
      UnpackTailInvertsPackTail(xs);
    } else {
      GroupSurvives(xs[0], xs[1], xs[2]);
      UnpackInvertsPack(xs[3..]);
      assert Pack(xs)[4..] == Pack(xs[3..]);
      assert xs == [xs[0], xs[1], xs[2]] + xs[3..];
    }
  }

  lemma {:induction false} UnpackLength(ss: seq<bv8>)
    requires AllSextets(ss)
    ensures |Unpack(ss)| == 3 * |ss| / 4
  {
    hide Octets, GroupOfSextets, UnpackTail;
    if |ss| >= 4 {
      UnpackLength(ss[4..]);
    }
  }

  // ---------- Text ----------

  function Chars(ss: seq<bv8>): (cs: Bytes)
    requires AllSextets(ss)
    ensures |cs| == |ss|
    ensures forall i | 0 <= i < |ss| :: cs[i] == EncodingAt(ss[i])
  {
    seq(|ss|, i requires 0 <= i < |ss| => EncodingAt(ss[i]))
  }

  /** The padding that completes the last four characters of an encoding of `n` bytes. */
  function Padding(n: nat): Bytes {
    if n % 3 == 1 then [PAD, PAD] else if n % 3 == 2 then [PAD] else []
  }

  /** The encoding of a byte string as one line without a line break. */
  function Encode(xs: Bytes): Bytes {
    Chars(Pack(xs)) + Padding(|xs|)
  }

  lemma {:induction false} PackConcat(xs: Bytes, ys: Bytes)
    requires |xs| % 3 == 0
    ensures Pack(xs + ys) == Pack(xs) + Pack(ys)
  {
    hide *;
    if xs == [] {
      PackNothing();
      assert xs + ys == ys;
    } else {
      PackConcat(xs[3..], ys);
      assert (xs + ys)[3..] == xs[3..] + ys;
      PackStep(xs + ys);
      PackStep(xs);
    }
  }

  lemma PackNothing()
    ensures Pack([]) == []
  {
  }

  lemma PackStep(xs: Bytes)
    requires |xs| >= 3
    ensures Pack(xs) == Sextets(GroupOfBytes(xs[0], xs[1], xs[2])) + Pack(xs[3..])
  {
  }

  /** A whole number of groups in front is encoded on its own. */
  lemma EncodeConcat(xs: Bytes, ys: Bytes)
    requires |xs| % 3 == 0
    ensures Encode(xs + ys) == Encode(xs) + Encode(ys)
  {
    hide Pack;
    PackConcat(xs, ys);
    var p, q := Pack(xs), Pack(ys);
    assert Chars(p + q) == Chars(p) + Chars(q);
    assert |xs + ys| % 3 == |ys| % 3;
  }

  lemma {:induction false} PackLength(xs: Bytes)
    ensures |Pack(xs)| == (4 * |xs| + 2) / 3
  {
    hide Sextets, GroupOfBytes, PackTail;
    if |xs| >= 3 {
      PackLength(xs[3..]);
    }
  }

  /** Four characters for every group of three bytes, whole or not. */
  lemma EncodeLength(xs: Bytes)
    ensures |Encode(xs)| == 4 * ((|xs| + 2) / 3)
  {
    hide Pack;
    PackLength(xs);
    PaddedLength(|xs|);
  }

  lemma PaddedLength(n: nat)
    ensures (4 * n + 2) / 3 + |Padding(n)| == 4 * ((n + 2) / 3)
  {
    var k := n / 3;
    if n == 3 * k {
      assert (4 * n + 2) / 3 == 4 * k && (n + 2) / 3 == k;
    } else if n == 3 * k + 1 {
      assert (4 * n + 2) / 3 == 4 * k + 2 && (n + 2) / 3 == k + 1;
    } else {
      assert n == 3 * k + 2;
      assert (4 * n + 2) / 3 == 4 * k + 3 && (n + 2) / 3 == k + 1;
    }
  }

  /** The examples of section 10 of RFC 4648: "f", "fo", "foo" and "bar". */
  lemma Examples()
    ensures Encode([102]) == [90, 103, 61, 61]
    ensures Encode([102, 111]) == [90, 109, 56, 61]
    ensures Encode([102, 111, 111]) == [90, 109, 57, 118]
    ensures Encode([98, 97, 114]) == [89, 109, 70, 121]
  {
  }
}
