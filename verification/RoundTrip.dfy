/**
 The main results about the two coroutines: what a sequence of calls computes does not depend
 on where its input is cut, decoding undoes encoding, and encoding undoes decoding exactly for
 canonical texts.
 */
module RoundTrip {
  import opened Alphabet
  import opened Blocks
  import opened Rfc4648
  import Encoder
  import Decoder

  // ---------- Calls on successive blocks ----------

  /** Everything written by one encoding call per block and the closing call. */
  function EncodeBlocks(s: Encoder.State, blocks: seq<Bytes>): Bytes
    requires s.Valid()
    decreases |blocks|
  {
    if blocks == [] then Encoder.Ending(s)
    else Encoder.Written(s, blocks[0]) + EncodeBlocks(Encoder.Final(s, blocks[0]), blocks[1..])
  }

  /** Everything written by one decoding call per block. */
  function DecodeBlocks(beyond: bv8, s: Decoder.State, blocks: seq<Bytes>): Bytes
    requires s.Valid()
    decreases |blocks|
  {
    if blocks == [] then []
    else
      var vs := Decoder.Symbols(beyond, blocks[0]);
      Decoder.Written(s, vs) + DecodeBlocks(beyond, Decoder.Final(s, vs), blocks[1..])
  }

  lemma {:induction false} EncodeAnyBlocks(s: Encoder.State, blocks: seq<Bytes>)
    requires s.Valid()
    ensures EncodeBlocks(s, blocks)
         == Encoder.Written(s, Flatten(blocks)) + Encoder.Ending(Encoder.Final(s, Flatten(blocks)))
    decreases |blocks|
  {
    hide Encoder.Written, Encoder.Final, Encoder.Ending, Encoder.State.Valid;
    if blocks == [] {
      Encoder.RunNothing(s);
    } else {
      Encoder.RunConcat(s, blocks[0], Flatten(blocks[1..]));
      EncodeAnyBlocks(Encoder.Final(s, blocks[0]), blocks[1..]);
    }
  }

  lemma {:induction false} DecodeAnyBlocks(beyond: bv8, s: Decoder.State, blocks: seq<Bytes>)
    requires s.Valid()
    ensures DecodeBlocks(beyond, s, blocks) == Decoder.Written(s, Decoder.Symbols(beyond, Flatten(blocks)))
    decreases |blocks|
  {
    hide Decoder.Written, Decoder.Final, Decoder.Symbols, Decoder.State.Valid;
    if blocks == [] {
      Decoder.SymbolsNothing(beyond);
      Decoder.RunNothing(s);
    } else {
      var vs, ws := Decoder.Symbols(beyond, blocks[0]), Decoder.Symbols(beyond, Flatten(blocks[1..]));
      Decoder.SymbolsConcat(beyond, blocks[0], Flatten(blocks[1..]));
      Decoder.RunConcat(s, vs, ws);
      DecodeAnyBlocks(beyond, Decoder.Final(s, vs), blocks[1..]);
    }
  }

  // ---------- Decoding undoes encoding ----------

  lemma SkippedCharacters(beyond: bv8, c: bv8)
    requires c == PAD || c == NEWLINE
    ensures Decoder.Symbols(beyond, [c]) == []
  {
  }

  lemma PaddingIsSkipped(beyond: bv8, n: nat)
    ensures Decoder.Symbols(beyond, Padding(n)) == []
  {
    SkippedCharacters(beyond, PAD);
    Decoder.SymbolsNothing(beyond);
    Decoder.SymbolsConcat(beyond, [PAD], [PAD]);
    assert [PAD, PAD] == [PAD] + [PAD];
  }

  lemma SymbolOfValue(beyond: bv8, v: bv8)
    requires v < 64
    ensures Decoder.Symbols(beyond, [EncodingAt(v)]) == [v]
  {
    DecodeInvertsEncode(beyond, v);
    assert v & 0x3f == v;
  }

  lemma CharsStep(vs: seq<bv8>)
    requires AllSextets(vs) && vs != []
    ensures vs[0] < 64 && AllSextets(vs[1..]) && Chars(vs) == [EncodingAt(vs[0])] + Chars(vs[1..])
  {
    hide EncodingAt;
  }

  lemma {:induction false} SymbolsOfChars(beyond: bv8, vs: seq<bv8>)
    requires AllSextets(vs)
    ensures Decoder.Symbols(beyond, Chars(vs)) == vs
    decreases |vs|
  {
    hide *;
    if vs == [] {
      Decoder.SymbolsNothing(beyond);
    } else {
      CharsStep(vs);
      SymbolOfValue(beyond, vs[0]);
      SymbolsOfChars(beyond, vs[1..]);
      Decoder.SymbolsConcat(beyond, [EncodingAt(vs[0])], Chars(vs[1..]));
      assert vs == [vs[0]] + vs[1..];
    }
  }

  lemma SymbolsOfEncode(beyond: bv8, xs: Bytes)
    ensures Decoder.Symbols(beyond, Encode(xs)) == Pack(xs)
  {
    hide Pack, Decoder.Symbols, Chars, Padding;
    SymbolsOfChars(beyond, Pack(xs));
    PaddingIsSkipped(beyond, |xs|);
    Decoder.SymbolsConcat(beyond, Chars(Pack(xs)), Padding(|xs|));
  }

  lemma SymbolsOfLine(beyond: bv8, xs: Bytes)
    ensures Decoder.Symbols(beyond, Encode(xs) + [NEWLINE]) == Pack(xs)
  {
    hide Pack, Decoder.Symbols, Encode;
    SymbolsOfEncode(beyond, xs);
    SkippedCharacters(beyond, NEWLINE);
    Decoder.SymbolsConcat(beyond, Encode(xs), [NEWLINE]);
  }

  /** Decoding skips the line breaks and the padding of a text. */
  lemma {:induction false} SymbolsOfText(beyond: bv8, xs: Bytes)
    ensures Decoder.Symbols(beyond, Encoder.Text(xs)) == Pack(xs)
  {
    hide Pack, Decoder.Symbols, Encode;
    if |xs| < 54 {
      SymbolsOfLine(beyond, xs);
    } else {
      var line, rest := xs[..54], xs[54..];
      SymbolsOfLine(beyond, line);
      SymbolsOfText(beyond, rest);
      Decoder.SymbolsConcat(beyond, Encode(line) + [NEWLINE], Encoder.Text(rest));
      PackConcat(line, rest);
      assert xs == line + rest;
    }
  }

  /**
   The round trip: encode a message in any blocks, cut the text anywhere, decode the pieces one
   after the other, and the message comes back.
   */
  lemma MessageSurvives(beyond: bv8, blocks: seq<Bytes>, pieces: seq<Bytes>)
    requires Flatten(pieces) == EncodeBlocks(Encoder.INITIAL, blocks)
    ensures DecodeBlocks(beyond, Decoder.A, pieces) == Flatten(blocks)
  {
    hide Flatten, EncodeBlocks, DecodeBlocks, Pack, Unpack;
    hide Encoder.Written, Encoder.Final, Decoder.Written, Decoder.Symbols;
    var xs := Flatten(blocks);
    EncodeAnyBlocks(Encoder.INITIAL, blocks);
    Encoder.WrittenIsText(xs);
    DecodeAnyBlocks(beyond, Decoder.A, pieces);
    SymbolsOfText(beyond, xs);
    Decoder.WrittenIsUnpack(Pack(xs));
    UnpackInvertsPack(xs);
  }

  // ---------- Encoding undoes decoding ----------

  /** The bytes a whole text decodes to. */
  function Decode(beyond: bv8, cs: Bytes): Bytes {
    Decoder.Written(Decoder.A, Decoder.Symbols(beyond, cs))
  }

  /** The text of a message, with its line breaks and padding, decodes to the message. */
  lemma TextDecodes(beyond: bv8, xs: Bytes)
    ensures Decode(beyond, Encoder.Text(xs)) == xs
  {
    hide Pack, Encoder.Text;
    SymbolsOfText(beyond, xs);
    Decoder.WrittenIsUnpack(Pack(xs));
    UnpackInvertsPack(xs);
  }

  lemma MessageSurvivesOneLine(beyond: bv8, xs: Bytes)
    ensures Decode(beyond, Encode(xs)) == xs
  {
    hide Pack, Encode;
    SymbolsOfEncode(beyond, xs);
    Decoder.WrittenIsUnpack(Pack(xs));
    UnpackInvertsPack(xs);
  }

  /** The number of `=` at the end of a text, at most two. */
  function PadCount(cs: Bytes): (p: nat)
    ensures p <= 2 && p <= |cs|
  {
    if |cs| >= 2 && cs[|cs| - 1] == PAD && cs[|cs| - 2] == PAD then 2
    else if |cs| >= 1 && cs[|cs| - 1] == PAD then 1
    else 0
  }

  /** The 6-bit value of a character of the alphabet. */
  function Value(c: bv8): (v: bv8)
    requires IsSymbol(c)
    ensures v < 64 && EncodingAt(v) == c
  {
    EncodeInvertsDecode(255, c);
    DecodeValue(255, c)
  }

  /** Groups of four characters, padded at the end, with zero fill bits (RFC 4648, section 3.5). */
  predicate Canonical(cs: Bytes) {
    var p := PadCount(cs);
    && |cs| % 4 == 0
    && (forall i | 0 <= i < |cs| - p :: IsSymbol(cs[i]))
    && (p == 1 ==> Value(cs[|cs| - 2]) & 0x03 == 0)
    && (p == 2 ==> Value(cs[|cs| - 3]) & 0x0f == 0)
  }

  /** The bits behind the last whole byte are zero. */
  predicate Filled(vs: seq<bv8>) {
    && |vs| % 4 != 1
    && (|vs| % 4 == 2 ==> vs[|vs| - 1] & 0x0f == 0)
    && (|vs| % 4 == 3 ==> vs[|vs| - 1] & 0x03 == 0)
  }

  lemma FilledGroup(a: bv8, b: bv8, c: bv8)
    requires a < 64 && b < 64 && c < 64
    ensures b & 0x0f == 0 ==> var g := GroupOfSextets(a, b, 0, 0); Octet(g, 1) == 0 && Octet(g, 2) == 0
    ensures c & 0x03 == 0 ==> Octet(GroupOfSextets(a, b, c, 0), 2) == 0
  {
  }

  lemma FillOfGroup(x: bv8, y: bv8)
    ensures Sextet(GroupOfBytes(x, 0, 0), 1) & 0x0f == 0
    ensures Sextet(GroupOfBytes(x, y, 0), 2) & 0x03 == 0
  {
  }

  lemma TailIsFilled(xs: Bytes)
    requires |xs| < 3
    ensures Filled(PackTail(xs))
  {
    hide Sextet, GroupOfBytes;
    if |xs| == 1 {
      FillOfGroup(xs[0], 0);
    } else if |xs| == 2 {
      FillOfGroup(xs[0], xs[1]);
    }
  }

  lemma {:induction false} PackIsFilled(xs: Bytes)
    ensures Filled(Pack(xs))
  {
    hide Sextets, GroupOfBytes, PackTail, AllSextets;
    if |xs| < 3 {
      TailIsFilled(xs);
    } else {
      PackIsFilled(xs[3..]);
    }
  }

  lemma TailIsRepacked(vs: seq<bv8>)
    requires |vs| < 4 && AllSextets(vs) && Filled(vs)
    ensures PackTail(UnpackTail(vs)) == vs
  {
    hide Sextet, GroupOfBytes, Octet, GroupOfSextets;
    if |vs| == 2 {
      FilledGroup(vs[0], vs[1], 0);
      GroupFromItsOctets(GroupOfSextets(vs[0], vs[1], 0, 0));
      SextetsOfGroup(vs[0], vs[1], 0, 0);
    } else if |vs| == 3 {
      FilledGroup(vs[0], vs[1], vs[2]);
      GroupFromItsOctets(GroupOfSextets(vs[0], vs[1], vs[2], 0));
      SextetsOfGroup(vs[0], vs[1], vs[2], 0);
    }
  }

  lemma GroupIsRepacked(a: bv8, b: bv8, c: bv8, d: bv8)
    requires a < 64 && b < 64 && c < 64 && d < 64
    ensures var bs := Octets(GroupOfSextets(a, b, c, d)); Sextets(GroupOfBytes(bs[0], bs[1], bs[2])) == [a, b, c, d]
  {
    GroupFromItsOctets(GroupOfSextets(a, b, c, d));
    SextetsOfGroup(a, b, c, d);
  }

  lemma {:induction false} PackInvertsUnpack(vs: seq<bv8>)
    requires AllSextets(vs) && Filled(vs)
    ensures Pack(Unpack(vs)) == vs
  {
    hide Sextets, Octets, GroupOfBytes, GroupOfSextets, PackTail, UnpackTail;
    if |vs| < 4 {
      TailIsRepacked(vs);
    } else {
      GroupIsRepacked(vs[0], vs[1], vs[2], vs[3]);
      PackInvertsUnpack(vs[4..]);
      assert Unpack(vs)[3..] == Unpack(vs[4..]);
      assert vs == [vs[0], vs[1], vs[2], vs[3]] + vs[4..];
    }
  }

  /** The 6-bit values of a string over the alphabet. */
  function Values(cs: Bytes): (vs: seq<bv8>)
    requires forall i | 0 <= i < |cs| :: IsSymbol(cs[i])
    ensures |vs| == |cs| && AllSextets(vs) && Chars(vs) == cs
  {
    seq(|cs|, i requires 0 <= i < |cs| => Value(cs[i]))
  }

  lemma Quotient(x: int, q: int, r: int)
    ensures x == 3 * q + r && 0 <= r < 3 ==> x / 3 == q && x % 3 == r
    ensures x == 4 * q + r && 0 <= r < 4 ==> x / 4 == q && x % 4 == r
  {
  }

  /** Of `k` groups of four characters, `p` of them padding, this many hold data, and this many bytes. */
  lemma PaddedGroups(k: int, p: nat, n: nat)
    requires p <= 2 && n == 4 * k - p
    ensures n % 4 == (if p == 0 then 0 else 4 - p) && (3 * n / 4) % 3 == if p == 0 then 0 else 3 - p
  {
    if p == 0 {
      Quotient(n, k, 0);
      Quotient(3 * n, 3 * k, 0);
      Quotient(3 * k, k, 0);
    } else {
      Quotient(n, k - 1, 4 - p);
      Quotient(3 * n, 3 * k - p, p);
      Quotient(3 * k - p, k - 1, 3 - p);
    }
  }

  lemma PaddingAtEnd(cs: Bytes, n: nat)
    requires |cs| == n + PadCount(cs)
    ensures cs[n..] == match PadCount(cs) case 0 => [] case 1 => [PAD] case _ => [PAD, PAD]
  {
  }

  lemma CanonicalParts(cs: Bytes) returns (vs: seq<bv8>)
    requires Canonical(cs)
    ensures AllSextets(vs) && Filled(vs)
    ensures cs == Chars(vs) + Padding(3 * |vs| / 4)
  {
    hide IsSymbol, Value, Chars, AllSextets, PadCount;
    var p := PadCount(cs);
    var n := |cs| - p;
    PaddingAtEnd(cs, n);
    PaddedGroups(|cs| / 4, p, n);
    vs := Values(cs[..n]);
    assert n > 0 ==> vs[n - 1] == Value(cs[n - 1]);
    assert cs == cs[..n] + cs[n..];
  }

  lemma FilledIsEncoded(beyond: bv8, vs: seq<bv8>)
    requires AllSextets(vs) && Filled(vs)
    ensures var cs := Chars(vs) + Padding(3 * |vs| / 4); Encode(Decode(beyond, cs)) == cs
  {
    hide Decoder.Symbols, Decoder.Written, Pack, Unpack, Chars, Padding, Filled;
    var n := 3 * |vs| / 4;
    SymbolsOfChars(beyond, vs);
    PaddingIsSkipped(beyond, n);
    Decoder.SymbolsConcat(beyond, Chars(vs), Padding(n));
    assert vs + [] == vs;
    Decoder.WrittenIsUnpack(vs);
    UnpackLength(vs);
    PackInvertsUnpack(vs);
  }

  lemma CanonicalIsEncoded(beyond: bv8, cs: Bytes)
    requires Canonical(cs)
    ensures Encode(Decode(beyond, cs)) == cs
  {
    hide *;
    var vs := CanonicalParts(cs);
    FilledIsEncoded(beyond, vs);
  }

  /** Characters of the alphabet in front of the padding leave no doubt where it starts. */
  lemma PadCountOfEncoding(body: Bytes, n: nat)
    requires (forall c <- body :: c != PAD) && |body| >= |Padding(n)|
    ensures PadCount(body + Padding(n)) == |Padding(n)|
  {
    var cs := body + Padding(n);
    assert n % 3 == 0 && body != [] ==> cs[|cs| - 1] in body;
    assert n % 3 == 2 ==> cs[|cs| - 1] == PAD && cs[|cs| - 2] in body;
  }

  lemma ValueOfEncoding(v: bv8)
    requires v < 64
    ensures IsSymbol(EncodingAt(v)) && Value(EncodingAt(v)) == v
  {
  }

  lemma EncodedCharacter(vs: seq<bv8>, i: nat)
    requires AllSextets(vs) && i < |vs|
    ensures var c := Chars(vs)[i]; IsSymbol(c) && c != PAD && Value(c) == vs[i]
  {
    hide EncodingAt, Value;
    DecodeInvertsEncode(255, vs[i]);
    ValueOfEncoding(vs[i]);
  }

  /** A text is canonical if it consists of filled 6-bit values and the padding. */
  lemma CanonicalFromValues(cs: Bytes, vs: seq<bv8>)
    requires |cs| == |vs| + PadCount(cs) && |cs| % 4 == 0 && Filled(vs)
    requires forall i | 0 <= i < |vs| :: IsSymbol(cs[i]) && Value(cs[i]) == vs[i]
    ensures Canonical(cs)
  {
    hide IsSymbol, Value, PadCount;
    var n := |vs|;
    assert n > 0 ==> Value(cs[n - 1]) == vs[n - 1];
  }

  lemma EncodedIsCanonical(xs: Bytes)
    ensures Canonical(Encode(xs))
  {
    hide Pack, EncodingAt, Value, PadCount, IsSymbol, AllSextets, Padding, Canonical, Filled, Chars;
    var cs, vs := Encode(xs), Pack(xs);
    EncodeLength(xs);
    PackIsFilled(xs);
    forall i | 0 <= i < |vs|
      ensures IsSymbol(cs[i]) && cs[i] != PAD && Value(cs[i]) == vs[i]
    {
      EncodedCharacter(vs, i);
      assert cs[i] == Chars(vs)[i];
    }
    PackIsLonger(xs);
    PadCountOfEncoding(Chars(vs), |xs|);
    CanonicalFromValues(cs, vs);
  }

  lemma PackIsLonger(xs: Bytes)
    ensures |Pack(xs)| >= |Padding(|xs|)|
  {
    hide Pack;
    PackLength(xs);
  }

  /**
   The other round trip: re-encoding what a text decodes to gives the text back exactly when the
   text is canonical, whatever byte stands behind the table.
   */
  lemma TextSurvivesExactly(beyond: bv8, cs: Bytes)
    ensures Encode(Decode(beyond, cs)) == cs <==> Canonical(cs)
  {
    hide Encode, Decode, Canonical;
    EncodedIsCanonical(Decode(beyond, cs));
    if Canonical(cs) {
      CanonicalIsEncoded(beyond, cs);
    }
  }

  /** The encodings are exactly the canonical texts, and no two messages share one. */
  lemma EncodeIsBijective(xs: Bytes, ys: Bytes, cs: Bytes)
    ensures Encode(xs) == Encode(ys) ==> xs == ys
    ensures Canonical(cs) <==> exists zs :: Encode(zs) == cs
  {
    hide Encode, Decode, Canonical;
    MessageSurvivesOneLine(255, xs);
    MessageSurvivesOneLine(255, ys);
    TextSurvivesExactly(255, cs);
    if zs :| Encode(zs) == cs {
      EncodedIsCanonical(zs);
    }
  }
}
