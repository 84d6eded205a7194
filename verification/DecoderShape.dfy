/**
 How much the decoder writes, the buffer size the stream wrapper needs, and exactly when
 characters outside the alphabet make no difference.
 */
module DecoderShape {
  import opened Alphabet
  import opened Rfc4648
  import opened Decoder

  // ---------- Length of one call ----------

  /** The 6-bit values consumed since the last whole group. */
  ghost function Position(s: State): (k: int)
    ensures 0 <= k < 4
  {
    match s case A => 0 case B(_) => 1 case C(_) => 2 case D(_) => 3
  }

  lemma StepLength(s: State, v: bv8)
    requires s.Valid() && v < 64
    ensures |Emit(s, v)| == if s.A? then 0 else 1
    ensures Position(Next(s, v)) == if s.D? then 0 else Position(s) + 1
  {
  }

  /** Three bytes for four values: a call writes all the bytes completed by the values so far. */
  lemma {:induction false} WrittenLength(s: State, vs: seq<bv8>)
    requires s.Valid() && AllSextets(vs)
    ensures |Written(s, vs)| == 3 * (Position(s) + |vs|) / 4 - 3 * Position(s) / 4
    ensures Position(Final(s, vs)) == (Position(s) + |vs|) % 4
    decreases |vs|
  {
    hide Next, Emit;
    if vs == [] {
      RunNothing(s);
    } else {
      StepLength(s, vs[0]);
      WrittenLength(Next(s, vs[0]), vs[1..]);
      GroupLength(|vs| - 1);
    }
  }

  /** A whole group of four values is three bytes. */
  lemma GroupLength(m: nat)
    ensures 3 * (4 + m) / 4 == 3 + 3 * m / 4 && (4 + m) % 4 == m % 4
  {
  }

  // ---------- The wrapper's buffer ----------

  /** A buffer of `n` bytes is enough to decode any `n` characters at any point of a stream. */
  ghost predicate Fits(beyond: bv8, n: nat) {
    forall before: Bytes, block: Bytes | |block| <= n ::
      |Written(Final(A, Symbols(beyond, before)), Symbols(beyond, block))| < n
  }

  lemma {:induction false} SymbolsLength(beyond: bv8, cs: Bytes)
    ensures |Symbols(beyond, cs)| <= |cs|
  {
    if cs != [] {
      SymbolsLength(beyond, cs[1..]);
    }
  }

  lemma BlockFits(beyond: bv8, s: State, block: Bytes, n: nat)
    requires s.Valid() && |block| <= n && 4 <= n
    ensures |Written(s, Symbols(beyond, block))| < n
  {
    hide Symbols, Written;
    SymbolsLength(beyond, block);
    WrittenLength(s, Symbols(beyond, block));
    var k, m := Position(s), |Symbols(beyond, block)|;
    assert 3 * (k + m) / 4 - 3 * k / 4 <= (3 * m + 3) / 4;
  }

  /** Four bytes is the least buffer size: after one value, up to three more complete three bytes. */
  lemma FitsExactly(beyond: bv8, n: nat)
    ensures Fits(beyond, n) <==> n >= 4
  {
    if n >= 4 {
      forall before: Bytes, block: Bytes | |block| <= n
        ensures |Written(Final(A, Symbols(beyond, before)), Symbols(beyond, block))| < n
      {
        BlockFits(beyond, Final(A, Symbols(beyond, before)), block, n);
      }
    } else {
      var before: Bytes, block: Bytes := [65], seq(n, _ => 65);
      SymbolsOfLetters(beyond, before);
      SymbolsOfLetters(beyond, block);
      WrittenLength(A, Symbols(beyond, before));
      WrittenLength(Final(A, Symbols(beyond, before)), Symbols(beyond, block));
      assert |Written(Final(A, Symbols(beyond, before)), Symbols(beyond, block))| == n;
    }
  }

  lemma {:induction false} SymbolsOfLetters(beyond: bv8, cs: Bytes)
    requires forall i | 0 <= i < |cs| :: cs[i] == 65
    ensures |Symbols(beyond, cs)| == |cs|
  {
    if cs != [] {
      assert IsDecoded(beyond, cs[0]);
      SymbolsOfLetters(beyond, cs[1..]);
    }
  }

  // ---------- Characters outside the alphabet ----------

  /** A text with every character outside the alphabet removed. */
  function OnlyAlphabet(cs: Bytes): (ds: Bytes)
    ensures forall d <- ds :: IsSymbol(d)
  {
    if cs == [] then []
    else (if IsSymbol(cs[0]) then [cs[0]] else []) + OnlyAlphabet(cs[1..])
  }

  /** Without '{', or when the byte behind the table is negative, only the alphabet is decoded. */
  lemma {:induction false} SymbolsOfAlphabet(beyond: bv8, cs: Bytes)
    requires BRACE !in cs || Negative(beyond)
    ensures Symbols(beyond, cs) == Symbols(beyond, OnlyAlphabet(cs))
    ensures |Symbols(beyond, cs)| == |OnlyAlphabet(cs)|
  {
    hide DecodeValue, IsSymbol, Negative;
    if cs != [] {
      var rest := OnlyAlphabet(cs[1..]);
      DecodedCharacters(beyond, cs[0]);
      SymbolsOfAlphabet(beyond, cs[1..]);
      assert ([cs[0]] + rest)[1..] == rest;
      if IsSymbol(cs[0]) {
        assert OnlyAlphabet(cs) == [cs[0]] + rest;
        assert Symbols(beyond, [cs[0]] + rest) == [DecodeValue(beyond, cs[0]) & 0x3f] + Symbols(beyond, rest);
      } else {
        assert cs[0] != BRACE || Negative(beyond);
        assert OnlyAlphabet(cs) == rest;
      }
    }
  }

  /** Every '{' counts as one more value when the byte behind the table is not negative. */
  lemma {:induction false} BraceDecoded(beyond: bv8, cs: Bytes)
    requires !Negative(beyond)
    ensures |Symbols(beyond, cs)| >= |OnlyAlphabet(cs)|
    ensures BRACE in cs ==> |Symbols(beyond, cs)| > |OnlyAlphabet(cs)|
  {
    hide DecodeValue, IsSymbol, Negative;
    if cs != [] {
      BraceDecoded(beyond, cs[1..]);
      DecodedCharacters(beyond, cs[0]);
      BraceIsNoSymbol();
    }
  }

  lemma BraceIsNoSymbol()
    ensures !IsSymbol(BRACE)
  {
  }

  /** What a caller sees of one call: the bytes written and the state it resumes from. */
  ghost function Outcome(beyond: bv8, s: State, cs: Bytes): (Bytes, State)
    requires s.Valid()
  {
    (Written(s, Symbols(beyond, cs)), Final(s, Symbols(beyond, cs)))
  }

  lemma {:induction false} AlphabetOnly(ds: Bytes)
    requires forall d <- ds :: IsSymbol(d)
    ensures OnlyAlphabet(ds) == ds
  {
    if ds != [] {
      AlphabetOnly(ds[1..]);
    }
  }

  /** The number of bytes and the step together give away the number of values. */
  lemma SameCount(k: nat, m: nat)
    ensures 3 * k / 4 == 3 * m / 4 && k % 4 == m % 4 ==> k == m
  {
    assert 3 * k / 4 == 3 * (k / 4) + 3 * (k % 4) / 4;
    assert 3 * m / 4 == 3 * (m / 4) + 3 * (m % 4) / 4;
  }

  lemma BraceMatters(beyond: bv8, s: State, cs: Bytes)
    requires s.Valid() && BRACE in cs && !Negative(beyond)
    ensures Outcome(beyond, s, cs) != Outcome(beyond, s, OnlyAlphabet(cs))
  {
    hide Symbols, Written, Final, OnlyAlphabet, IsSymbol, Position, State.Valid, Negative;
    var ds := OnlyAlphabet(cs);
    BraceIsNoSymbol();
    assert forall d <- ds :: d != BRACE;
    BraceDecoded(beyond, cs);
    SymbolsOfAlphabet(beyond, ds);
    AlphabetOnly(ds);
    WrittenLength(s, Symbols(beyond, cs));
    WrittenLength(s, Symbols(beyond, ds));
    SameCount(Position(s) + |Symbols(beyond, cs)|, Position(s) + |Symbols(beyond, ds)|);
  }

  /**
   Characters outside the alphabet are ignored, as section 6.8 of RFC 2045 asks, exactly for texts
   without '{' and where the byte behind the table is negative.
   */
  lemma InsensitiveExactly(beyond: bv8, s: State, cs: Bytes)
    requires s.Valid()
    ensures Outcome(beyond, s, cs) == Outcome(beyond, s, OnlyAlphabet(cs)) <==> BRACE !in cs || Negative(beyond)
  {
    hide Symbols, Written, Final;
    if BRACE !in cs || Negative(beyond) {
      SymbolsOfAlphabet(beyond, cs);
    } else {
      BraceMatters(beyond, s, cs);
    }
  }

  /** Whatever byte stands behind the table: exactly for texts without '{'. */
  lemma InsensitiveAnywhere(s: State, cs: Bytes)
    requires s.Valid()
    ensures (forall beyond :: Outcome(beyond, s, cs) == Outcome(beyond, s, OnlyAlphabet(cs))) <==> BRACE !in cs
  {
    hide Outcome;
    forall beyond
      ensures Outcome(beyond, s, cs) == Outcome(beyond, s, OnlyAlphabet(cs)) <==> BRACE !in cs || Negative(beyond)
    {
      InsensitiveExactly(beyond, s, cs);
    }
    assert !Negative(0);
    assert Outcome(0, s, cs) == Outcome(0, s, OnlyAlphabet(cs)) <==> BRACE !in cs;
  }

  /** The characters that carry a value: the alphabet, and '{' if the byte behind the table allows it. */
  function Carriers(beyond: bv8, cs: Bytes): nat {
    if cs == [] then 0
    else (if IsSymbol(cs[0]) || (cs[0] == BRACE && !Negative(beyond)) then 1 else 0) + Carriers(beyond, cs[1..])
  }

  lemma {:induction false} CarriersAreSymbols(beyond: bv8, cs: Bytes)
    ensures |Symbols(beyond, cs)| == Carriers(beyond, cs)
    ensures BRACE !in cs || Negative(beyond) ==> Carriers(beyond, cs) == |OnlyAlphabet(cs)|
  {
    if cs != [] {
      DecodedCharacters(beyond, cs[0]);
      CarriersAreSymbols(beyond, cs[1..]);
    }
  }

  /** A message in which `k` characters carry a value decodes to `floor(3k/4)` bytes. */
  lemma DecodedLength(beyond: bv8, cs: Bytes)
    ensures |Written(A, Symbols(beyond, cs))| == 3 * Carriers(beyond, cs) / 4
    ensures BRACE !in cs ==> |Written(A, Symbols(beyond, cs))| == 3 * |OnlyAlphabet(cs)| / 4
  {
    hide Symbols, Carriers, OnlyAlphabet;
    CarriersAreSymbols(beyond, cs);
    WrittenLength(A, Symbols(beyond, cs));
  }
}
