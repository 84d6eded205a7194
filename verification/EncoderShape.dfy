/**
 How much the encoder writes and where it breaks lines: the length of every call, the buffer
 size the stream wrapper needs, and the exact positions of the line breaks in a text.
 */
module EncoderShape {
  import opened Alphabet
  import opened Rfc4648
  import opened Encoder

  // ---------- Length of one call ----------

  /** The bytes of the current line consumed so far. */
  ghost function Position(s: State): int {
    3 * s.count + match s case A(_) => 0 case B(_, _) => 1 case C(_, _) => 2
  }

  /** The characters written for the first `t` bytes of a message, line breaks included. */
  function CharsFor(t: int): int {
    t + t / 3 + t / 54
  }

  /** One full line: 54 bytes, 72 characters and a line break. */
  lemma FullLine(t: nat)
    ensures CharsFor(54 + t) == 73 + CharsFor(t)
    ensures (54 + t) % 54 == t % 54
  {
    assert (54 + t) / 3 == 18 + t / 3;
    assert (54 + t) / 54 == 1 + t / 54;
  }

  lemma StepLength(s: State, b: bv8)
    requires s.Valid()
    ensures 0 <= Position(s) < 54
    ensures |Emit(s, b)| == CharsFor(Position(s) + 1) - CharsFor(Position(s))
    ensures Position(Next(s, b)) == if Position(s) + 1 == 54 then 0 else Position(s) + 1
  {
    hide CharsFor, EncodingAt;
    CharsInGroup(s.count);
  }

  lemma CharsInGroup(n: nat)
    requires n < 18
    ensures CharsFor(3 * n) == 4 * n && CharsFor(3 * n + 1) == 4 * n + 1 && CharsFor(3 * n + 2) == 4 * n + 2
    ensures CharsFor(3 * n + 3) == 4 * n + 4 + |LineBreak(n)|
  {
    var t := 3 * n;
    assert t / 3 == n && (t + 1) / 3 == n && (t + 2) / 3 == n && (t + 3) / 3 == n + 1;
    assert t / 54 == 0 && (t + 1) / 54 == 0 && (t + 2) / 54 == 0;
    assert (t + 3) / 54 == if n == 17 then 1 else 0;
  }

  lemma {:induction false} WrittenLength(s: State, xs: Bytes)
    requires s.Valid()
    ensures |Written(s, xs)| == CharsFor(Position(s) + |xs|) - CharsFor(Position(s))
    ensures Position(Final(s, xs)) == (Position(s) + |xs|) % 54
    decreases |xs|
  {
    if xs == [] {
      RunNothing(s);
      PositionInLine(s);
    } else {
      hide Next, Emit, Position, CharsFor;
      StepLength(s, xs[0]);
      WrittenLength(Next(s, xs[0]), xs[1..]);
      if Position(s) + 1 == 54 {
        FullLine(|xs| - 1);
        FullLine(0);
      }
    }
  }

  lemma PositionInLine(s: State)
    requires s.Valid()
    ensures 0 <= Position(s) < 54 && Position(s) % 54 == Position(s)
  {
    hide EncodingAt;
    assert s.count < GROUPS_PER_LINE;
    SmallRemainder(Position(s));
  }

  lemma SmallRemainder(n: nat)
    requires n < 54
    ensures n % 54 == n
  {
  }

  // ---------- The wrapper's buffer ----------

  /** A code buffer of `2 * n` characters holds every block of at most `n` bytes and every ending. */
  ghost predicate Fits(n: nat) {
    forall before: Bytes, block: Bytes | |block| <= n ::
      && |Written(Final(INITIAL, before), block)| <= 2 * n
      && |Ending(Final(INITIAL, before + block))| <= 2 * n
  }

  lemma BlockFits(s: State, block: Bytes, n: nat)
    requires s.Valid() && |block| <= n && 2 <= n
    ensures |Written(s, block)| <= 2 * n && |Ending(s)| <= 2 * n
  {
    WrittenLength(s, block);
    PositionInLine(s);
    CharsForBlock(Position(s), |block|);
    EndingLength(s);
  }

  lemma EndingLength(s: State)
    requires s.Valid()
    ensures |Ending(s)| <= 4
  {
  }

  lemma CharsForBlock(t: nat, m: nat)
    ensures CharsFor(t + m) - CharsFor(t) <= if m <= 1 then 3 else 2 * m
  {
    assert (t + m) / 3 - t / 3 <= (m + 2) / 3;
    assert (t + m) / 54 - t / 54 <= (m + 53) / 54;
  }

  lemma FitsExactly(n: nat)
    ensures Fits(n) <==> n >= 2
  {
    if n >= 2 {
      forall before: Bytes, block: Bytes | |block| <= n
        ensures |Written(Final(INITIAL, before), block)| <= 2 * n && |Ending(Final(INITIAL, before + block))| <= 2 * n
      {
        BlockFits(Final(INITIAL, before), block, n);
        BlockFits(Final(INITIAL, before + block), [], n);
      }
    } else {
      SingleRun(0, 0);
      var before: Bytes := [0];
      assert before + [] == before;
      assert |Ending(Final(INITIAL, before + []))| == 4;
    }
  }

  // ---------- The text of a message ----------

  lemma {:induction false} TextLength(xs: Bytes)
    ensures |Text(xs)| == 4 * ((|xs| + 2) / 3) + |xs| / 54 + 1
  {
    hide Encode;
    if |xs| < 54 {
      EncodeLength(xs);
    } else {
      EncodeLength(xs[..54]);
      TextLength(xs[54..]);
      OneMoreLine(|xs| - 54);
    }
  }

  lemma OneMoreLine(n: nat)
    ensures 4 * ((n + 54 + 2) / 3) == 72 + 4 * ((n + 2) / 3) && (n + 54) / 54 == 1 + n / 54
  {
    assert (n + 54 + 2) / 3 == 18 + (n + 2) / 3;
  }

  /** No line break in an encoding. */
  lemma EncodeIsOneLine(xs: Bytes)
    ensures forall c <- Encode(xs) :: IsSymbol(c) || c == PAD
    ensures forall i | 0 <= i < |Encode(xs)| :: Encode(xs)[i] != NEWLINE
  {
    forall i | 0 <= i < |Encode(xs)|
      ensures IsSymbol(Encode(xs)[i]) || Encode(xs)[i] == PAD
    {
      hide Pack;
      if i < |Pack(xs)| {
        assert Encode(xs)[i] == EncodingAt(Pack(xs)[i]);
      }
    }
  }

  /** A line and its break take 73 characters: only there, and at the end, is a line broken. */
  lemma {:induction false} LineBreaks(xs: Bytes, i: int)
    requires 0 <= i < |Text(xs)|
    ensures Text(xs)[i] == 10 <==> i % 73 == 72 || i == |Text(xs)| - 1
    decreases |xs|
  {
    hide Encode;
    if |xs| < 54 {
      EncodeLength(xs);
      EncodeIsOneLine(xs);
    } else {
      var line, rest := xs[..54], xs[54..];
      EncodeLength(line);
      EncodeIsOneLine(line);
      if i > 72 {
        LineBreaks(rest, i - 73);
        assert Text(xs)[i] == Text(rest)[i - 73];
        assert i % 73 == (i - 73) % 73;
      }
    }
  }

  /** A text ends in an empty line exactly if its message fills its last line. */
  lemma EmptyLastLine(xs: Bytes)
    requires xs != []
    ensures |Text(xs)| >= 2 && (Text(xs)[|Text(xs)| - 2] == 10 <==> |xs| % 54 == 0)
  {
    hide Text;
    TextLength(xs);
    LastPosition(|xs|);
    LineBreaks(xs, |Text(xs)| - 2);
  }

  lemma LastPosition(n: nat)
    requires n > 0
    ensures var i := 4 * ((n + 2) / 3) + n / 54 - 1; i >= 0 && (i % 73 == 72 <==> n % 54 == 0)
  {
    var k, r := n / 54, n % 54;
    var m := (r + 2) / 3;
    assert n == 54 * k + r;
    assert (n + 2) / 3 == 18 * k + m;
    assert 0 <= m <= 18 && (m == 0 <==> r == 0);
    var i := 4 * ((n + 2) / 3) + n / 54 - 1;
    assert i == 73 * k + 4 * m - 1;
    if m == 0 {
      assert i == 73 * (k - 1) + 72;
      Remainder(i, k - 1, 72);
    } else {
      Remainder(i, k, 4 * m - 1);
    }
  }

  lemma Remainder(i: int, q: int, r: nat)
    requires i == 73 * q + r && r < 73
    ensures i % 73 == r
  {
  }
}
