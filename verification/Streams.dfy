/**
 The stream wrappers of libb64 (include/b64/encode.h, include/b64/decode.h) and the two string
 functions of `SASL` on top of them (Libs/XMPP/sasl.cpp).
 */
module Streams {
  import opened Alphabet
  import opened Rfc4648
  import E = Encoder
  import D = Decoder
  import EncoderShape
  import DecoderShape
  import RoundTrip

  /** The buffer size the build configures. */
  const BUFFERSIZE := 16777216

  /** `std::istream`: the characters not yet read and the stream state. */
  class InStream {
    var rest: Bytes
    var good: bool

    constructor (data: Bytes)
      ensures rest == data && good
    {
      rest := data;
      good := true;
    }

    /** What a reader can still get. */
    ghost function Pending(): Bytes
      reads this
    {
      if good then rest else []
    }

    /** `read` followed by `gcount`: a short read leaves the stream in a failed state. */
    method Read(buffer: array<bv8>, n: int) returns (count: int)
      requires 0 <= n <= buffer.Length
      modifies this, buffer
      ensures count == if n <= |old(Pending())| then n else |old(Pending())|
      ensures buffer[..count] == old(Pending())[..count]
      ensures Pending() == old(Pending())[count..]
      ensures good == (old(good) && count == n)
      ensures !good ==> Pending() == []
    {
      if !good {
        return 0;
      }
      count := if n <= |rest| then n else |rest|;
      forall i | 0 <= i < count {
        buffer[i] := rest[i];
      }
      rest := rest[count..];
      good := count == n;
    }
  }

  /** `std::ostream`. */
  class OutStream {
    var data: Bytes

    constructor ()
      ensures data == []
    {
      data := [];
    }

    method Write(buffer: array<bv8>, n: int)
      requires 0 <= n <= buffer.Length
      modifies this
      ensures data == old(data) + buffer[..n]
    {
      data := data + buffer[..n];
    }
  }

  /** Of the stream `xs`, `done` has been encoded and written behind what was in `before`. */
  ghost predicate Encoded(xs: Bytes, done: Bytes, rest: Bytes, s: E.State, before: Bytes, data: Bytes) {
    xs == done + rest && s == E.Final(E.INITIAL, done) && data == before + E.Written(E.INITIAL, done)
  }

  lemma EncodingStarts(xs: Bytes, before: Bytes)
    ensures Encoded(xs, [], xs, E.INITIAL, before, before)
  {
    E.RunNothing(E.INITIAL);
  }

  lemma EncodingGoesOn(xs: Bytes, done: Bytes, rest: Bytes, n: nat, s: E.State, before: Bytes, data: Bytes)
    requires Encoded(xs, done, rest, s, before, data) && n <= |rest|
    ensures s.Valid()
    ensures Encoded(xs, done + rest[..n], rest[n..], E.Final(s, rest[..n]), before, data + E.Written(s, rest[..n]))
  {
    hide E.Written, E.Final;
    E.RunConcat(E.INITIAL, done, rest[..n]);
    assert rest == rest[..n] + rest[n..];
  }

  lemma EncodingEnds(xs: Bytes, done: Bytes, s: E.State, before: Bytes, data: Bytes)
    requires Encoded(xs, done, [], s, before, data)
    ensures s.Valid() && data + E.Ending(s) == before + E.Text(xs)
  {
    hide E.Written, E.Final, E.Ending, E.Text;
    assert done + [] == done;
    E.WrittenIsText(xs);
  }

  /** `base64::encoder`. */
  class StreamEncoder {
    const state: E.EncodeState
    const buffersize: int

    constructor (buffersize: int := BUFFERSIZE)
      ensures this.buffersize == buffersize && fresh(state)
    {
      this.state := new E.EncodeState();
      this.buffersize := buffersize;
    }

    /** The same text for every admissible buffer size. */
    method Encode(input: InStream, output: OutStream)
      requires 2 <= buffersize
      modifies state, input, output
      ensures output.data == old(output.data) + E.Text(old(input.Pending()))
      ensures input.Pending() == [] && state.Abs() == E.INITIAL
    {
      hide *;
      state.Init();
      var n := buffersize;
      var plaintext := new bv8[n];
      var code := new bv8[2 * n];
      ghost var xs, before := input.Pending(), output.data;
      ghost var done: Bytes := [];
      EncodingStarts(xs, before);
      var more := true;
      while more
        invariant Encoded(xs, done, input.Pending(), state.Abs(), before, output.data)
        invariant !more ==> input.Pending() == []
        decreases |input.Pending()|, more
      {
        ghost var rest, s, data := input.Pending(), state.Abs(), output.data;
        var plainlength := input.Read(plaintext, n);
        ghost var block := rest[..plainlength];
        EncodingGoesOn(xs, done, rest, plainlength, s, before, data);
        EncoderShape.BlockFits(s, block, n);
        var codelength := E.EncodeBlock(plaintext, plainlength, code, state);
        output.Write(code, codelength);
        done := done + block;
        more := input.good && plainlength > 0;
      }
      EncodingEnds(xs, done, state.Abs(), before, output.data);
      EncoderShape.BlockFits(state.Abs(), [], n);
      var codelength := E.EncodeBlockEnd(code, state);
      output.Write(code, codelength);
      state.Init();
    }
  }

  /** Of the text `cs`, `done` has been decoded and written behind what was in `before`. */
  ghost predicate Decoded(beyond: bv8, cs: Bytes, done: Bytes, rest: Bytes, s: D.State, before: Bytes, data: Bytes) {
    && cs == done + rest
    && s == D.Final(D.A, D.Symbols(beyond, done))
    && data == before + D.Written(D.A, D.Symbols(beyond, done))
  }

  lemma DecodingStarts(beyond: bv8, cs: Bytes, before: Bytes)
    ensures Decoded(beyond, cs, [], cs, D.A, before, before)
  {
    D.RunNothing(D.A);
    D.SymbolsNothing(beyond);
  }

  lemma DecodingGoesOn(beyond: bv8, cs: Bytes, done: Bytes, rest: Bytes, n: nat, s: D.State, before: Bytes, data: Bytes)
    requires Decoded(beyond, cs, done, rest, s, before, data) && n <= |rest|
    ensures s.Valid()
    ensures var vs := D.Symbols(beyond, rest[..n]);
            Decoded(beyond, cs, done + rest[..n], rest[n..], D.Final(s, vs), before, data + D.Written(s, vs))
  {
    hide D.Written, D.Final, D.Symbols;
    D.SymbolsConcat(beyond, done, rest[..n]);
    D.RunConcat(D.A, D.Symbols(beyond, done), D.Symbols(beyond, rest[..n]));
    assert rest == rest[..n] + rest[n..];
  }

  lemma DecodingEnds(beyond: bv8, cs: Bytes, done: Bytes, s: D.State, before: Bytes, data: Bytes)
    requires Decoded(beyond, cs, done, [], s, before, data)
    ensures data == before + RoundTrip.Decode(beyond, cs)
  {
    hide D.Written, D.Symbols;
    assert done + [] == done;
  }

  /** `base64::decoder`, with the byte that follows the decoding table in memory. */
  class StreamDecoder {
    const state: D.DecodeState
    const buffersize: int
    const beyond: bv8

    constructor (beyond: bv8, buffersize: int := BUFFERSIZE)
      ensures this.buffersize == buffersize && this.beyond == beyond && fresh(state)
    {
      this.state := new D.DecodeState();
      this.buffersize := buffersize;
      this.beyond := beyond;
    }

    /** The same bytes for every admissible buffer size. */
    method Decode(input: InStream, output: OutStream)
      requires 4 <= buffersize
      modifies state, input, output
      ensures output.data == old(output.data) + RoundTrip.Decode(beyond, old(input.Pending()))
      ensures input.Pending() == [] && state.Abs() == D.A
    {
      hide *;
      state.Init();
      var n := buffersize;
      var code := new bv8[n];
      var plaintext := new bv8[n];
      ghost var cs, before := input.Pending(), output.data;
      ghost var done: Bytes := [];
      DecodingStarts(beyond, cs, before);
      var more := true;
      while more
        invariant Decoded(beyond, cs, done, input.Pending(), state.Abs(), before, output.data)
        invariant !more ==> input.Pending() == []
        decreases |input.Pending()|, more
      {
        ghost var rest, s, data := input.Pending(), state.Abs(), output.data;
        var codelength := input.Read(code, n);
        ghost var block := rest[..codelength];
        DecodingGoesOn(beyond, cs, done, rest, codelength, s, before, data);
        DecoderShape.BlockFits(beyond, s, block, n);
        var plainlength := D.DecodeBlock(beyond, code, codelength, plaintext, state);
        output.Write(plaintext, plainlength);
        done := done + block;
        more := input.good && codelength > 0;
      }
      DecodingEnds(beyond, cs, done, state.Abs(), before, output.data);
      state.Init();
    }
  }

  // ---------- SASL::EncodeBase64 and SASL::DecodeBase64 ----------

  function WithoutNewlines(cs: Bytes): Bytes {
    if cs == [] then [] else (if cs[0] == NEWLINE then [] else [cs[0]]) + WithoutNewlines(cs[1..])
  }

  lemma WithoutNewlinesNothing()
    ensures WithoutNewlines([]) == []
  {
  }

  lemma WithoutNewlinesStep(cs: Bytes)
    requires cs != []
    ensures WithoutNewlines(cs) == (if cs[0] == NEWLINE then [] else [cs[0]]) + WithoutNewlines(cs[1..])
  {
  }

  lemma {:induction false} WithoutNewlinesConcat(cs: Bytes, ds: Bytes)
    ensures WithoutNewlines(cs + ds) == WithoutNewlines(cs) + WithoutNewlines(ds)
  {
    hide *;
    if cs == [] {
      WithoutNewlinesNothing();
      assert cs + ds == ds;
    } else {
      WithoutNewlinesConcat(cs[1..], ds);
      assert (cs + ds)[1..] == cs[1..] + ds;
      WithoutNewlinesStep(cs + ds);
      WithoutNewlinesStep(cs);
    }
  }

  lemma {:induction false} NoNewlines(cs: Bytes)
    requires NEWLINE !in cs
    ensures WithoutNewlines(cs) == cs
  {
    if cs != [] {
      NoNewlines(cs[1..]);
    }
  }

  function Occurrences(cs: Bytes, c: bv8): nat {
    if cs == [] then 0 else (if cs[0] == c then 1 else 0) + Occurrences(cs[1..], c)
  }

  /** Every character stays as often as it was, but for the line breaks. With `WithoutNewlinesConcat`, in order. */
  lemma {:induction false} OnlyNewlinesErased(cs: Bytes, c: bv8)
    ensures Occurrences(WithoutNewlines(cs), c) == if c == 10 then 0 else Occurrences(cs, c)
  {
    if cs != [] {
      OnlyNewlinesErased(cs[1..], c);
      var rest := WithoutNewlines(cs[1..]);
      assert [] + rest == rest && ([cs[0]] + rest)[1..] == rest;
    }
  }

  lemma LineWithoutNewlines(xs: Bytes)
    ensures WithoutNewlines(Encode(xs) + [NEWLINE]) == Encode(xs)
  {
    hide Encode;
    EncoderShape.EncodeIsOneLine(xs);
    assert !IsSymbol(NEWLINE);
    NoNewlines(Encode(xs));
    WithoutNewlinesConcat(Encode(xs), [NEWLINE]);
  }

  /** Without its line breaks, the text of a message is its encoding as one line. */
  lemma {:induction false} TextWithoutNewlines(xs: Bytes)
    ensures WithoutNewlines(E.Text(xs)) == Encode(xs)
  {
    hide Encode, WithoutNewlines;
    if |xs| < 54 {
      LineWithoutNewlines(xs);
    } else {
      var line, rest := xs[..54], xs[54..];
      LineWithoutNewlines(line);
      TextWithoutNewlines(rest);
      WithoutNewlinesConcat(Encode(line) + [NEWLINE], E.Text(rest));
      EncodeConcat(line, rest);
      assert xs == line + rest;
    }
  }

  /** `boost::erase_all(text, "\n")`. */
  method EraseNewlines(text: Bytes) returns (kept: Bytes)
    ensures kept == WithoutNewlines(text)
    ensures forall c :: Occurrences(kept, c) == if c == 10 then 0 else Occurrences(text, c)
  {
    kept := [];
    for i := 0 to |text|
      invariant kept == WithoutNewlines(text[..i])
    {
      assert text[..i + 1] == text[..i] + [text[i]];
      WithoutNewlinesConcat(text[..i], [text[i]]);
      if text[i] != NEWLINE {
        kept := kept + [text[i]];
      }
    }
    assert text[..|text|] == text;
    forall c {
      OnlyNewlinesErased(text, c);
    }
  }

  method EncodeBase64(encoder: StreamEncoder, input: Bytes) returns (text: Bytes)
    requires 2 <= encoder.buffersize
    modifies encoder.state
    ensures text == Encode(input)
  {
    var iss := new InStream(input);
    var oss := new OutStream();
    encoder.Encode(iss, oss);
    assert oss.data == E.Text(input);
    text := EraseNewlines(oss.data);
    TextWithoutNewlines(input);
  }

  method DecodeBase64(decoder: StreamDecoder, text: Bytes) returns (output: Bytes)
    requires 4 <= decoder.buffersize
    modifies decoder.state
    ensures output == RoundTrip.Decode(decoder.beyond, text)
  {
    var iss := new InStream(text);
    var oss := new OutStream();
    decoder.Decode(iss, oss);
    output := oss.data;
  }
}
