/**
 The decoding coroutine of libb64 (src/cdecode.c). `DecodeBlock` is the program; `Next`, `Emit`,
 `Final` and `Written` describe it one 6-bit value at a time, and `Symbols` says which characters
 carry a value. `WrittenIsUnpack` proves that a whole message is decoded in 24-bit groups.
 */
module Decoder {
  import opened Alphabet
  import opened Rfc4648

  // ---------- Characters ----------

  predicate IsDecoded(beyond: bv8, c: bv8) {
    !Negative(DecodeValue(beyond, c))
  }

  /** The 6-bit values carried by a text; characters without a value are skipped. */
  function Symbols(beyond: bv8, cs: Bytes): (vs: seq<bv8>)
    ensures AllSextets(vs)
  {
    if cs == [] then []
    else (if IsDecoded(beyond, cs[0]) then [DecodeValue(beyond, cs[0]) & 0x3f] else []) + Symbols(beyond, cs[1..])
  }

  lemma SymbolsNothing(beyond: bv8)
    ensures Symbols(beyond, []) == []
  {
  }

  lemma SymbolsStep(beyond: bv8, cs: Bytes)
    requires cs != []
    ensures Symbols(beyond, cs)
         == (if IsDecoded(beyond, cs[0]) then [DecodeValue(beyond, cs[0]) & 0x3f] else []) + Symbols(beyond, cs[1..])
  {
    hide DecodeValue, IsDecoded;
  }

  lemma {:induction false} SymbolsConcat(beyond: bv8, cs: Bytes, ds: Bytes)
    ensures Symbols(beyond, cs + ds) == Symbols(beyond, cs) + Symbols(beyond, ds)
  {
    hide *;
    if cs == [] {
      SymbolsNothing(beyond);
      assert cs + ds == ds;
    } else {
      SymbolsConcat(beyond, cs[1..], ds);
      assert (cs + ds)[1..] == cs[1..] + ds;
      SymbolsStep(beyond, cs + ds);
      SymbolsStep(beyond, cs);
    }
  }

  // ---------- One value at a time ----------

  /**
   What a resumed call depends on. The carried byte holds the high bits of the next byte to be
   written. In step a it is dead, and the program saves whatever the buffer holds, so the state
   has none.
   */
  datatype State = A | B(carry: bv8) | C(carry: bv8) | D(carry: bv8) {
    ghost predicate Valid() {
      && (B? ==> carry & 0x03 == 0)
      && (C? ==> carry & 0x0f == 0)
      && (D? ==> carry & 0x3f == 0)
    }
  }

  function Next(s: State, v: bv8): (t: State)
    requires s.Valid() && v < 64
    ensures t.Valid()
  {
    match s
    case A => B(v << 2)
    case B(_) => C((v & 0x0f) << 4)
    case C(_) => D((v & 0x03) << 6)
    case D(_) => A
  }

  function Emit(s: State, v: bv8): Bytes
    requires s.Valid() && v < 64
  {
    match s
    case A => []
    case B(carry) => [carry + (v >> 4)]
    case C(carry) => [carry + (v >> 2)]
    case D(carry) => [carry + v]
  }

  function Final(s: State, vs: seq<bv8>): (t: State)
    requires s.Valid() && AllSextets(vs)
    ensures t.Valid()
    decreases |vs|
  {
    if vs == [] then s else Final(Next(s, vs[0]), vs[1..])
  }

  function Written(s: State, vs: seq<bv8>): Bytes
    requires s.Valid() && AllSextets(vs)
    decreases |vs|
  {
    if vs == [] then [] else Emit(s, vs[0]) + Written(Next(s, vs[0]), vs[1..])
  }

  /** A call can be cut anywhere: what it writes and where it stops do not change. */
  lemma {:induction false} RunConcat(s: State, vs: seq<bv8>, ws: seq<bv8>)
    requires s.Valid() && AllSextets(vs) && AllSextets(ws)
    ensures AllSextets(vs + ws)
    ensures Final(s, vs + ws) == Final(Final(s, vs), ws)
    ensures Written(s, vs + ws) == Written(s, vs) + Written(Final(s, vs), ws)
    decreases |vs|
  {
    hide Next, Emit;
    if vs == [] {
      assert vs + ws == ws;
    } else {
      RunConcat(Next(s, vs[0]), vs[1..], ws);
      assert (vs + ws)[1..] == vs[1..] + ws;
    }
  }

  lemma RunNothing(s: State)
    requires s.Valid()
    ensures Final(s, []) == s && Written(s, []) == []
  {
  }

  lemma RunOne(s: State, v: bv8)
    requires s.Valid() && v < 64
    ensures Final(s, [v]) == Next(s, v) && Written(s, [v]) == Emit(s, v)
  {
    hide Next, Emit;
    assert [v][1..] == [];
    RunNothing(Next(s, v));
  }

  // ---------- The whole message ----------

  lemma JoinedBits(a: bv8, b: bv8, c: bv8, d: bv8)
    requires a < 64 && b < 64 && c < 64 && d < 64
    ensures var g := GroupOfSextets(a, b, c, d);
            && Octet(g, 0) == (a << 2) + (b >> 4)
            && Octet(g, 1) == ((b & 0x0f) << 4) + (c >> 2)
            && Octet(g, 2) == ((c & 0x03) << 6) + d
  {
  }

  lemma PairRun(a: bv8, b: bv8)
    requires a < 64 && b < 64
    ensures Final(A, [a, b]) == C((b & 0x0f) << 4)
    ensures Written(A, [a, b]) == [(a << 2) + (b >> 4)]
  {
    hide Final, Written;
    RunOne(A, a);
    RunOne(B(a << 2), b);
    RunConcat(A, [a], [b]);
    assert [a, b] == [a] + [b];
  }

  lemma TripleRun(a: bv8, b: bv8, c: bv8)
    requires a < 64 && b < 64 && c < 64
    ensures Final(A, [a, b, c]) == D((c & 0x03) << 6)
    ensures Written(A, [a, b, c]) == [(a << 2) + (b >> 4), ((b & 0x0f) << 4) + (c >> 2)]
  {
    hide Final, Written;
    PairRun(a, b);
    RunOne(C((b & 0x0f) << 4), c);
    RunConcat(A, [a, b], [c]);
    assert [a, b, c] == [a, b] + [c];
  }

  lemma GroupRun(a: bv8, b: bv8, c: bv8, d: bv8)
    requires a < 64 && b < 64 && c < 64 && d < 64
    ensures Final(A, [a, b, c, d]) == A
    ensures Written(A, [a, b, c, d]) == Octets(GroupOfSextets(a, b, c, d))
  {
    hide Final, Written, Octet, GroupOfSextets;
    TripleRun(a, b, c);
    JoinedBits(a, b, c, d);
    RunOne(D((c & 0x03) << 6), d);
    RunConcat(A, [a, b, c], [d]);
    assert [a, b, c, d] == [a, b, c] + [d];
  }

  lemma PairTail(a: bv8, b: bv8)
    requires a < 64 && b < 64
    ensures UnpackTail([a, b]) == [(a << 2) + (b >> 4)]
  {
    hide Octet, GroupOfSextets;
    JoinedBits(a, b, 0, 0);
  }

  lemma TripleTail(a: bv8, b: bv8, c: bv8)
    requires a < 64 && b < 64 && c < 64
    ensures UnpackTail([a, b, c]) == [(a << 2) + (b >> 4), ((b & 0x0f) << 4) + (c >> 2)]
  {
    hide Octet, GroupOfSextets;
    JoinedBits(a, b, c, 0);
  }

  lemma SingleTail(vs: seq<bv8>)
    requires |vs| < 2 && AllSextets(vs)
    ensures Written(A, vs) == UnpackTail(vs)
  {
  }

  lemma TailRun(vs: seq<bv8>)
    requires |vs| < 4 && AllSextets(vs)
    ensures Written(A, vs) == UnpackTail(vs)
  {
    hide Final, Written, UnpackTail;
    if |vs| < 2 {
      SingleTail(vs);
    } else if |vs| == 2 {
      PairRun(vs[0], vs[1]);
      PairTail(vs[0], vs[1]);
      assert vs == [vs[0], vs[1]];
    } else {
      TripleRun(vs[0], vs[1], vs[2]);
      TripleTail(vs[0], vs[1], vs[2]);
      assert vs == [vs[0], vs[1], vs[2]];
    }
  }

  /** From the initial state the coroutine writes the whole bytes of the 6-bit values. */
  lemma {:induction false} WrittenIsUnpack(vs: seq<bv8>)
    requires AllSextets(vs)
    ensures Written(A, vs) == Unpack(vs)
  {
    hide Octets, GroupOfSextets, UnpackTail, Final, Written;
    if |vs| < 4 {
      TailRun(vs);
    } else {
      var head, tail := [vs[0], vs[1], vs[2], vs[3]], vs[4..];
      assert vs == head + tail;
      RunConcat(A, head, tail);
      GroupRun(vs[0], vs[1], vs[2], vs[3]);
      WrittenIsUnpack(tail);
    }
  }

  // ---------- The program ----------

  datatype Step = StepA | StepB | StepC | StepD

  /** `base64_decodestate` and `base64_init_decodestate`. */
  class DecodeState {
    var step: Step
    var plainchar: bv8

    ghost function Abs(): State
      reads this
    {
      StateOf(step, plainchar)
    }

    constructor ()
      ensures Abs() == A
    {
      step := StepA;
      plainchar := 0;
    }

    method Init()
      modifies this
      ensures Abs() == A
    {
      step := StepA;
      plainchar := 0;
    }
  }

  ghost function StateOf(step: Step, plainchar: bv8): State {
    match step
    case StepA => A
    case StepB => B(plainchar)
    case StepC => C(plainchar)
    case StepD => D(plainchar)
  }

  // The masks and shifts of the program compute `Next` and `Emit`: `|` never meets a set bit.

  lemma BitsA(fragment: bv8)
    ensures fragment & 0x3f < 64
    ensures Emit(A, fragment & 0x3f) == [] && Next(A, fragment & 0x3f) == B((fragment & 0x3f) << 2)
  {
  }

  lemma BitsB(carry: bv8, fragment: bv8)
    requires B(carry).Valid()
    ensures fragment & 0x3f < 64
    ensures Emit(B(carry), fragment & 0x3f) == [carry | ((fragment & 0x30) >> 4)]
    ensures Next(B(carry), fragment & 0x3f) == C((fragment & 0x0f) << 4)
  {
  }

  lemma BitsC(carry: bv8, fragment: bv8)
    requires C(carry).Valid()
    ensures fragment & 0x3f < 64
    ensures Emit(C(carry), fragment & 0x3f) == [carry | ((fragment & 0x3c) >> 2)]
    ensures Next(C(carry), fragment & 0x3f) == D((fragment & 0x03) << 6)
  {
  }

  lemma BitsD(carry: bv8, fragment: bv8)
    requires D(carry).Valid()
    ensures fragment & 0x3f < 64
    ensures Emit(D(carry), fragment & 0x3f) == [carry | (fragment & 0x3f)] && Next(D(carry), fragment & 0x3f) == A
  {
  }

  /** One more character, and the room it needs. */
  lemma RunPrefix(beyond: bv8, s: State, cs: Bytes, i: int)
    requires s.Valid() && 0 <= i < |cs|
    ensures var t, out := Final(s, Symbols(beyond, cs[..i])), Written(s, Symbols(beyond, cs[..i]));
            var v := DecodeValue(beyond, cs[i]) & 0x3f;
            var u, more := Final(s, Symbols(beyond, cs[..i + 1])), Written(s, Symbols(beyond, cs[..i + 1]));
            && v < 64
            && (IsDecoded(beyond, cs[i]) ==> u == Next(t, v) && more == out + Emit(t, v))
            && (!IsDecoded(beyond, cs[i]) ==> u == t && more == out)
    ensures |Written(s, Symbols(beyond, cs[..i + 1]))| <= |Written(s, Symbols(beyond, cs))|
  {
    hide Next, Emit, Final, Written, DecodeValue, IsDecoded;
    var v := DecodeValue(beyond, cs[i]) & 0x3f;
    assert v < 64;
    var t := Final(s, Symbols(beyond, cs[..i]));
    var last := Symbols(beyond, [cs[i]]);
    assert cs[..i + 1] == cs[..i] + [cs[i]];
    SymbolsConcat(beyond, cs[..i], [cs[i]]);
    RunConcat(s, Symbols(beyond, cs[..i]), last);
    if IsDecoded(beyond, cs[i]) {
      assert last == [v];
      RunOne(t, v);
    } else {
      assert last == [];
      RunNothing(t);
    }
    assert cs == cs[..i + 1] + cs[i + 1..];
    SymbolsConcat(beyond, cs[..i + 1], cs[i + 1..]);
    RunConcat(s, Symbols(beyond, cs[..i + 1]), Symbols(beyond, cs[i + 1..]));
  }

  /**
   One decoded character in the state `s` turns the buffer `before` into `after`: the byte it
   completes, if any, stands at `at`, the bits carried on at `next`, and no other byte changes.
   */
  ghost predicate Accepted(s: State, v: bv8, before: Bytes, at: int, after: Bytes, next: int, resume: Step)
    requires s.Valid() && v < 64
  {
    && 0 <= at <= next < |after| == |before|
    && after[..next] == before[..at] + Emit(s, v)
    && StateOf(resume, after[next]) == Next(s, v)
    && after[next + 1..] == before[next + 1..]
  }

  // The code behind the four labels, up to the next label.

  method LabelA(fragment: bv8, plaintext: array<bv8>, at: int)
    requires 0 <= at < plaintext.Length && fragment & 0x3f < 64
    modifies plaintext
    ensures Accepted(A, fragment & 0x3f, old(plaintext[..]), at, plaintext[..], at, StepB)
  {
    BitsA(fragment);
    plaintext[at] := (fragment & 0x3f) << 2;
  }

  method LabelB(fragment: bv8, plaintext: array<bv8>, at: int)
    requires 0 <= at < plaintext.Length - 1 && fragment & 0x3f < 64 && B(plaintext[at]).Valid()
    modifies plaintext
    ensures Accepted(B(old(plaintext[at])), fragment & 0x3f, old(plaintext[..]), at, plaintext[..], at + 1, StepC)
  {
    BitsB(plaintext[at], fragment);
    plaintext[at] := plaintext[at] | ((fragment & 0x30) >> 4);
    plaintext[at + 1] := (fragment & 0x0f) << 4;
  }

  method LabelC(fragment: bv8, plaintext: array<bv8>, at: int)
    requires 0 <= at < plaintext.Length - 1 && fragment & 0x3f < 64 && C(plaintext[at]).Valid()
    modifies plaintext
    ensures Accepted(C(old(plaintext[at])), fragment & 0x3f, old(plaintext[..]), at, plaintext[..], at + 1, StepD)
  {
    BitsC(plaintext[at], fragment);
    plaintext[at] := plaintext[at] | ((fragment & 0x3c) >> 2);
    plaintext[at + 1] := (fragment & 0x03) << 6;
  }

  method LabelD(fragment: bv8, plaintext: array<bv8>, at: int)
    requires 0 <= at < plaintext.Length - 1 && fragment & 0x3f < 64 && D(plaintext[at]).Valid()
    modifies plaintext
    ensures Accepted(D(old(plaintext[at])), fragment & 0x3f, old(plaintext[..]), at, plaintext[..], at + 1, StepA)
  {
    BitsD(plaintext[at], fragment);
    plaintext[at] := plaintext[at] | (fragment & 0x3f);
  }

  /** The buffer after `i` characters: the bytes written, then the carried bits, then `before`. */
  ghost predicate Standing(beyond: bv8, s: State, cs: Bytes, i: int, before: Bytes, buffer: Bytes, at: int, step: Step)
    requires s.Valid() && 0 <= i <= |cs|
  {
    var vs := Symbols(beyond, cs[..i]);
    && 0 <= at < |buffer| == |before|
    && buffer[..at] == Written(s, vs)
    && StateOf(step, buffer[at]) == Final(s, vs)
    && buffer[at + 1..] == before[at + 1..]
  }

  lemma StandingAtStart(beyond: bv8, s: State, cs: Bytes, before: Bytes, buffer: Bytes, step: Step)
    requires s.Valid() && 0 < |buffer| == |before| && StateOf(step, buffer[0]) == s && buffer[1..] == before[1..]
    ensures Standing(beyond, s, cs, 0, before, buffer, 0, step)
  {
    assert cs[..0] == [];
    RunNothing(s);
  }

  lemma StandingAtEnd(beyond: bv8, s: State, cs: Bytes, before: Bytes, buffer: Bytes, at: int, step: Step)
    requires s.Valid() && Standing(beyond, s, cs, |cs|, before, buffer, at, step)
    ensures 0 <= at < |buffer| == |before|
    ensures at == |Written(s, Symbols(beyond, cs))| && buffer[..at] == Written(s, Symbols(beyond, cs))
    ensures StateOf(step, buffer[at]) == Final(s, Symbols(beyond, cs))
    ensures buffer[at + 1..] == before[at + 1..]
  {
    assert cs[..|cs|] == cs;
  }

  /** Where the coroutine stands before the next character, and that there is room for it. */
  lemma StandingAt(beyond: bv8, s: State, cs: Bytes, i: int, before: Bytes, buffer: Bytes, at: int, step: Step)
    requires s.Valid() && 0 <= i < |cs| && Standing(beyond, s, cs, i, before, buffer, at, step)
    requires |Written(s, Symbols(beyond, cs))| < |before|
    ensures 0 <= at < |buffer| && StateOf(step, buffer[at]).Valid() && DecodeValue(beyond, cs[i]) & 0x3f < 64
    ensures IsDecoded(beyond, cs[i]) && !step.StepA? ==> at + 1 < |buffer|
  {
    hide Final, Written, DecodeValue, Next;
    RunPrefix(beyond, s, cs, i);
  }

  lemma StandingAfter(beyond: bv8, s: State, cs: Bytes, i: int, before: Bytes, buffer: Bytes, at: int, step: Step,
                      after: Bytes, next: int, resume: Step)
    requires s.Valid() && 0 <= i < |cs| && Standing(beyond, s, cs, i, before, buffer, at, step)
    requires var v := DecodeValue(beyond, cs[i]) & 0x3f;
             if IsDecoded(beyond, cs[i]) then
               && 0 <= at < |buffer| && StateOf(step, buffer[at]).Valid() && v < 64
               && Accepted(StateOf(step, buffer[at]), v, buffer, at, after, next, resume)
             else
               after == buffer && next == at && resume == step
    ensures Standing(beyond, s, cs, i + 1, before, after, next, resume)
  {
    hide Symbols, Final, Written, DecodeValue, IsDecoded, Next, Emit, State.Valid, AllSextets;
    RunPrefix(beyond, s, cs, i);
    assert before[next + 1..] == before[at + 1..][next - at..];
    assert buffer[next + 1..] == buffer[at + 1..][next - at..];
  }

  /**
   `base64_decode_block`. The switch into the middle of the endless loop is the variable `step`:
   one iteration is one turn of the inner loop at that label. The byte behind the last one
   written is read and written too (it holds the carried bits), hence the strict bound.
   */
  method DecodeBlock(beyond: bv8, code: array<bv8>, length: int, plaintext: array<bv8>, state: DecodeState)
    returns (written: int)
    requires 0 <= length <= code.Length && code != plaintext
    requires state.Abs().Valid()
    requires |Written(state.Abs(), Symbols(beyond, code[..length]))| < plaintext.Length
    modifies plaintext, state
    ensures state.Abs() == Final(old(state.Abs()), Symbols(beyond, code[..length]))
    ensures written == |Written(old(state.Abs()), Symbols(beyond, code[..length]))| < plaintext.Length
    ensures plaintext[..written] == Written(old(state.Abs()), Symbols(beyond, code[..length]))
    ensures plaintext[written + 1..] == old(plaintext[written + 1..])
  {
    hide Symbols, Final, Written, DecodeValue, Next, Emit, State.Valid, AllSextets, Negative, Standing, Accepted;
    ghost var s, cs, before := state.Abs(), code[..length], plaintext[..];
    var codechar, plainchar := 0, 0;
    var step := state.step;
    plaintext[plainchar] := state.plainchar;
    StandingAtStart(beyond, s, cs, before, plaintext[..], step);
    while true
      invariant 0 <= codechar <= length && cs == code[..length]
      invariant Standing(beyond, s, cs, codechar, before, plaintext[..], plainchar, step)
      decreases length - codechar
    {
      if codechar == length {
        StandingAtEnd(beyond, s, cs, before, plaintext[..], plainchar, step);
        state.step := step;
        state.plainchar := plaintext[plainchar];
        return plainchar;
      }
      StandingAt(beyond, s, cs, codechar, before, plaintext[..], plainchar, step);
      var fragment := DecodeValue(beyond, code[codechar]);
      codechar := codechar + 1;
      ghost var buffer, at, from := plaintext[..], plainchar, step;
      if !Negative(fragment) {
        match step
        case StepA =>
          LabelA(fragment, plaintext, plainchar);
          step := StepB;
        case StepB =>
          LabelB(fragment, plaintext, plainchar);
          plainchar, step := plainchar + 1, StepC;
        case StepC =>
          LabelC(fragment, plaintext, plainchar);
          plainchar, step := plainchar + 1, StepD;
        case StepD =>
          LabelD(fragment, plaintext, plainchar);
          plainchar, step := plainchar + 1, StepA;
      }
      StandingAfter(beyond, s, cs, codechar - 1, before, buffer, at, from, plaintext[..], plainchar, step);
    }
  }
}
