/**
 The encoding coroutine of libb64 (src/cencode.c). `EncodeBlock` and `EncodeBlockEnd` are the
 program; `Next`, `Emit`, `Final`, `Written` and `Ending` describe them one byte at a time;
 `Text` is what a whole message must look like, and `WrittenIsText` proves that it does.
 */
module Encoder {
  import opened Alphabet
  import opened Rfc4648

  const CHARS_PER_LINE := 72
  const GROUPS_PER_LINE := CHARS_PER_LINE / 4

  // ---------- One byte at a time ----------

  /**
   What a resumed call depends on: where it resumes, the bits carried over and the number of
   groups on the current line. In step A the carried bits are dead, so the state has none.
   */
  datatype State = A(count: int) | B(carry: bv8, count: int) | C(carry: bv8, count: int) {
    ghost predicate Valid() {
      && 0 <= count < GROUPS_PER_LINE
      && (B? ==> carry < 64 && carry & 0x0f == 0)
      && (C? ==> carry < 64 && carry & 0x03 == 0)
    }
  }

  const INITIAL := A(0)

  /** The state after one more byte. */
  function Next(s: State, b: bv8): (t: State)
    requires s.Valid()
    ensures t.Valid()
  {
    match s
    case A(n) => B((b & 0x03) << 4, n)
    case B(_, n) => C((b & 0x0f) << 2, n)
    case C(_, n) => A(NextCount(n))
  }

  /** The number of groups on the line after one more group. */
  function NextCount(n: int): int {
    if n + 1 == GROUPS_PER_LINE then 0 else n + 1
  }

  /** The line break written after a group that fills the line. */
  function LineBreak(n: int): Bytes {
    if n + 1 == GROUPS_PER_LINE then [NEWLINE] else []
  }

  /** The characters written for one more byte; the carried bits are added to its first bits. */
  function Emit(s: State, b: bv8): Bytes
    requires s.Valid()
  {
    match s
    case A(_) => [EncodingAt(b >> 2)]
    case B(carry, _) => [EncodingAt(carry + (b >> 4))]
    case C(carry, n) =>
      [EncodingAt(carry + (b >> 6)), EncodingAt(b & 0x3f)] + LineBreak(n)
  }

  function Final(s: State, xs: Bytes): (t: State)
    requires s.Valid()
    ensures t.Valid()
    decreases |xs|
  {
    if xs == [] then s else Final(Next(s, xs[0]), xs[1..])
  }

  function Written(s: State, xs: Bytes): Bytes
    requires s.Valid()
    decreases |xs|
  {
    if xs == [] then [] else Emit(s, xs[0]) + Written(Next(s, xs[0]), xs[1..])
  }

  function Ending(s: State): Bytes
    requires s.Valid()
  {
    match s
    case A(_) => [NEWLINE]
    case B(carry, _) => [EncodingAt(carry), PAD, PAD, NEWLINE]
    case C(carry, _) => [EncodingAt(carry), PAD, NEWLINE]
  }

  /** A call can be cut anywhere: what it writes and where it stops do not change. */
  lemma {:induction false} RunConcat(s: State, xs: Bytes, ys: Bytes)
    requires s.Valid()
    ensures Final(s, xs + ys) == Final(Final(s, xs), ys)
    ensures Written(s, xs + ys) == Written(s, xs) + Written(Final(s, xs), ys)
    decreases |xs|
  {
    hide Next, Emit;
    if xs == [] {
      assert xs + ys == ys;
    } else {
      RunConcat(Next(s, xs[0]), xs[1..], ys);
      assert (xs + ys)[1..] == xs[1..] + ys;
    }
  }

  lemma RunOne(s: State, b: bv8)
    requires s.Valid()
    ensures Final(s, [b]) == Next(s, b) && Written(s, [b]) == Emit(s, b)
  {
    hide Next, Emit;
    assert [b][1..] == [];
    assert Written(Next(s, b), []) == [];
  }

  // ---------- The whole message ----------

  /** Every 54 bytes make a line of 72 characters; the rest makes a last, shorter line. */
  function Text(xs: Bytes): Bytes {
    if |xs| < 54 then Encode(xs) + [NEWLINE]
    else Encode(xs[..54]) + [NEWLINE] + Text(xs[54..])
  }

  /** What is still to be written when `n` groups stand on the current line and `xs` is left. */
  ghost function Layout(n: int, xs: Bytes): Bytes
    requires 0 <= n < GROUPS_PER_LINE
  {
    var room := 3 * (GROUPS_PER_LINE - n);
    if |xs| < room then Encode(xs) + [NEWLINE]
    else Encode(xs[..room]) + [NEWLINE] + Text(xs[room..])
  }

  lemma CarriedBits(x: bv8, y: bv8, z: bv8)
    ensures var g := GroupOfBytes(x, y, z);
            && Sextet(g, 0) == x >> 2
            && Sextet(g, 1) == ((x & 0x03) << 4) + (y >> 4)
            && Sextet(g, 2) == ((y & 0x0f) << 2) + (z >> 6)
            && Sextet(g, 3) == z & 0x3f
  {
  }

  lemma EncodeGroup(x: bv8, y: bv8, z: bv8)
    ensures Encode([x, y, z]) ==
            [EncodingAt(x >> 2), EncodingAt(((x & 0x03) << 4) + (y >> 4)),
             EncodingAt(((y & 0x0f) << 2) + (z >> 6)), EncodingAt(z & 0x3f)]
  {
    hide Sextet, GroupOfBytes, EncodingAt;
    CarriedBits(x, y, z);
    assert [x, y, z][3..] == [];
    assert Pack([x, y, z]) == Sextets(GroupOfBytes(x, y, z));
  }

  lemma EncodePair(x: bv8, y: bv8)
    ensures Encode([x, y]) ==
            [EncodingAt(x >> 2), EncodingAt(((x & 0x03) << 4) + (y >> 4)), EncodingAt((y & 0x0f) << 2), PAD]
  {
    hide Sextet, GroupOfBytes, EncodingAt;
    CarriedBits(x, y, 0);
  }

  lemma EncodeSingle(x: bv8)
    ensures Encode([x]) == [EncodingAt(x >> 2), EncodingAt((x & 0x03) << 4), PAD, PAD]
  {
    hide Sextet, GroupOfBytes, EncodingAt;
    CarriedBits(x, 0, 0);
  }

  lemma SingleRun(n: int, x: bv8)
    requires 0 <= n < GROUPS_PER_LINE
    ensures Final(A(n), [x]) == B((x & 0x03) << 4, n)
    ensures Written(A(n), [x]) == [EncodingAt(x >> 2)]
  {
    RunOne(A(n), x);
  }

  lemma PairRun(n: int, x: bv8, y: bv8)
    requires 0 <= n < GROUPS_PER_LINE
    ensures Final(A(n), [x, y]) == C((y & 0x0f) << 2, n)
    ensures Written(A(n), [x, y]) == [EncodingAt(x >> 2), EncodingAt(((x & 0x03) << 4) + (y >> 4))]
  {
    hide EncodingAt, Final, Written;
    SingleRun(n, x);
    RunOne(B((x & 0x03) << 4, n), y);
    RunConcat(A(n), [x], [y]);
    assert [x, y] == [x] + [y];
  }

  lemma GroupRun(n: int, x: bv8, y: bv8, z: bv8)
    requires 0 <= n < GROUPS_PER_LINE
    ensures Final(A(n), [x, y, z]) == A(NextCount(n))
    ensures Written(A(n), [x, y, z]) == Encode([x, y, z]) + LineBreak(n)
  {
    hide Encode, EncodingAt, Final, Written;
    EncodeGroup(x, y, z);
    PairRun(n, x, y);
    RunOne(C((y & 0x0f) << 2, n), z);
    RunConcat(A(n), [x, y], [z]);
    assert [x, y, z] == [x, y] + [z];
  }

  lemma LayoutStep(n: int, xs: Bytes)
    requires 0 <= n < GROUPS_PER_LINE && |xs| >= 3
    ensures Layout(n, xs) == Encode(xs[..3]) + LineBreak(n) + Layout(NextCount(n), xs[3..])
  {
    hide Encode;
    var room := 3 * (GROUPS_PER_LINE - n);
    if n + 1 == GROUPS_PER_LINE {
      assert Layout(0, xs[3..]) == Text(xs[3..]);
    } else if |xs| < room {
      EncodeConcat(xs[..3], xs[3..]);
      assert xs == xs[..3] + xs[3..];
    } else {
      EncodeConcat(xs[..3], xs[3..room]);
      assert xs[..room] == xs[..3] + xs[3..room];
      assert xs[3..][..room - 3] == xs[3..room];
      assert xs[3..][room - 3..] == xs[room..];
    }
  }

  lemma ShortLayout(n: int, xs: Bytes)
    requires 0 <= n < GROUPS_PER_LINE && |xs| < 3
    ensures Layout(n, xs) == Encode(xs) + [NEWLINE]
  {
    hide Encode;
  }

  lemma {:induction false} RunIsLayout(n: int, xs: Bytes)
    requires 0 <= n < GROUPS_PER_LINE
    ensures Written(A(n), xs) + Ending(Final(A(n), xs)) == Layout(n, xs)
    decreases |xs|
  {
    hide Encode, Final, Written, Ending, Layout, LineBreak;
    if |xs| < 3 {
      ShortLayout(n, xs);
      TailText(n, xs);
    } else {
      var head, tail := [xs[0], xs[1], xs[2]], xs[3..];
      assert head == xs[..3] && xs == head + tail;
      RunConcat(A(n), head, tail);
      GroupRun(n, xs[0], xs[1], xs[2]);
      RunIsLayout(NextCount(n), tail);
      LayoutStep(n, xs);
      var first, rest := Encode(head) + LineBreak(n), Written(A(NextCount(n)), tail);
      assert (first + rest) + Ending(Final(A(n), xs)) == first + (rest + Ending(Final(A(n), xs)));
    }
  }

  lemma EmptyText(n: int)
    requires 0 <= n < GROUPS_PER_LINE
    ensures Written(A(n), []) + Ending(Final(A(n), [])) == Encode([]) + [NEWLINE]
  {
    assert Encode([]) == [];
  }

  lemma SingleText(n: int, x: bv8)
    requires 0 <= n < GROUPS_PER_LINE
    ensures Written(A(n), [x]) + Ending(Final(A(n), [x])) == Encode([x]) + [NEWLINE]
  {
    hide Encode, EncodingAt, Final, Written;
    EncodeSingle(x);
    SingleRun(n, x);
  }

  lemma PairText(n: int, x: bv8, y: bv8)
    requires 0 <= n < GROUPS_PER_LINE
    ensures Written(A(n), [x, y]) + Ending(Final(A(n), [x, y])) == Encode([x, y]) + [NEWLINE]
  {
    hide Encode, EncodingAt, Final, Written;
    EncodePair(x, y);
    PairRun(n, x, y);
  }

  lemma TailText(n: int, xs: Bytes)
    requires 0 <= n < GROUPS_PER_LINE && |xs| < 3
    ensures Written(A(n), xs) + Ending(Final(A(n), xs)) == Encode(xs) + [NEWLINE]
  {
    hide *;
    if |xs| == 0 {
      EmptyText(n);
      assert xs == [];
    } else if |xs| == 1 {
      SingleText(n, xs[0]);
      assert xs == [xs[0]];
    } else {
      PairText(n, xs[0], xs[1]);
      assert xs == [xs[0], xs[1]];
    }
  }

  /** From the initial state, one run over the message and the closing call write its text. */
  lemma WrittenIsText(xs: Bytes)
    ensures Written(INITIAL, xs) + Ending(Final(INITIAL, xs)) == Text(xs)
  {
    hide Written, Final, Ending, Layout, Text;
    RunIsLayout(0, xs);
    FirstLayout(xs);
  }

  lemma FirstLayout(xs: Bytes)
    ensures Layout(0, xs) == Text(xs)
  {
    hide Encode;
  }

  // ---------- The program ----------

  datatype Step = StepA | StepB | StepC

  /** `base64_encodestate` and `base64_init_encodestate`. */
  class EncodeState {
    var step: Step
    var result: bv8
    var stepcount: int

    ghost function Abs(): State
      reads this
    {
      StateOf(step, result, stepcount)
    }

    constructor ()
      ensures Abs() == INITIAL
    {
      step := StepA;
      result := 0;
      stepcount := 0;
    }

    method Init()
      modifies this
      ensures Abs() == INITIAL
    {
      step := StepA;
      result := 0;
      stepcount := 0;
    }
  }

  ghost function StateOf(step: Step, result: bv8, stepcount: int): State {
    match step
    case StepA => A(stepcount)
    case StepB => B(result, stepcount)
    case StepC => C(result, stepcount)
  }

  lemma RunNothing(s: State)
    requires s.Valid()
    ensures Final(s, []) == s && Written(s, []) == []
  {
  }

  /** One more byte, and the room it needs. */
  lemma RunPrefix(s: State, xs: Bytes, i: int)
    requires s.Valid() && 0 <= i < |xs|
    ensures Final(s, xs[..i + 1]) == Next(Final(s, xs[..i]), xs[i])
    ensures Written(s, xs[..i + 1]) == Written(s, xs[..i]) + Emit(Final(s, xs[..i]), xs[i])
    ensures |Written(s, xs[..i + 1])| <= |Written(s, xs)|
  {
    hide *;
    assert xs[..i + 1] == xs[..i] + [xs[i]];
    RunConcat(s, xs[..i], [xs[i]]);
    RunOne(Final(s, xs[..i]), xs[i]);
    assert xs == xs[..i + 1] + xs[i + 1..];
    RunConcat(s, xs[..i + 1], xs[i + 1..]);
  }

  /** Writing `out` at `at` turns the buffer `before` into `after`, and no other character changes. */
  ghost predicate Appended(before: Bytes, at: int, out: Bytes, after: Bytes) {
    && 0 <= at <= at + |out| <= |after| == |before|
    && after[..at + |out|] == before[..at] + out
    && after[at + |out|..] == before[at + |out|..]
  }

  // The masks and shifts of the program compute `Next` and `Emit`: `|` never meets a set bit.

  lemma BitsA(n: int, b: bv8)
    requires A(n).Valid()
    ensures !Negative((b & 0xfc) >> 2) && Emit(A(n), b) == [EncodeValue((b & 0xfc) >> 2)]
    ensures Next(A(n), b) == B((b & 0x03) << 4, n)
  {
  }

  lemma BitsB(carry: bv8, n: int, b: bv8)
    requires B(carry, n).Valid()
    ensures !Negative(carry | ((b & 0xf0) >> 4)) && Emit(B(carry, n), b) == [EncodeValue(carry | ((b & 0xf0) >> 4))]
    ensures Next(B(carry, n), b) == C((b & 0x0f) << 2, n)
  {
  }

  lemma BitsC(carry: bv8, n: int, b: bv8)
    requires C(carry, n).Valid()
    ensures !Negative(carry | ((b & 0xc0) >> 6)) && !Negative(b & 0x3f)
    ensures Emit(C(carry, n), b) == [EncodeValue(carry | ((b & 0xc0) >> 6)), EncodeValue(b & 0x3f)] + LineBreak(n)
  {
  }

  // The code behind the three labels, up to the next label.

  method LabelA(fragment: bv8, code: array<bv8>, at: int, ghost n: int) returns (result: bv8)
    requires A(n).Valid() && 0 <= at <= code.Length - |Emit(A(n), fragment)|
    modifies code
    ensures |Emit(A(n), fragment)| == 1 && Appended(old(code[..]), at, Emit(A(n), fragment), code[..])
    ensures B(result, n) == Next(A(n), fragment)
  {
    BitsA(n, fragment);
    result := (fragment & 0xfc) >> 2;
    code[at] := EncodeValue(result);
    result := (fragment & 0x03) << 4;
  }

  method LabelB(carry: bv8, fragment: bv8, code: array<bv8>, at: int, ghost n: int) returns (result: bv8)
    requires B(carry, n).Valid() && 0 <= at <= code.Length - |Emit(B(carry, n), fragment)|
    modifies code
    ensures |Emit(B(carry, n), fragment)| == 1 && Appended(old(code[..]), at, Emit(B(carry, n), fragment), code[..])
    ensures C(result, n) == Next(B(carry, n), fragment)
  {
    BitsB(carry, n, fragment);
    result := carry | ((fragment & 0xf0) >> 4);
    code[at] := EncodeValue(result);
    result := (fragment & 0x0f) << 2;
  }

  method LabelC(carry: bv8, fragment: bv8, code: array<bv8>, at: int, state: EncodeState)
    returns (codechar: int, result: bv8)
    requires C(carry, state.stepcount).Valid() && 0 <= at <= code.Length - |Emit(C(carry, state.stepcount), fragment)|
    modifies code, state`stepcount
    ensures codechar == at + |Emit(C(carry, old(state.stepcount)), fragment)|
    ensures Appended(old(code[..]), at, Emit(C(carry, old(state.stepcount)), fragment), code[..])
    ensures A(state.stepcount) == Next(C(carry, old(state.stepcount)), fragment)
  {
    hide Emit, EncodeValue, Negative;
    BitsC(carry, state.stepcount, fragment);
    codechar := at;
    result := carry | ((fragment & 0xc0) >> 6);
    code[codechar] := EncodeValue(result);
    codechar := codechar + 1;
    result := (fragment & 0x3f) >> 0;
    code[codechar] := EncodeValue(result);
    codechar := codechar + 1;
    state.stepcount := state.stepcount + 1;
    if state.stepcount == CHARS_PER_LINE / 4 {
      code[codechar] := NEWLINE;
      codechar := codechar + 1;
      state.stepcount := 0;
    }
  }

  /** The buffer after `i` bytes: the characters written, then `before`. */
  ghost predicate Standing(s: State, xs: Bytes, i: int, before: Bytes, buffer: Bytes, at: int, t: State)
    requires s.Valid() && 0 <= i <= |xs|
  {
    t == Final(s, xs[..i]) && Appended(before, 0, Written(s, xs[..i]), buffer) && at == |Written(s, xs[..i])|
  }

  lemma StandingAtStart(s: State, xs: Bytes, before: Bytes)
    requires s.Valid()
    ensures Standing(s, xs, 0, before, before, 0, s)
  {
    assert xs[..0] == [];
    RunNothing(s);
  }

  lemma StandingAtEnd(s: State, xs: Bytes, before: Bytes, buffer: Bytes, at: int, t: State)
    requires s.Valid() && Standing(s, xs, |xs|, before, buffer, at, t)
    ensures at == |Written(s, xs)| <= |buffer| == |before| && t == Final(s, xs)
    ensures buffer[..at] == Written(s, xs) && buffer[at..] == before[at..]
  {
    assert xs[..|xs|] == xs;
  }

  /** Where the coroutine stands before the next byte, and that there is room for it. */
  lemma StandingAt(s: State, xs: Bytes, i: int, before: Bytes, buffer: Bytes, at: int, t: State)
    requires s.Valid() && 0 <= i < |xs| && Standing(s, xs, i, before, buffer, at, t)
    requires |Written(s, xs)| <= |before|
    ensures t.Valid() && 0 <= at <= |buffer| - |Emit(t, xs[i])|
  {
    hide Final, Written, Emit;
    RunPrefix(s, xs, i);
  }

  lemma StandingAfter(s: State, xs: Bytes, i: int, before: Bytes, buffer: Bytes, at: int, t: State,
                      after: Bytes, next: int, u: State)
    requires s.Valid() && 0 <= i < |xs| && Standing(s, xs, i, before, buffer, at, t)
    requires t.Valid() && Appended(buffer, at, Emit(t, xs[i]), after) && next == at + |Emit(t, xs[i])|
    requires u == Next(t, xs[i])
    ensures Standing(s, xs, i + 1, before, after, next, u)
  {
    hide Final, Written, Emit, Next, State.Valid;
    RunPrefix(s, xs, i);
    assert buffer[next..] == buffer[at..][next - at..];
    assert before[next..] == before[at..][next - at..];
  }

  /**
   `base64_encode_block`. The switch into the middle of the endless loop is the variable `step`:
   one iteration is the code from one label to the next. The output buffer must have room for
   what is written, and nothing behind that is touched.
   */
  method EncodeBlock(plaintext: array<bv8>, length: int, code: array<bv8>, state: EncodeState) returns (written: int)
    requires 0 <= length <= plaintext.Length && plaintext != code
    requires state.Abs().Valid()
    requires |Written(state.Abs(), plaintext[..length])| <= code.Length
    modifies code, state
    ensures state.Abs() == Final(old(state.Abs()), plaintext[..length])
    ensures written == |Written(old(state.Abs()), plaintext[..length])| <= code.Length
    ensures code[..written] == Written(old(state.Abs()), plaintext[..length])
    ensures code[written..] == old(code[written..])
  {
    hide Final, Written, Emit, Next, State.Valid, Standing, Appended;
    ghost var s, xs, before := state.Abs(), plaintext[..length], code[..];
    var plainchar, codechar := 0, 0;
    var result, step := state.result, state.step;
    StandingAtStart(s, xs, before);
    while true
      invariant 0 <= plainchar <= length && xs == plaintext[..length]
      invariant Standing(s, xs, plainchar, before, code[..], codechar, StateOf(step, result, state.stepcount))
      decreases length - plainchar
    {
      ghost var buffer, at, t := code[..], codechar, StateOf(step, result, state.stepcount);
      if plainchar == length {
        StandingAtEnd(s, xs, before, buffer, at, t);
        state.result := result;
        state.step := step;
        return codechar;
      }
      StandingAt(s, xs, plainchar, before, buffer, at, t);
      var fragment := plaintext[plainchar];
      plainchar := plainchar + 1;
      match step {
        case StepA =>
          result := LabelA(fragment, code, codechar, state.stepcount);
          codechar, step := codechar + 1, StepB;
        case StepB =>
          result := LabelB(result, fragment, code, codechar, state.stepcount);
          codechar, step := codechar + 1, StepC;
        case StepC =>
          codechar, result := LabelC(result, fragment, code, codechar, state);
          step := StepA;
      }
      StandingAfter(s, xs, plainchar - 1, before, buffer, at, t,
                    code[..], codechar, StateOf(step, result, state.stepcount));
    }
  }

  /** `base64_encode_blockend`. */
  method EncodeBlockEnd(code: array<bv8>, state: EncodeState) returns (written: int)
    requires state.Abs().Valid()
    requires |Ending(state.Abs())| <= code.Length
    modifies code
    ensures written == |Ending(state.Abs())|
    ensures code[..written] == Ending(state.Abs())
    ensures forall k | written <= k < code.Length :: code[k] == old(code[k])
  {
    hide EncodingAt;
    var codechar := 0;
    match state.step {
      case StepB =>
        code[codechar] := EncodeValue(state.result);
        code[codechar + 1] := PAD;
        code[codechar + 2] := PAD;
        codechar := codechar + 3;
      case StepC =>
        code[codechar] := EncodeValue(state.result);
        code[codechar + 1] := PAD;
        codechar := codechar + 2;
      case StepA =>
    }
    code[codechar] := NEWLINE;
    return codechar + 1;
  }
}
