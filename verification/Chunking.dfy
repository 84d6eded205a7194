/**
 Login parsing and the boundaries of reads: exactly which byte streams are cut into the same stanzas
 however they arrive (Libs/XMPP/sasl.cpp, Libs/XMPP/xmpp_client.cpp).
 */
module Chunking {
  import opened Alphabet
  import opened Blocks
  import opened StanzaParser

  /** The phase after a cut: an empty stanza counts as none. */
  function PhaseAfter(phase: Phase, cut: Cut): Phase {
    if cut.stanza == [] then phase else DecodeChallenge
  }

  function Found(cut: Cut): seq<Bytes> {
    if cut.stanza == [] then [] else [cut.stanza]
  }

  /** The stanzas found if the state machine were called until nothing more is found. */
  ghost function Expected(phase: Phase, b: Bytes): seq<Bytes>
    decreases |b|
  {
    match ExtractXML(b, StartTag(phase), EndTag(phase))
    case None => []
    case Some(x) => Found(x.cut) + Expected(PhaseAfter(phase, x.cut), x.rest)
  }

  /**
   All the way through `b`, no awaited end tag ends before its start tag begins, unless that start
   tag ends the whole of `b`.
   */
  ghost predicate TagsInOrder(phase: Phase, b: Bytes)
    decreases |b|
  {
    match ExtractXML(b, StartTag(phase), EndTag(phase))
    case None => true
    case Some(x) =>
      if Straight(b, StartTag(phase), EndTag(phase)) then TagsInOrder(PhaseAfter(phase, x.cut), x.rest)
      else Find(b, StartTag(phase)).value + |StartTag(phase)| == |b|
  }

  lemma InitLikeSelect(b: Bytes)
    ensures TagsInOrder(InitializeStream, b) == TagsInOrder(SelectMechanism, b)
    ensures Expected(InitializeStream, b) == Expected(SelectMechanism, b)
    decreases |b|
  {
    hide ExtractXML, Straight;
    var x := ExtractXML(b, FEATURES_START, FEATURES_END);
    if x.Some? && x.value.cut.stanza == [] {
      InitLikeSelect(x.value.rest);
    }
  }

  lemma {:induction false} FeedAllConcat(p: Parser, chunks: seq<Bytes>, more: seq<Bytes>)
    ensures var u := FeedAll(p, chunks);
            var v := FeedAll(u.parser, more);
            FeedAll(p, chunks + more) == Update(v.parser, u.cuts + v.cuts)
    decreases |chunks|
  {
    hide Feed;
    if chunks == [] {
      assert chunks + more == more;
      assert FeedAll(p, more).cuts == [] + FeedAll(p, more).cuts;
    } else {
      FeedAllConcat(Feed(p, chunks[0]).parser, chunks[1..], more);
      assert (chunks + more)[1..] == chunks[1..] + more;
    }
  }

  // ---------- Streams with their tags in order ----------

  lemma OvertakenEndsStream(phase: Phase, b: Bytes, future: Bytes)
    requires ExtractXML(b, StartTag(phase), EndTag(phase)).Some? && !Straight(b, StartTag(phase), EndTag(phase))
    requires TagsInOrder(phase, b + future)
    ensures future == []
  {
    hide Find;
    FindStable(b, future, StartTag(phase));
    FindStable(b, future, EndTag(phase));
    FindInside(b, StartTag(phase));
  }

  lemma FeedKeepsExpected(p: Parser, chunk: Bytes, future: Bytes)
    requires future == [] || TagsInOrder(p.phase, p.buffer + chunk + future)
    ensures var u := Feed(p, chunk);
            && (future == [] || TagsInOrder(u.parser.phase, u.parser.buffer + future))
            && Expected(p.phase, p.buffer + chunk + future)
            == Stanzas(u.cuts) + Expected(u.parser.phase, u.parser.buffer + future)
  {
    hide ExtractXML, Straight;
    var b := p.buffer + chunk;
    assert b + [] == b;
    if p.phase.InitializeStream? {
      InitLikeSelect(b + future);
    } else {
      var x := ExtractXML(b, StartTag(p.phase), EndTag(p.phase));
      if x.Some? {
        if future != [] && !Straight(b, StartTag(p.phase), EndTag(p.phase)) {
          OvertakenEndsStream(p.phase, b, future);
        } else if future != [] {
          ExtractionStable(b, future, StartTag(p.phase), EndTag(p.phase));
        }
        assert x.value.rest + [] == x.value.rest;
        StanzasOfAdvance(Parser(p.phase, b));
      }
    }
  }

  /** What a run has found, and what is still to be found in its buffer, is what was expected. */
  lemma {:induction false} RunKeepsExpected(p: Parser, chunks: seq<Bytes>)
    requires Flatten(chunks) == [] || TagsInOrder(p.phase, p.buffer + Flatten(chunks))
    ensures var u := FeedAll(p, chunks);
            Expected(p.phase, p.buffer + Flatten(chunks)) == Stanzas(u.cuts) + Expected(u.parser.phase, u.parser.buffer)
    decreases |chunks|
  {
    hide TagsInOrder, Expected, Feed, Flatten, Stanzas, StraightRun;
    if chunks == [] {
      FlattenNothing();
      StanzasNothing();
      assert p.buffer + [] == p.buffer;
    } else {
      var u := Feed(p, chunks[0]);
      var v := FeedAll(u.parser, chunks[1..]);
      FeedAllStep(p, chunks);
      FeedKeepsExpected(p, chunks[0], Flatten(chunks[1..]));
      RunKeepsExpected(u.parser, chunks[1..]);
      StanzasConcat(u.cuts, v.cuts);
    }
  }

  /** The stanzas found in a run that starts with an empty buffer. */
  function StanzasFrom(phase: Phase, chunks: seq<Bytes>): seq<Bytes> {
    Stanzas(FeedAll(Parser(phase, []), chunks).cuts)
  }

  ghost predicate Comparable(xs: seq<Bytes>, ys: seq<Bytes>) {
    xs <= ys || ys <= xs
  }

  /**
   The same bytes in different chunks: one run may have got further, because every chunk lets the
   state machine cut only once, but what both have found is the same.
   */
  lemma ChunkIndependence(p: Parser, chunks: seq<Bytes>, others: seq<Bytes>)
    requires Flatten(chunks) == Flatten(others)
    requires TagsInOrder(p.phase, p.buffer + Flatten(chunks))
    ensures Comparable(Stanzas(FeedAll(p, chunks).cuts), Stanzas(FeedAll(p, others).cuts))
  {
    hide TagsInOrder, Expected, FeedAll, Stanzas, Flatten;
    RunKeepsExpected(p, chunks);
    RunKeepsExpected(p, others);
    var all := Expected(p.phase, p.buffer + Flatten(chunks));
    var xs, ys := Stanzas(FeedAll(p, chunks).cuts), Stanzas(FeedAll(p, others).cuts);
    assert xs == all[..|xs|] && ys == all[..|ys|];
  }

  // ---------- The first stanza ----------

  /** Nothing is left in the buffer that could be cut. */
  predicate Settled(p: Parser) {
    !p.phase.InitializeStream? && ExtractXML(p.buffer, StartTag(p.phase), EndTag(p.phase)).None?
  }

  /** However the bytes arrive, the first cut is at the first tags, if the start tag stands in front of the end tag. */
  lemma {:induction false} FirstCut(p: Parser, chunks: seq<Bytes>, i: nat, j: nat)
    requires Settled(p) && i < j
    requires FirstAt(p.buffer + Flatten(chunks), StartTag(p.phase), i)
    requires FirstAt(p.buffer + Flatten(chunks), EndTag(p.phase), j)
    ensures var b, cuts := p.buffer + Flatten(chunks), FeedAll(p, chunks).cuts;
            cuts != [] && cuts[0] == Cut(b[..i], b[i..j + |EndTag(p.phase)|])
    decreases |chunks|
  {
    hide Find, StartTag, EndTag, Flatten;
    var startTag, endTag := StartTag(p.phase), EndTag(p.phase);
    FindIsFirst(p.buffer + Flatten(chunks), startTag, i);
    FindIsFirst(p.buffer + Flatten(chunks), endTag, j);
    FlattenNothing();
    assert p.buffer + [] == p.buffer;
    assert chunks != [];
    FlattenStep(chunks);
    var b, later := p.buffer + chunks[0], Flatten(chunks[1..]);
    assert p.buffer + Flatten(chunks) == b + later;
    if Find(b, startTag).Some? && Find(b, endTag).Some? {
      FindStable(b, later, startTag);
      FindStable(b, later, endTag);
      FindInside(b, startTag);
      FindInside(b, endTag);
    } else {
      FirstCut(Feed(p, chunks[0]).parser, chunks[1..], i, j);
    }
  }

  /** Without both tags nothing is ever cut. */
  lemma {:induction false} NoCut(p: Parser, chunks: seq<Bytes>)
    requires Settled(p.(buffer := p.buffer + Flatten(chunks)))
    ensures FeedAll(p, chunks).cuts == []
    decreases |chunks|
  {
    hide Find, StartTag, EndTag, Flatten;
    if chunks != [] {
      FlattenStep(chunks);
      var b, later := p.buffer + chunks[0], Flatten(chunks[1..]);
      assert p.buffer + Flatten(chunks) == b + later;
      if Find(b, StartTag(p.phase)).Some? && Find(b, EndTag(p.phase)).Some? {
        FindStable(b, later, StartTag(p.phase));
        FindStable(b, later, EndTag(p.phase));
      }
      NoCut(Feed(p, chunks[0]).parser, chunks[1..]);
    }
  }

  // ---------- Streams with a tag out of order ----------

  /** One more byte completes a cut that is not straight. */
  predicate Overtakes(p: Parser, c: bv8) {
    var b := p.buffer + [c];
    && ExtractXML(b, StartTag(p.phase), EndTag(p.phase)).Some?
    && !Straight(b, StartTag(p.phase), EndTag(p.phase))
  }

  /** A byte string in chunks of one byte. */
  function Singles(b: Bytes): seq<Bytes> {
    if b == [] then [] else [[b[0]]] + Singles(b[1..])
  }

  lemma {:induction false} SinglesFlatten(b: Bytes)
    ensures Flatten(Singles(b)) == b && [] !in Singles(b)
  {
    if b != [] {
      SinglesFlatten(b[1..]);
      assert Singles(b)[1..] == Singles(b[1..]);
    }
  }

  /** What the tags have to do with `>`: it ends the end tags, and can only end a start tag. */
  lemma TagFacts(phase: Phase)
    ensures 0 < |StartTag(phase)| < |EndTag(phase)| && EndTag(phase)[|EndTag(phase)| - 1] == 62
    ensures forall j | 0 <= j < |StartTag(phase)| - 1 :: StartTag(phase)[j] != 62
  {
    hide Ascii;
    FeaturesEnds();
    ChallengeEnds();
  }

  lemma FeaturesEnds()
    ensures |FEATURES_START| == 17 && |FEATURES_END| == 18 && FEATURES_END[17] == 62
    ensures forall j | 0 <= j < 16 :: FEATURES_START[j] != 62
  {
  }

  lemma ChallengeEnds()
    ensures |CHALLENGE_START| == 10 && |CHALLENGE_END| == 12 && CHALLENGE_END[11] == 62
    ensures forall j | 0 <= j < 9 :: CHALLENGE_START[j] != 62
  {
  }

  lemma FoundInFront(b: Bytes, u: Bytes, back: Bytes, tag: Bytes)
    requires b == u + back && Find(b, tag).Some? && Find(b, tag).value + |tag| <= |u|
    ensures Find(u, tag) == Find(b, tag)
  {
    var i := Find(b, tag).value;
    assert u[i..i + |tag|] == b[i..i + |tag|];
    forall j | 0 <= j < i
      ensures !Matches(u, tag, j)
    {
      assert !Matches(b, tag, j);
      assert u[j..j + |tag|] == b[j..j + |tag|];
    }
    FindIsFirst(u, tag, i);
  }

  /** A start tag that begins before the end of an end tag does not reach beyond it. */
  lemma TagsApart(b: Bytes, startTag: Bytes, endTag: Bytes, start: nat, end: nat)
    requires Matches(b, startTag, start) && Matches(b, endTag, end) && start < end + |endTag|
    requires endTag != [] && endTag[|endTag| - 1] == 62
    requires forall j | 0 <= j < |startTag| - 1 :: startTag[j] != 62
    ensures start + |startTag| <= end + |endTag|
  {
    var last := end + |endTag| - 1;
    assert b[last] == b[end..end + |endTag|][|endTag| - 1] == 62;
    var j := last - start;
    if j < |startTag| {
      assert b[last] == b[start..start + |startTag|][j] == startTag[j];
    }
  }

  /** The byte that makes a cut possible ends one of the two tags. */
  lemma LastByteEndsTag(p: Parser, c: bv8)
    requires Settled(p) && ExtractXML(p.buffer + [c], StartTag(p.phase), EndTag(p.phase)).Some?
    ensures var b, startTag, endTag := p.buffer + [c], StartTag(p.phase), EndTag(p.phase);
            Find(b, startTag).value + |startTag| == |b| || Find(b, endTag).value + |endTag| == |b|
  {
    hide Find;
    var b, startTag, endTag := p.buffer + [c], StartTag(p.phase), EndTag(p.phase);
    FindInside(b, startTag);
    FindInside(b, endTag);
    if Find(b, startTag).value + |startTag| < |b| && Find(b, endTag).value + |endTag| < |b| {
      FoundInFront(b, p.buffer, [c], startTag);
      FoundInFront(b, p.buffer, [c], endTag);
    }
  }

  /** The start tag of a straight cut lies in front of the rest, or at its very beginning. */
  lemma StartTagFits(phase: Phase, b: Bytes)
    requires ExtractXML(b, StartTag(phase), EndTag(phase)).Some? && Straight(b, StartTag(phase), EndTag(phase))
    ensures var start, rest := Find(b, StartTag(phase)).value, Find(b, EndTag(phase)).value + |EndTag(phase)|;
            start == rest || start + |StartTag(phase)| <= rest
  {
    hide FindFrom;
    TagFacts(phase);
    var start, end := Find(b, StartTag(phase)).value, Find(b, EndTag(phase)).value;
    if start < end + |EndTag(phase)| {
      TagsApart(b, StartTag(phase), EndTag(phase), start, end);
    }
  }

  /** Read byte by byte, a straight cut leaves nothing behind its stanza, and less than an end tag if that is empty. */
  lemma StraightCutIsTight(p: Parser, c: bv8)
    requires Settled(p) && !Overtakes(p, c) && ExtractXML(p.buffer + [c], StartTag(p.phase), EndTag(p.phase)).Some?
    ensures var x := ExtractXML(p.buffer + [c], StartTag(p.phase), EndTag(p.phase)).value;
            |x.rest| <= if x.cut.stanza == [] then |StartTag(p.phase)| else 0
  {
    hide Find, StartTag, EndTag;
    var b := p.buffer + [c];
    LastByteEndsTag(p, c);
    StartTagFits(p.phase, b);
    FindInside(b, EndTag(p.phase));
  }

  lemma StraightCutSettles(p: Parser, c: bv8)
    requires Settled(p) && !Overtakes(p, c)
    ensures Settled(Feed(p, [c]).parser)
  {
    hide ExtractXML, StartTag, EndTag, Straight;
    if ExtractXML(p.buffer + [c], StartTag(p.phase), EndTag(p.phase)).Some? {
      StraightCutIsTight(p, c);
      TagFacts(p.phase);
    }
  }

  /** An overtaken start tag is found with its last byte, so it does not end the stream if more is to come. */
  lemma OvertakenAtTag(p: Parser, c: bv8)
    requires Settled(p) && Overtakes(p, c)
    ensures TagsInOrder(p.phase, p.buffer + [c])
  {
    hide Find;
    LastByteEndsTag(p, c);
    FindInside(p.buffer + [c], StartTag(p.phase));
  }

  /** Without an overtaken tag so far, what is left of the stream is as much in order as the whole. */
  lemma TagsInOrderAfter(p: Parser, c: bv8, future: Bytes)
    requires Settled(p) && !Overtakes(p, c)
    ensures var q := Feed(p, [c]).parser;
            && TagsInOrder(p.phase, p.buffer + [c] + future) == TagsInOrder(q.phase, q.buffer + future)
            && |q.buffer| <= |p.buffer| + 1
  {
    hide ExtractXML, Straight;
    var b := p.buffer + [c];
    if ExtractXML(b, StartTag(p.phase), EndTag(p.phase)).Some? {
      ExtractionStable(b, future, StartTag(p.phase), EndTag(p.phase));
    }
  }

  /** Reading byte by byte finds the first overtaken start tag of a stream with its last byte. */
  lemma {:induction false} FirstOvertaken(p: Parser, future: Bytes) returns (n: nat)
    requires Settled(p) && !TagsInOrder(p.phase, p.buffer + future)
    ensures n + 1 < |future|
    ensures var q := FeedAll(p, Singles(future[..n])).parser;
            Settled(q) && Overtakes(q, future[n]) && |q.buffer| <= |p.buffer| + n
    decreases |future|
  {
    hide Settled, Overtakes, TagsInOrder, Feed;
    SettledIsInOrder(p);
    assert future == [] ==> p.buffer + future == p.buffer;
    var c, later := future[0], future[1..];
    assert p.buffer + future == p.buffer + [c] + later;
    if Overtakes(p, c) {
      OvertakenAtTag(p, c);
      assert later == [] ==> p.buffer + [c] + later == p.buffer + [c];
      n := 0;
    } else {
      StraightCutSettles(p, c);
      TagsInOrderAfter(p, c, later);
      var m := FirstOvertaken(Feed(p, [c]).parser, later);
      n := m + 1;
      assert future[..n][1..] == later[..m] && Singles(future[..n])[1..] == Singles(later[..m]);
    }
  }

  lemma SettledIsInOrder(p: Parser)
    requires Settled(p)
    ensures TagsInOrder(p.phase, p.buffer)
  {
  }

  /** The stanza cut at an overtaken start tag depends on what is read together with the end of the tag. */
  lemma OvertakenDiffers(p: Parser, c: bv8, later: Bytes) returns (x: Bytes, y: Bytes)
    requires Settled(p) && Overtakes(p, c) && later != [] && |p.buffer| + 1 + |later| < SIZES
    ensures Stanzas(Feed(p, [c]).cuts) == [x] && Stanzas(Feed(p, [c] + later).cuts) == [y] && x != y
  {
    hide Find;
    var b, startTag, endTag := p.buffer + [c], StartTag(p.phase), EndTag(p.phase);
    FindStable(b, later, startTag);
    FindStable(b, later, endTag);
    FindInside(b, startTag);
    TagFacts(p.phase);
    OvertakenStanza(b, startTag, endTag);
    OvertakenStanza(b + later, startTag, endTag);
    assert p.buffer + ([c] + later) == b + later;
    x, y := b[Find(b, startTag).value..], (b + later)[Find(b, startTag).value..];
    StanzasOfAdvance(p.(buffer := b));
    StanzasOfAdvance(p.(buffer := b + later));
  }

  lemma DifferAt(common: seq<Bytes>, x: Bytes, y: Bytes, more: seq<Bytes>)
    requires x != y
    ensures !Comparable(common + [x] + more, common + [y])
  {
    var i := |common|;
    assert (common + [x] + more)[i] == x && (common + [y])[i] == y;
  }

  /** Every byte on its own up to an overtaken start tag; the last byte of the tag alone, or with the rest. */
  lemma ChunksThatDiffer(p: Parser, future: Bytes) returns (chunks: seq<Bytes>, others: seq<Bytes>)
    requires Settled(p) && !TagsInOrder(p.phase, p.buffer + future) && |p.buffer + future| < SIZES
    ensures Flatten(chunks) == future && Flatten(others) == future && [] !in chunks + others
    ensures !Comparable(Stanzas(FeedAll(p, chunks).cuts), Stanzas(FeedAll(p, others).cuts))
  {
    hide TagsInOrder, Settled, Overtakes, FeedAll, Feed, Stanzas, Flatten, Singles;
    var n := FirstOvertaken(p, future);
    var singles, c, later := Singles(future[..n]), future[n], future[n + 1..];
    chunks, others := singles + ([[c]] + [later]), singles + [[c] + later];
    assert future == future[..n] + ([c] + later);
    SinglesFlatten(future[..n]);
    FlattenOne([c]);
    FlattenOne(later);
    FlattenOne([c] + later);
    FlattenConcat([[c]], [later]);
    FlattenConcat(singles, [[c]] + [later]);
    FlattenConcat(singles, [[c] + later]);
    var u := FeedAll(p, singles);
    var x, y := OvertakenDiffers(u.parser, c, later);
    var more := StanzasAfter(p, singles, [c], [later]);
    var none := StanzasAfter(p, singles, [c] + later, []);
    assert singles + ([[c] + later] + []) == others;
    DifferAt(Stanzas(u.cuts), x, y, more);
  }

  lemma StanzasAfter(p: Parser, chunks: seq<Bytes>, chunk: Bytes, more: seq<Bytes>) returns (rest: seq<Bytes>)
    ensures var u := FeedAll(p, chunks);
            Stanzas(FeedAll(p, chunks + ([chunk] + more)).cuts)
            == Stanzas(u.cuts) + Stanzas(Feed(u.parser, chunk).cuts) + rest
    ensures more == [] ==> rest == []
  {
    hide Feed, Stanzas;
    var u := FeedAll(p, chunks);
    var v := Feed(u.parser, chunk);
    var w := FeedAll(v.parser, more);
    FeedAllConcat(p, chunks, [chunk] + more);
    assert ([chunk] + more)[1..] == more;
    StanzasConcat(v.cuts, w.cuts);
    StanzasConcat(u.cuts, v.cuts + w.cuts);
    rest := Stanzas(w.cuts);
    StanzasNothing();
  }

  /** In the first phase, the first chunk is only kept. */
  lemma FirstByteIsKept(c: bv8, chunks: seq<Bytes>)
    ensures StanzasFrom(InitializeStream, [[c]] + chunks) == Stanzas(FeedAll(Parser(SelectMechanism, [c]), chunks).cuts)
    ensures Flatten([[c]] + chunks) == [c] + Flatten(chunks)
    ensures Settled(Parser(SelectMechanism, [c]))
  {
    TagFacts(SelectMechanism);
    assert ([[c]] + chunks)[1..] == chunks;
    var p := Parser(InitializeStream, []);
    assert p.buffer + [c] == [c];
    assert Feed(p, [c]) == Update(Parser(SelectMechanism, [c]), []);
    var v := FeedAll(Parser(SelectMechanism, [c]), chunks);
    assert [] + v.cuts == v.cuts;
  }

  lemma FirstChunksThatDiffer(b: Bytes) returns (chunks: seq<Bytes>, others: seq<Bytes>)
    requires |b| < SIZES && b != [] && !TagsInOrder(SelectMechanism, b)
    ensures Flatten(chunks) == b && Flatten(others) == b && [] !in chunks + others
    ensures !Comparable(StanzasFrom(InitializeStream, chunks), StanzasFrom(InitializeStream, others))
  {
    hide TagsInOrder, Stanzas, FeedAll, Flatten, Settled, StanzasFrom, Comparable;
    var c, later := b[0], b[1..];
    assert b == [c] + later;
    FirstByteIsKept(c, []);
    var cs, os := ChunksThatDiffer(Parser(SelectMechanism, [c]), later);
    FirstByteIsKept(c, cs);
    FirstByteIsKept(c, os);
    chunks, others := [[c]] + cs, [[c]] + os;
  }

  lemma AnyChunksThatDiffer(phase: Phase, b: Bytes) returns (chunks: seq<Bytes>, others: seq<Bytes>)
    requires |b| < SIZES && !TagsInOrder(phase, b)
    ensures Flatten(chunks) == b && Flatten(others) == b && [] !in chunks + others
    ensures !Comparable(StanzasFrom(phase, chunks), StanzasFrom(phase, others))
  {
    hide TagsInOrder, Stanzas, FeedAll, Flatten, Settled, Comparable;
    NothingIsInOrder(phase);
    if phase.InitializeStream? {
      InitLikeSelect(b);
      chunks, others := FirstChunksThatDiffer(b);
    } else {
      assert [] + b == b;
      chunks, others := ChunksThatDiffer(Parser(phase, []), b);
    }
  }

  lemma NothingIsInOrder(phase: Phase)
    ensures TagsInOrder(phase, []) && (!phase.InitializeStream? ==> Settled(Parser(phase, [])))
  {
    TagFacts(phase);
  }

  /**
   A stream is cut into the same stanzas however it arrives, as far as any two runs get, if and only
   if its tags are in order: in reads of at least one byte, and also when new connections advance
   the state machine without one.
   */
  lemma ChunkIndependenceExactly(phase: Phase, b: Bytes)
    requires |b| < SIZES
    ensures (forall chunks, others | Flatten(chunks) == b && Flatten(others) == b && [] !in chunks + others ::
               Comparable(StanzasFrom(phase, chunks), StanzasFrom(phase, others)))
       <==> TagsInOrder(phase, b)
    ensures (forall chunks, others | Flatten(chunks) == b && Flatten(others) == b ::
               Comparable(StanzasFrom(phase, chunks), StanzasFrom(phase, others)))
       <==> TagsInOrder(phase, b)
  {
    hide TagsInOrder, FeedAll, Flatten, Stanzas;
    var p := Parser(phase, []);
    assert p.buffer + b == b;
    if TagsInOrder(phase, b) {
      forall chunks, others | Flatten(chunks) == b && Flatten(others) == b
        ensures Comparable(StanzasFrom(phase, chunks), StanzasFrom(phase, others))
      {
        ChunkIndependence(p, chunks, others);
      }
    } else {
      var chunks, others := AnyChunksThatDiffer(phase, b);
    }
  }

  /** Such streams exist: here the first stanza depends on how the bytes arrive. */
  lemma OvertakenStream()
    ensures !TagsInOrder(SelectMechanism, OVERTAKEN + [0])
  {
    hide Find;
    OvertakenInput();
    FindStable(OVERTAKEN, [0], FEATURES_START);
    FindStable(OVERTAKEN, [0], FEATURES_END);
    FindInside(OVERTAKEN, FEATURES_START);
  }
}
