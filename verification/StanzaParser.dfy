/**
 Cutting stanzas out of the receive buffer: `SASL::ExtractXML` and the three states that call it
 (Libs/XMPP/sasl.cpp), fed by `XMPPClient::OnRead` (Libs/XMPP/xmpp_client.cpp).
 */
module StanzaParser {
  import opened Alphabet
  import opened Blocks

  datatype Option<+T> = None | Some(value: T)

  // ---------- std::string::find and substr ----------

  predicate Matches(b: Bytes, tag: Bytes, i: int) {
    0 <= i <= |b| - |tag| && b[i..i + |tag|] == tag
  }

  /** The first occurrence of `tag` at `i` or behind it; `None` is `npos`. */
  function FindFrom(b: Bytes, tag: Bytes, i: nat): (r: Option<nat>)
    ensures r.Some? ==> i <= r.value && Matches(b, tag, r.value) && forall j | i <= j < r.value :: !Matches(b, tag, j)
    ensures r.None? ==> forall j | i <= j :: !Matches(b, tag, j)
    decreases |b| - i
  {
    if i + |tag| > |b| then None
    else if b[i..i + |tag|] == tag then Some(i)
    else FindFrom(b, tag, i + 1)
  }

  function Find(b: Bytes, tag: Bytes): Option<nat> {
    FindFrom(b, tag, 0)
  }

  /** `tag` stands in `b` at `i`, and nowhere in front of that. */
  ghost predicate FirstAt(b: Bytes, tag: Bytes, i: int) {
    Matches(b, tag, i) && forall j | 0 <= j < i :: !Matches(b, tag, j)
  }

  lemma FindIsFirst(b: Bytes, tag: Bytes, i: nat)
    requires FirstAt(b, tag, i)
    ensures Find(b, tag) == Some(i)
  {
  }

  lemma FindInside(b: Bytes, tag: Bytes)
    ensures Find(b, tag).Some? ==> Find(b, tag).value + |tag| <= |b|
  {
  }

  /** Once found, a tag stays where it was found when more bytes arrive. */
  lemma FindStable(b: Bytes, more: Bytes, tag: Bytes)
    requires Find(b, tag).Some?
    ensures Find(b + more, tag) == Find(b, tag)
  {
    var i := Find(b, tag).value;
    assert (b + more)[i..i + |tag|] == b[i..i + |tag|];
    forall j | 0 <= j < i
      ensures !Matches(b + more, tag, j)
    {
      assert !Matches(b, tag, j);
      assert (b + more)[j..j + |tag|] == b[j..j + |tag|];
    }
    FindIsFirst(b + more, tag, i);
  }

  /** The number of values of a `size_t`. */
  const SIZES: nat := 0x1_0000_0000_0000_0000

  /** The difference of two positions as a `size_t`: below zero it wraps around. */
  function SizeDifference(x: nat, y: nat): nat {
    if x >= y then x - y else (x - y) % SIZES
  }

  /** `substr`: `count` is cut off at the end of the string. */
  function Substr(b: Bytes, pos: nat, count: nat): Bytes
    requires pos <= |b|
  {
    if pos + count <= |b| then b[pos..pos + count] else b[pos..]
  }

  // ---------- ExtractXML ----------

  /** What one successful call of `ExtractXML` takes from the buffer and returns. */
  datatype Cut = Cut(skipped: Bytes, stanza: Bytes)

  /** The cut and the bytes left in the buffer. */
  datatype Extraction = Extraction(cut: Cut, rest: Bytes)

  /**
   Both tags are searched from the front, so the end tag may stand before the start tag. The
   unsigned subtraction then wraps around.
   */
  function ExtractXML(b: Bytes, startTag: Bytes, endTag: Bytes): (r: Option<Extraction>)
    ensures r.Some? ==> |r.value.rest| + |endTag| <= |b|
  {
    var start, end := Find(b, startTag), Find(b, endTag);
    if start.None? || end.None? then None
    else
      var size := SizeDifference(end.value + |endTag|, start.value);
      Some(Extraction(Cut(b[..start.value], Substr(b, start.value, size)), b[end.value + |endTag|..]))
  }

  /** The first end tag does not end before the first start tag begins. */
  predicate Straight(b: Bytes, startTag: Bytes, endTag: Bytes) {
    var start, end := Find(b, startTag), Find(b, endTag);
    start.Some? && end.Some? ==> start.value <= end.value + |endTag|
  }

  /** After a cut the pieces make up the buffer exactly if it was straight; otherwise some bytes are in two of them. */
  lemma ExtractionConserves(b: Bytes, startTag: Bytes, endTag: Bytes)
    requires ExtractXML(b, startTag, endTag).Some?
    ensures var x := ExtractXML(b, startTag, endTag).value;
            && (x.cut.skipped + x.cut.stanza + x.rest == b <==> Straight(b, startTag, endTag))
            && |x.cut.skipped + x.cut.stanza + x.rest| >= |b|
            && (|x.cut.skipped + x.cut.stanza + x.rest| == |b| ==> Straight(b, startTag, endTag))
  {
    hide Find;
    var start, end := Find(b, startTag).value, Find(b, endTag).value + |endTag|;
    FindInside(b, startTag);
    FindInside(b, endTag);
    if start <= end {
      assert b == b[..start] + b[start..end] + b[end..];
    }
  }

  /** A stanza cut where the start tag does not begin behind the end tag runs from tag to tag. */
  lemma StanzaIsDelimited(b: Bytes, startTag: Bytes, endTag: Bytes)
    requires ExtractXML(b, startTag, endTag).Some?
    ensures var start, end := Find(b, startTag).value, Find(b, endTag).value;
            var stanza := ExtractXML(b, startTag, endTag).value.cut.stanza;
            start + |startTag| <= end ==> startTag <= stanza && stanza[|stanza| - |endTag|..] == endTag
  {
  }

  /** Bytes that arrive later only lengthen what is left in the buffer. */
  lemma ExtractionStable(b: Bytes, more: Bytes, startTag: Bytes, endTag: Bytes)
    requires ExtractXML(b, startTag, endTag).Some? && Straight(b, startTag, endTag)
    ensures var x := ExtractXML(b, startTag, endTag).value;
            ExtractXML(b + more, startTag, endTag) == Some(Extraction(x.cut, x.rest + more))
    ensures Straight(b + more, startTag, endTag)
  {
    hide Find;
    FindStable(b, more, startTag);
    FindStable(b, more, endTag);
    FindInside(b, startTag);
    FindInside(b, endTag);
    var start, end := Find(b, startTag).value, Find(b, endTag).value;
    assert (b + more)[..start] == b[..start];
    assert (b + more)[start..end + |endTag|] == b[start..end + |endTag|];
    assert (b + more)[end + |endTag|..] == b[end + |endTag|..] + more;
  }

  /** When the end tag ends before the start tag begins, the stanza is cut at the end of the buffer. */
  lemma OvertakenStanza(b: Bytes, startTag: Bytes, endTag: Bytes)
    requires ExtractXML(b, startTag, endTag).Some? && !Straight(b, startTag, endTag) && |b| < SIZES
    ensures ExtractXML(b, startTag, endTag).value.cut.stanza == b[Find(b, startTag).value..]
  {
    var count := Find(b, endTag).value + |endTag| - Find(b, startTag).value;
    assert count % SIZES == count + SIZES;
  }

  /** Something is cut exactly if both tags stand somewhere in the buffer. */
  lemma ExtractionExactly(b: Bytes, startTag: Bytes, endTag: Bytes)
    ensures ExtractXML(b, startTag, endTag).Some?
       <==> (exists i :: Matches(b, startTag, i)) && (exists j :: Matches(b, endTag, j))
  {
    if i :| Matches(b, startTag, i) {
      assert Find(b, startTag).None? ==> !Matches(b, startTag, i);
    }
    if j :| Matches(b, endTag, j) {
      assert Find(b, endTag).None? ==> !Matches(b, endTag, j);
    }
  }

  /** What is cut, by where the tags stand first: up to the end of the end tag, or of the buffer if that is in front. */
  lemma ExtractionAt(b: Bytes, startTag: Bytes, endTag: Bytes, i: nat, j: nat)
    requires FirstAt(b, startTag, i) && FirstAt(b, endTag, j) && |b| < 0x1_0000_0000_0000_0000
    ensures var end := j + |endTag|;
            var stanza := if i <= end then b[i..end] else b[i..];
            ExtractXML(b, startTag, endTag) == Some(Extraction(Cut(b[..i], stanza), b[end..]))
  {
    hide FindFrom;
    FindIsFirst(b, startTag, i);
    FindIsFirst(b, endTag, j);
    if i > j + |endTag| {
      OvertakenStanza(b, startTag, endTag);
    }
  }

  // ---------- The parser states ----------

  /** `SASL::TransactionState`. */
  datatype Phase = InitializeStream | SelectMechanism | DecodeChallenge

  const FEATURES_START := Ascii("<stream:features>")
  const FEATURES_END := Ascii("</stream:features>")
  const CHALLENGE_START := Ascii("<challenge")
  const CHALLENGE_END := Ascii("</challenge>")

  function StartTag(phase: Phase): Bytes {
    if phase.DecodeChallenge? then CHALLENGE_START else FEATURES_START
  }

  function EndTag(phase: Phase): (tag: Bytes)
    ensures |tag| > 0
  {
    if phase.DecodeChallenge? then CHALLENGE_END else FEATURES_END
  }

  /** The state of the login that decides how the server's bytes are cut. */
  datatype Parser = Parser(phase: Phase, buffer: Bytes)

  /** The result of one `Update`: the new state and the cut made in it, if any. */
  datatype Update = Update(parser: Parser, cuts: seq<Cut>)

  /**
   The part of `SASL::Update` that concerns the buffer: the first call cuts nothing, later ones
   cut at most once, and an empty stanza counts as none.
   */
  function Advance(p: Parser): (u: Update)
    ensures |u.cuts| <= 1
  {
    if p.phase.InitializeStream? then Update(p.(phase := SelectMechanism), [])
    else
      match ExtractXML(p.buffer, StartTag(p.phase), EndTag(p.phase))
      case None => Update(p, [])
      case Some(x) => Update(Parser(if x.cut.stanza == [] then p.phase else DecodeChallenge, x.rest), [x.cut])
  }

  lemma StanzasOfAdvance(p: Parser)
    requires !p.phase.InitializeStream?
    ensures Stanzas(Advance(p).cuts) ==
            match ExtractXML(p.buffer, StartTag(p.phase), EndTag(p.phase))
            case None => []
            case Some(x) => if x.cut.stanza == [] then [] else [x.cut.stanza]
  {
    hide ExtractXML;
    assert |Advance(p).cuts| == 1 ==> Advance(p).cuts[1..] == [];
  }

  /** `XMPPClient::OnRead`: the bytes are appended and the state machine is advanced. */
  function Feed(p: Parser, bytes: Bytes): Update {
    Advance(p.(buffer := p.buffer + bytes))
  }

  function FeedAll(p: Parser, chunks: seq<Bytes>): Update
    decreases |chunks|
  {
    if chunks == [] then Update(p, [])
    else
      var u := Feed(p, chunks[0]);
      var v := FeedAll(u.parser, chunks[1..]);
      Update(v.parser, u.cuts + v.cuts)
  }

  /** The stanzas handed on, in order. */
  function Stanzas(cuts: seq<Cut>): seq<Bytes> {
    if cuts == [] then []
    else (if cuts[0].stanza == [] then [] else [cuts[0].stanza]) + Stanzas(cuts[1..])
  }

  function Joined(cuts: seq<Cut>): Bytes {
    if cuts == [] then [] else cuts[0].skipped + cuts[0].stanza + Joined(cuts[1..])
  }

  // ---------- Conservation of bytes ----------

  predicate StraightUpdate(p: Parser) {
    p.phase.InitializeStream? || Straight(p.buffer, StartTag(p.phase), EndTag(p.phase))
  }

  /** In every call of a run, the end tag searched for does not end before the start tag begins. */
  predicate StraightRun(p: Parser, chunks: seq<Bytes>)
    decreases |chunks|
  {
    chunks == [] ||
    (StraightUpdate(p.(buffer := p.buffer + chunks[0])) && StraightRun(Feed(p, chunks[0]).parser, chunks[1..]))
  }

  lemma AdvanceConserves(p: Parser)
    ensures var u := Advance(p); Joined(u.cuts) + u.parser.buffer == p.buffer <==> StraightUpdate(p)
    ensures var u := Advance(p); |Joined(u.cuts) + u.parser.buffer| == |p.buffer| ==> StraightUpdate(p)
    ensures var u := Advance(p); |Joined(u.cuts) + u.parser.buffer| >= |p.buffer|
  {
    hide ExtractXML, Straight;
    if !p.phase.InitializeStream? {
      var x := ExtractXML(p.buffer, StartTag(p.phase), EndTag(p.phase));
      if x.Some? {
        ExtractionConserves(p.buffer, StartTag(p.phase), EndTag(p.phase));
        assert [x.value.cut][1..] == [];
        assert Joined([x.value.cut]) == x.value.cut.skipped + x.value.cut.stanza;
      } else {
        NothingFoundIsStraight(p.buffer, StartTag(p.phase), EndTag(p.phase));
      }
    }
  }

  lemma NothingFoundIsStraight(b: Bytes, startTag: Bytes, endTag: Bytes)
    requires ExtractXML(b, startTag, endTag).None?
    ensures Straight(b, startTag, endTag)
  {
  }

  lemma JoinedStep(cuts: seq<Cut>)
    requires cuts != []
    ensures Joined(cuts) == cuts[0].skipped + cuts[0].stanza + Joined(cuts[1..])
  {
  }

  lemma {:induction false} JoinedConcat(cuts: seq<Cut>, more: seq<Cut>)
    ensures Joined(cuts + more) == Joined(cuts) + Joined(more)
  {
    hide *;
    if cuts == [] {
      JoinedNothing();
      assert cuts + more == more;
    } else {
      JoinedConcat(cuts[1..], more);
      assert (cuts + more)[1..] == cuts[1..] + more;
      JoinedStep(cuts + more);
      JoinedStep(cuts);
    }
  }

  /**
   Over any run, the bytes skipped, the stanzas and the final buffer are together the bytes
   received, in order, exactly when the run is straight; otherwise some bytes are seen twice.
   */
  lemma {:induction false} BytesConserved(p: Parser, chunks: seq<Bytes>)
    ensures var u := FeedAll(p, chunks);
            && (Joined(u.cuts) + u.parser.buffer == p.buffer + Flatten(chunks) <==> StraightRun(p, chunks))
            && (|Joined(u.cuts) + u.parser.buffer| == |p.buffer + Flatten(chunks)| ==> StraightRun(p, chunks))
            && |Joined(u.cuts) + u.parser.buffer| >= |p.buffer + Flatten(chunks)|
    decreases |chunks|
  {
    hide Advance, StraightUpdate, Joined;
    if chunks == [] {
      assert Joined([]) == [] by { JoinedNothing(); }
      assert p.buffer + [] == [] + p.buffer;
    } else {
      hide FeedAll, Flatten, StraightRun;
      var b, rest := p.buffer + chunks[0], Flatten(chunks[1..]);
      var u := Feed(p, chunks[0]);
      var v := FeedAll(u.parser, chunks[1..]);
      FeedAllStep(p, chunks);
      AdvanceConserves(p.(buffer := b));
      BytesConserved(u.parser, chunks[1..]);
      JoinedConcat(u.cuts, v.cuts);
      ConservesTwice(b, rest, Joined(u.cuts), u.parser.buffer, Joined(v.cuts), v.parser.buffer);
      assert Joined(u.cuts + v.cuts) + v.parser.buffer == Joined(u.cuts) + (Joined(v.cuts) + v.parser.buffer);
    }
  }

  lemma JoinedNothing()
    ensures Joined([]) == []
  {
  }

  lemma FeedAllStep(p: Parser, chunks: seq<Bytes>)
    requires chunks != []
    ensures var u := Feed(p, chunks[0]);
            var v := FeedAll(u.parser, chunks[1..]);
            FeedAll(p, chunks) == Update(v.parser, u.cuts + v.cuts)
    ensures p.buffer + Flatten(chunks) == p.buffer + chunks[0] + Flatten(chunks[1..])
    ensures StraightRun(p, chunks)
       <==> StraightUpdate(p.(buffer := p.buffer + chunks[0])) && StraightRun(Feed(p, chunks[0]).parser, chunks[1..])
  {
    hide Advance, StraightUpdate;
  }

  /** `b` was cut into `j` and `k`, then `k + rest` into `l` and `m`; no byte was lost. */
  lemma ConservesTwice(b: Bytes, rest: Bytes, j: Bytes, k: Bytes, l: Bytes, m: Bytes)
    requires |j + k| >= |b| && |l + m| >= |k + rest|
    ensures |j + (l + m)| >= |b + rest|
    ensures |j + (l + m)| == |b + rest| ==> |j + k| == |b| && |l + m| == |k + rest|
    ensures j + k == b ==> (j + (l + m) == b + rest <==> l + m == k + rest)
  {
    if j + k == b {
      assert b + rest == j + (k + rest);
      assert (j + (l + m))[|j|..] == l + m && (j + (k + rest))[|j|..] == k + rest;
    }
  }

  lemma StanzasNothing()
    ensures Stanzas([]) == []
  {
  }

  lemma StanzasStep(cuts: seq<Cut>)
    requires cuts != []
    ensures Stanzas(cuts) == (if cuts[0].stanza == [] then [] else [cuts[0].stanza]) + Stanzas(cuts[1..])
  {
  }

  lemma {:induction false} StanzasConcat(cuts: seq<Cut>, more: seq<Cut>)
    ensures Stanzas(cuts + more) == Stanzas(cuts) + Stanzas(more)
  {
    hide *;
    if cuts == [] {
      StanzasNothing();
      assert cuts + more == more;
    } else {
      StanzasConcat(cuts[1..], more);
      assert (cuts + more)[1..] == cuts[1..] + more;
      StanzasStep(cuts + more);
      StanzasStep(cuts);
    }
  }

  /** A buffer in which the end tag stands before the start tag, with a byte between them. */
  const OVERTAKEN := FEATURES_END + [0] + FEATURES_START

  /** Such buffers exist. Here bytes are duplicated, and the stanza depends on when the next byte arrives. */
  lemma OvertakenInput()
    ensures ExtractXML(OVERTAKEN, FEATURES_START, FEATURES_END).Some?
    ensures !Straight(OVERTAKEN, FEATURES_START, FEATURES_END)
    ensures var x := ExtractXML(OVERTAKEN, FEATURES_START, FEATURES_END).value;
            && x.cut.skipped + x.cut.stanza + x.rest != OVERTAKEN
            && forall c: bv8 ::
                 var y := ExtractXML(OVERTAKEN + [c], FEATURES_START, FEATURES_END);
                 y.Some? && y.value.cut.stanza != x.cut.stanza
  {
    hide Find;
    OvertakenTags();
    var b := OVERTAKEN;
    ExtractionConserves(b, FEATURES_START, FEATURES_END);
    OvertakenStanza(b, FEATURES_START, FEATURES_END);
    forall c: bv8
      ensures ExtractXML(b + [c], FEATURES_START, FEATURES_END).Some?
      ensures |ExtractXML(b + [c], FEATURES_START, FEATURES_END).value.cut.stanza| == 18
    {
      FindStable(b, [c], FEATURES_START);
      FindStable(b, [c], FEATURES_END);
      OvertakenStanza(b + [c], FEATURES_START, FEATURES_END);
    }
  }

  lemma OvertakenTags()
    ensures Find(OVERTAKEN, FEATURES_END) == Some(0) && Find(OVERTAKEN, FEATURES_START) == Some(19)
    ensures |OVERTAKEN| == 36 && |FEATURES_END| == 18
  {
    hide FindFrom;
    FeaturesTags();
    var b := OVERTAKEN;
    assert b[0..|FEATURES_END|] == FEATURES_END;
    FindIsFirst(b, FEATURES_END, 0);
    assert b[19..19 + |FEATURES_START|] == FEATURES_START;
    forall j | 0 <= j < 19
      ensures !Matches(b, FEATURES_START, j)
    {
      var part := b[j..j + |FEATURES_START|];
      assert part[0] == b[j] && part[1] == b[j + 1];
      assert part[0] != FEATURES_START[0] || part[1] != FEATURES_START[1];
    }
    FindIsFirst(b, FEATURES_START, 19);
  }

  /** The end tag is the start tag with a slash in it, and `<` starts both and is nowhere else. */
  lemma FeaturesTags()
    ensures |FEATURES_START| == 17 && |FEATURES_END| == 18
    ensures FEATURES_START[0] == 60 && FEATURES_START[1] == 115 && FEATURES_END[1] == 47
    ensures forall j | 1 <= j < 18 :: FEATURES_END[j] != 60
  {
  }
}
