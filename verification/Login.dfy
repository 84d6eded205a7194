/**
 The login as a state machine over the completions of asynchronous operations. One step is one
 handler, run to its end: `TCPSocket`, `TCPClient`, `XMPPClient` and `SASL` together
 (Libs/Networking/tcp_socket.cpp, Libs/Networking/tcp_client.cpp, Libs/XMPP/xmpp_client.cpp,
 Libs/XMPP/sasl.cpp). The classes in XmppClient.dfy are proved to take these steps.
 */
module Login {
  import opened Alphabet
  import opened Blocks
  import opened StanzaParser
  import opened Chunking
  import opened Auth
  import opened Reader
  import RoundTrip
  import ServerView

  // ---------- States ----------

  /** What a client is created with, and the XML parser: the top elements of a stanza. */
  datatype Config = Config(host: Bytes, username: Bytes, parse: Bytes -> seq<Child>)

  /**
   The fields the program keeps, the number of operations it has started that are still to
   complete, and a log of what has happened so far.
   */
  datatype Client = Client(connected: bool, resolving: nat, connecting: nat, armed: nat, parser: Parser, log: Log)

  datatype Log = Log(
    sent: seq<Bytes>,     // what passed the guards of both `Write` functions
    fed: seq<Bytes>,      // the bytes appended to the buffer before each `Update`
    cuts: seq<Cut>,       // what `ExtractXML` took from the buffer
    attempts: nat,        // calls of `Connect`
    requests: nat,        // calls of `Disconnect` from outside
    disconnects: nat,     // calls of `OnDisconnect`
    dropped: nat)         // reads completed without a connection

  const START := Client(false, 0, 0, 0, Parser(InitializeStream, []), Log([], [], [], 0, 0, 0, 0))

  // ---------- Actions of the handlers ----------

  function Write(s: Client, stanza: Bytes): Client {
    if s.connected then s.(armed := s.armed + 1, log := s.log.(sent := s.log.sent + [stanza])) else s
  }

  function Disconnect(s: Client): Client {
    s.(connected := false, log := s.log.(disconnects := s.log.disconnects + 1))
  }

  function Payload(cfg: Config, m: Mechanism, nonce: Bytes): Bytes {
    if m == SHA1 then ScramPayload(cfg.username, nonce) else []
  }

  /** `SASL::Update`. */
  function Updated(cfg: Config, s: Client, nonce: Bytes): Client {
    var u := Advance(s.parser);
    var t := s.(parser := u.parser, log := s.log.(cuts := s.log.cuts + u.cuts));
    match s.parser.phase
    case InitializeStream => Write(t, InitiationStream(cfg.host))
    case SelectMechanism =>
      if Stanzas(u.cuts) == [] then t
      else
        var m := Choose(Mechanisms(cfg.parse(u.cuts[0].stanza)));
        Write(if m == NoMechanism then Disconnect(t) else t, AuthStanza(m, Payload(cfg, m, nonce)))
    case DecodeChallenge => t
  }

  /** The step of the second state, by what `ExtractXML` finds. */
  lemma UpdatedBySelection(cfg: Config, s: Client, nonce: Bytes)
    requires s.parser.phase == SelectMechanism
    ensures Updated(cfg, s, nonce) ==
            match ExtractXML(s.parser.buffer, FEATURES_START, FEATURES_END)
            case None => s
            case Some(x) =>
              var log := s.log.(cuts := s.log.cuts + [x.cut]);
              if x.cut.stanza == [] then s.(parser := s.parser.(buffer := x.rest), log := log)
              else
                var t := s.(parser := Parser(DecodeChallenge, x.rest), log := log);
                var m := Choose(Mechanisms(cfg.parse(x.cut.stanza)));
                Write(if m == NoMechanism then Disconnect(t) else t, AuthStanza(m, Payload(cfg, m, nonce)))
  {
    hide ExtractXML, Stanzas, Mechanisms, Choose, AuthStanza, Payload, Write;
    StanzasOfAdvance(s.parser);
    assert s.log.cuts + [] == s.log.cuts;
  }

  /** The step of the third state: whatever is cut, only the buffer changes. */
  lemma UpdatedByChallenge(cfg: Config, s: Client, nonce: Bytes)
    requires s.parser.phase == DecodeChallenge
    ensures Updated(cfg, s, nonce) ==
            match ExtractXML(s.parser.buffer, CHALLENGE_START, CHALLENGE_END)
            case None => s
            case Some(x) => s.(parser := s.parser.(buffer := x.rest), log := s.log.(cuts := s.log.cuts + [x.cut]))
  {
    hide ExtractXML;
    assert s.log.cuts + [] == s.log.cuts;
  }

  /** `Update`, after `bytes` were appended to the buffer. */
  function UpdateWith(cfg: Config, s: Client, bytes: Bytes, nonce: Bytes): Client {
    var parser := s.parser.(buffer := s.parser.buffer + bytes);
    Updated(cfg, s.(parser := parser, log := s.log.(fed := s.log.fed + [bytes])), nonce)
  }

  // ---------- Steps ----------

  datatype Event =
    | Connect
    | Close
    | Resolved(failed: bool)
    | Connected(failed: bool, nonce: Bytes)
    | Received(failed: bool, bytes: Bytes, nonce: Bytes)

  /** Only an operation that was started can complete. */
  predicate Enabled(s: Client, e: Event) {
    match e
    case Connect => true
    case Close => true
    case Resolved(_) => s.resolving > 0
    case Connected(_, nonce) => s.connecting > 0 && |nonce| == NONCE_LENGTH
    case Received(_, _, nonce) => s.armed > 0 && |nonce| == NONCE_LENGTH
  }

  function Step(cfg: Config, s: Client, e: Event): Client
    requires Enabled(s, e)
  {
    match e
    case Connect => s.(resolving := s.resolving + 1, log := s.log.(attempts := s.log.attempts + 1))
    case Close => var t := Disconnect(s); t.(log := t.log.(requests := t.log.requests + 1))
    case Resolved(failed) =>
      var t := s.(resolving := s.resolving - 1);
      if failed then Disconnect(t) else t.(connecting := t.connecting + 1)
    case Connected(failed, nonce) =>
      var t := s.(connecting := s.connecting - 1, connected := true);
      if failed then Disconnect(t) else UpdateWith(cfg, t, [], nonce)
    case Received(failed, bytes, nonce) =>
      var t := s.(armed := s.armed - 1);
      if !s.connected then t.(log := t.log.(dropped := t.log.dropped + 1))
      else
        var u := if failed then Disconnect(t) else UpdateWith(cfg, t, bytes, nonce);
        u.(armed := u.armed + 1)
  }

  predicate Feasible(cfg: Config, s: Client, es: seq<Event>)
    decreases |es|
  {
    es == [] || (Enabled(s, es[0]) && Feasible(cfg, Step(cfg, s, es[0]), es[1..]))
  }

  function Run(cfg: Config, s: Client, es: seq<Event>): Client
    requires Feasible(cfg, s, es)
    decreases |es|
  {
    if es == [] then s else Run(cfg, Step(cfg, s, es[0]), es[1..])
  }

  // ---------- What every step keeps ----------

  /** The stanzas sent in a phase, and what decided on the mechanism. */
  ghost predicate SentInOrder(cfg: Config, s: Client) {
    var sent, stanzas := s.log.sent, Stanzas(s.log.cuts);
    match s.parser.phase
    case InitializeStream => sent == [] && stanzas == []
    case SelectMechanism => sent == [InitiationStream(cfg.host)] && stanzas == []
    case DecodeChallenge =>
      stanzas != [] &&
      var m := Choose(Mechanisms(cfg.parse(stanzas[0])));
      if m == NoMechanism then sent == [InitiationStream(cfg.host)]
      else exists nonce | |nonce| == NONCE_LENGTH ::
             sent == [InitiationStream(cfg.host), AuthStanza(m, Payload(cfg, m, nonce))]
  }

  /** Every write armed one read, and only reads completed without a connection are not re-armed. */
  predicate ReadsConserved(s: Client) {
    s.armed + s.log.dropped == |s.log.sent|
  }

  /** Every attempt to connect pays for one disconnect, no matter how attempts overlap. */
  predicate DisconnectsPaid(s: Client) {
    s.log.disconnects + s.resolving + s.connecting + (if s.connected then 1 else 0)
    <= s.log.attempts + s.log.requests
  }

  /** The parser has seen exactly the bytes fed to it, chunk by chunk. */
  predicate ParserFollows(s: Client) {
    FeedAll(START.parser, s.log.fed) == Update(s.parser, s.log.cuts)
  }

  /** Without a connection there is nobody to feed: every chunk but the first follows a connection. */
  predicate PhaseStarted(s: Client) {
    s.connected ==> !s.parser.phase.InitializeStream?
  }

  ghost predicate Invariant(cfg: Config, s: Client) {
    SentInOrder(cfg, s) && ReadsConserved(s) && DisconnectsPaid(s) && ParserFollows(s) && PhaseStarted(s)
  }

  lemma FeedAllSnoc(p: Parser, chunks: seq<Bytes>, bytes: Bytes)
    ensures var u := FeedAll(p, chunks);
            var v := Feed(u.parser, bytes);
            FeedAll(p, chunks + [bytes]) == Update(v.parser, u.cuts + v.cuts)
  {
    hide Feed;
    var v := Feed(FeedAll(p, chunks).parser, bytes);
    FeedAllConcat(p, chunks, [bytes]);
    assert FeedAll(v.parser, []) == Update(v.parser, []);
    assert v.cuts + [] == v.cuts;
  }

  lemma UpdateKeepsParser(cfg: Config, s: Client, bytes: Bytes, nonce: Bytes)
    requires ParserFollows(s)
    ensures ParserFollows(UpdateWith(cfg, s, bytes, nonce))
  {
    hide FeedAll, Advance, Stanzas, InitiationStream, AuthStanza, Choose;
    FeedAllSnoc(START.parser, s.log.fed, bytes);
  }

  lemma UpdateKeepsCounts(cfg: Config, s: Client, bytes: Bytes, nonce: Bytes)
    requires s.connected
    ensures var t := UpdateWith(cfg, s, bytes, nonce);
            && PhaseStarted(t)
            && t.armed - s.armed == |t.log.sent| - |s.log.sent|
            && t.log.disconnects + (if t.connected then 1 else 0) == s.log.disconnects + 1
            && t.resolving == s.resolving && t.connecting == s.connecting
            && t.log.attempts == s.log.attempts && t.log.requests == s.log.requests && t.log.dropped == s.log.dropped
  {
    hide ExtractXML, Stanzas, InitiationStream, AuthStanza, Choose, Payload;
  }

  lemma UpdateKeepsOrder(cfg: Config, s: Client, bytes: Bytes, nonce: Bytes)
    requires s.connected && |nonce| == NONCE_LENGTH && SentInOrder(cfg, s)
    ensures SentInOrder(cfg, UpdateWith(cfg, s, bytes, nonce))
  {
    hide Advance, Stanzas, InitiationStream, AuthStanza, Choose, Payload, Mechanisms;
    var p := s.parser.(buffer := s.parser.buffer + bytes);
    AdvancePhase(p);
    StanzasConcat(s.log.cuts, Advance(p).cuts);
  }

  lemma AdvancePhase(p: Parser)
    ensures var u := Advance(p);
            && (Stanzas(u.cuts) != [] ==> u.cuts != [] && Stanzas(u.cuts) == [u.cuts[0].stanza])
            && if p.phase.InitializeStream? then u.parser.phase == SelectMechanism && Stanzas(u.cuts) == []
               else u.parser.phase == if Stanzas(u.cuts) == [] then p.phase else DecodeChallenge
  {
    hide ExtractXML;
    if !p.phase.InitializeStream? {
      StanzasOfAdvance(p);
    }
  }

  lemma StepKeepsInvariant(cfg: Config, s: Client, e: Event)
    requires Invariant(cfg, s) && Enabled(s, e)
    ensures Invariant(cfg, Step(cfg, s, e))
  {
    hide UpdateWith, Stanzas, FeedAll, InitiationStream, AuthStanza, Choose, Mechanisms, Payload;
    match e
    case Connected(failed, nonce) =>
      if !failed {
        var t := s.(connecting := s.connecting - 1, connected := true);
        UpdateKeepsParser(cfg, t, [], nonce);
        UpdateKeepsCounts(cfg, t, [], nonce);
        UpdateKeepsOrder(cfg, t, [], nonce);
      }
    case Received(failed, bytes, nonce) =>
      if !failed && s.connected {
        var t := s.(armed := s.armed - 1);
        UpdateKeepsParser(cfg, t, bytes, nonce);
        UpdateKeepsCounts(cfg, t, bytes, nonce);
        UpdateKeepsOrder(cfg, t, bytes, nonce);
      }
    case _ =>
  }

  lemma {:induction false} RunKeepsInvariant(cfg: Config, s: Client, es: seq<Event>)
    requires Invariant(cfg, s) && Feasible(cfg, s, es)
    ensures Invariant(cfg, Run(cfg, s, es))
    decreases |es|
  {
    hide Invariant, Step, Enabled;
    if es != [] {
      StepKeepsInvariant(cfg, s, es[0]);
      RunKeepsInvariant(cfg, Step(cfg, s, es[0]), es[1..]);
    }
  }

  lemma RunFromStart(cfg: Config, es: seq<Event>)
    requires Feasible(cfg, START, es)
    ensures Invariant(cfg, Run(cfg, START, es))
  {
    hide Run, Feasible;
    assert Invariant(cfg, START);
    RunKeepsInvariant(cfg, START, es);
  }

  // ---------- The logs are those of the events ----------

  /** What an event hands to the client: the bytes of a successful read on a connection, none for a connection. */
  function Handed(s: Client, e: Event): seq<Bytes> {
    match e
    case Connected(failed, _) => if failed then [] else [[]]
    case Received(failed, bytes, _) => if failed || !s.connected then [] else [bytes]
    case _ => []
  }

  function Chunks(cfg: Config, s: Client, es: seq<Event>): seq<Bytes>
    requires Feasible(cfg, s, es)
    decreases |es|
  {
    if es == [] then [] else Handed(s, es[0]) + Chunks(cfg, Step(cfg, s, es[0]), es[1..])
  }

  /** The bytes of all reads of a run that did not fail and found a connection, in order. */
  function Delivered(cfg: Config, s: Client, es: seq<Event>): Bytes
    requires Feasible(cfg, s, es)
    decreases |es|
  {
    if es == [] then []
    else (if es[0].Received? && !es[0].failed && s.connected then es[0].bytes else [])
         + Delivered(cfg, Step(cfg, s, es[0]), es[1..])
  }

  /** The reads of a run that completed without a connection. */
  function Dropped(cfg: Config, s: Client, es: seq<Event>): nat
    requires Feasible(cfg, s, es)
    decreases |es|
  {
    if es == [] then 0
    else (if es[0].Received? && !s.connected then 1 else 0) + Dropped(cfg, Step(cfg, s, es[0]), es[1..])
  }

  /** Calls of `Connect`, and calls of `Disconnect` from outside. */
  function Requested(es: seq<Event>): nat {
    if es == [] then 0 else (if es[0].Connect? || es[0].Close? then 1 else 0) + Requested(es[1..])
  }

  lemma StepLogs(cfg: Config, s: Client, e: Event)
    requires Enabled(s, e)
    ensures var t := Step(cfg, s, e);
            && t.log.fed == s.log.fed + Handed(s, e)
            && t.log.dropped == s.log.dropped + (if e.Received? && !s.connected then 1 else 0)
            && t.log.attempts + t.log.requests
            == s.log.attempts + s.log.requests + (if e.Connect? || e.Close? then 1 else 0)
  {
    hide Advance, Stanzas, Mechanisms, Choose, InitiationStream, AuthStanza, Payload;
    assert s.log.fed + [] == s.log.fed;
  }

  lemma {:induction false} RunLogs(cfg: Config, s: Client, es: seq<Event>)
    requires Feasible(cfg, s, es)
    ensures var t := Run(cfg, s, es);
            && t.log.fed == s.log.fed + Chunks(cfg, s, es)
            && t.log.dropped == s.log.dropped + Dropped(cfg, s, es)
            && t.log.attempts + t.log.requests == s.log.attempts + s.log.requests + Requested(es)
    decreases |es|
  {
    hide Step, Enabled, Handed;
    if es == [] {
      assert s.log.fed + [] == s.log.fed;
    } else {
      StepLogs(cfg, s, es[0]);
      RunLogs(cfg, Step(cfg, s, es[0]), es[1..]);
    }
  }

  lemma {:induction false} ChunksAreDelivered(cfg: Config, s: Client, es: seq<Event>)
    requires Feasible(cfg, s, es)
    ensures Flatten(Chunks(cfg, s, es)) == Delivered(cfg, s, es)
    decreases |es|
  {
    hide Step, Enabled, Flatten;
    if es == [] {
      FlattenNothing();
    } else {
      FlattenNothing();
      HandedBytes(s, es[0]);
      FlattenConcat(Handed(s, es[0]), Chunks(cfg, Step(cfg, s, es[0]), es[1..]));
      ChunksAreDelivered(cfg, Step(cfg, s, es[0]), es[1..]);
    }
  }

  lemma HandedBytes(s: Client, e: Event)
    ensures Flatten(Handed(s, e)) == if e.Received? && !e.failed && s.connected then e.bytes else []
  {
    hide Flatten;
    FlattenNothing();
    match e
    case Connected(failed, _) => FlattenOne([]);
    case Received(failed, bytes, _) => FlattenOne(bytes);
    case _ =>
  }

  /** Everything the reads of a run delivered was appended to the buffer, in order, and nothing else. */
  lemma RunFeeds(cfg: Config, es: seq<Event>)
    requires Feasible(cfg, START, es)
    ensures var log := Run(cfg, START, es).log;
            && log.fed == Chunks(cfg, START, es) && Flatten(log.fed) == Delivered(cfg, START, es)
            && log.dropped == Dropped(cfg, START, es)
            && log.attempts + log.requests == Requested(es)
  {
    hide Run, Feasible, Chunks, Delivered, Flatten;
    RunLogs(cfg, START, es);
    ChunksAreDelivered(cfg, START, es);
    assert [] + Chunks(cfg, START, es) == Chunks(cfg, START, es);
  }

  // ---------- Safety of whole runs ----------

  /** The elements of the first stanza cut in a run: the features the server offered. */
  function Features(cfg: Config, s: Client): seq<Child>
    requires Stanzas(s.log.cuts) != []
  {
    cfg.parse(Stanzas(s.log.cuts)[0])
  }

  /** A mechanism that the client supports is offered. */
  ghost predicate Supported(features: seq<Child>) {
    IsOffered(features, Ascii("SCRAM-SHA-1")) || IsOffered(features, Ascii("DIGEST-MD5"))
  }

  /**
   Whatever the server sends and however often the connection is lost, the client sends at most
   the stream header and one request to authenticate. It asks for SCRAM-SHA-1 if that is offered,
   else for DIGEST-MD5 if that is, and otherwise for nothing: PLAIN never reaches the socket.
   */
  lemma SafeLogin(cfg: Config, es: seq<Event>)
    requires Feasible(cfg, START, es)
    ensures var s := Run(cfg, START, es);
            && |s.log.sent| <= 2
            && (|s.log.sent| >= 1 ==> s.log.sent[0] == InitiationStream(cfg.host))
            && (|s.log.sent| == 2 ==>
                  && Stanzas(s.log.cuts) != []
                  && (AsksFor(s.log.sent[1], SHA1) <==> IsOffered(Features(cfg, s), Ascii("SCRAM-SHA-1")))
                  && (AsksFor(s.log.sent[1], MD5) <==>
                        && !IsOffered(Features(cfg, s), Ascii("SCRAM-SHA-1"))
                        && IsOffered(Features(cfg, s), Ascii("DIGEST-MD5"))))
            && (Stanzas(s.log.cuts) != [] ==> (|s.log.sent| == 2 <==> Supported(Features(cfg, s))))
            && forall stanza <- s.log.sent :: !AsksFor(stanza, NoMechanism)
  {
    hide Run, Feasible, AsksFor, InitiationStream, AuthStanza, IsOffered, Stanzas, Mechanisms, Payload, FeedAll;
    RunFromStart(cfg, es);
    var s := Run(cfg, START, es);
    InitiationAsksForNone(cfg.host, NoMechanism);
    if Stanzas(s.log.cuts) != [] {
      MechanismsExactly(Features(cfg, s), Ascii("SCRAM-SHA-1"));
      MechanismsExactly(Features(cfg, s), Ascii("DIGEST-MD5"));
    }
    if |s.log.sent| == 2 {
      var m := Choose(Mechanisms(Features(cfg, s)));
      var nonce :| |nonce| == NONCE_LENGTH && s.log.sent[1] == AuthStanza(m, Payload(cfg, m, nonce));
      AuthAsksForOne(m, Payload(cfg, m, nonce), SHA1);
      AuthAsksForOne(m, Payload(cfg, m, nonce), MD5);
      AuthAsksForOne(m, Payload(cfg, m, nonce), NoMechanism);
    }
  }

  /** At most two reads are ever outstanding: one for every stanza sent, less the reads dropped. */
  lemma ReadsBounded(cfg: Config, es: seq<Event>)
    requires Feasible(cfg, START, es)
    ensures var s := Run(cfg, START, es); s.armed == |s.log.sent| - Dropped(cfg, START, es) && s.armed <= 2
  {
    hide Run, Feasible, SentInOrder, FeedAll, Dropped;
    RunFromStart(cfg, es);
    RunFeeds(cfg, es);
    SafeLogin(cfg, es);
  }

  /** `OnDisconnect` is called at most once per attempt to connect and explicit `Disconnect`. */
  lemma DisconnectsBounded(cfg: Config, es: seq<Event>)
    requires Feasible(cfg, START, es)
    ensures Run(cfg, START, es).log.disconnects <= Requested(es)
  {
    hide Run, Feasible, SentInOrder, FeedAll, Requested;
    RunFromStart(cfg, es);
    RunFeeds(cfg, es);
  }

  // ---------- Features are answered ----------

  lemma NothingInNothing(startTag: Bytes, endTag: Bytes)
    requires startTag != []
    ensures ExtractXML([], startTag, endTag) == None
  {
  }

  /** The first update, which cuts nothing, had no bytes to look at. */
  predicate StartedEmpty(s: Client) {
    (s.connected ==> s.log.fed != []) && (s.log.fed != [] ==> s.log.fed[0] == [])
  }

  lemma StepKeepsStart(cfg: Config, s: Client, e: Event)
    requires StartedEmpty(s) && Enabled(s, e)
    ensures StartedEmpty(Step(cfg, s, e))
  {
    hide Advance, Stanzas, Mechanisms, Choose, InitiationStream, AuthStanza, Payload;
  }

  lemma {:induction false} RunKeepsStart(cfg: Config, s: Client, es: seq<Event>)
    requires StartedEmpty(s) && Feasible(cfg, s, es)
    ensures StartedEmpty(Run(cfg, s, es))
    decreases |es|
  {
    hide StartedEmpty, Step, Enabled;
    if es != [] {
      StepKeepsStart(cfg, s, es[0]);
      RunKeepsStart(cfg, Step(cfg, s, es[0]), es[1..]);
    }
  }

  /** The chunks fed in a run: none, or none of the bytes first and the rest in the second state. */
  lemma FedAfterStart(cfg: Config, es: seq<Event>) returns (rest: seq<Bytes>)
    requires Feasible(cfg, START, es)
    ensures var s := Run(cfg, START, es);
            && Flatten(rest) == Delivered(cfg, START, es)
            && s.log.cuts == FeedAll(Parser(SelectMechanism, []), rest).cuts
  {
    hide Run, Feasible, Delivered, Chunks, Flatten, FeedAll, SentInOrder;
    RunFromStart(cfg, es);
    RunFeeds(cfg, es);
    RunKeepsStart(cfg, START, es);
    var s := Run(cfg, START, es);
    if s.log.fed == [] {
      rest := [];
      FedNothing();
    } else {
      rest := s.log.fed[1..];
      assert s.log.fed == [[]] + rest;
      FedFirst(rest);
    }
  }

  lemma FedNothing()
    ensures FeedAll(START.parser, []).cuts == [] && FeedAll(Parser(SelectMechanism, []), []).cuts == []
  {
  }

  lemma FedFirst(rest: seq<Bytes>)
    ensures FeedAll(START.parser, [[]] + rest).cuts == FeedAll(Parser(SelectMechanism, []), rest).cuts
    ensures Flatten([[]] + rest) == Flatten(rest)
  {
    assert ([[]] + rest)[1..] == rest;
    assert START.parser.buffer + [] == [];
    var v := FeedAll(Parser(SelectMechanism, []), rest);
    assert [] + v.cuts == v.cuts;
  }

  lemma TagInside(b: Bytes, tag: Bytes, i: nat)
    requires FirstAt(b, tag, i)
    ensures i + |tag| <= |b|
  {
  }

  /**
   Features that have arrived are answered: in any run in which the reads have delivered them, with
   whatever in front and in whatever pieces, they are the first stanza, and a request has been sent
   exactly if a supported mechanism is among them.
   */
  lemma FeaturesAnswered(cfg: Config, es: seq<Event>, i: nat, j: nat)
    requires Feasible(cfg, START, es) && i < j
    requires FirstAt(Delivered(cfg, START, es), Ascii("<stream:features>"), i)
    requires FirstAt(Delivered(cfg, START, es), Ascii("</stream:features>"), j)
    ensures var s, features := Run(cfg, START, es), Delivered(cfg, START, es)[i..j + 18];
            && Stanzas(s.log.cuts) != [] && Stanzas(s.log.cuts)[0] == features
            && (|s.log.sent| == 2 <==> Supported(cfg.parse(features)))
            && (|s.log.sent| == 2 ==>
                  AsksFor(s.log.sent[1], if IsOffered(cfg.parse(features), Ascii("SCRAM-SHA-1")) then SHA1 else MD5))
  {
    hide Run, Feasible, Delivered, Flatten, FeedAll, FirstAt, AsksFor, IsOffered, Stanzas;
    var d, start := Delivered(cfg, START, es), Parser(SelectMechanism, []);
    var s := Run(cfg, START, es);
    var rest := FedAfterStart(cfg, es);
    NothingInNothing(FEATURES_START, FEATURES_END);
    assert [] + d == d;
    FeaturesEnds();
    FirstCut(start, rest, i, j);
    TagInside(d, Ascii("</stream:features>"), j);
    assert s.log.cuts[0].stanza == d[i..j + 18];
    assert |d[i..j + 18]| > 0;
    StanzasStep(s.log.cuts);
    SafeLogin(cfg, es);
  }

  /** Until both tags have been delivered, no request is sent. */
  lemma NoFeaturesNoRequest(cfg: Config, es: seq<Event>)
    requires Feasible(cfg, START, es)
    requires var d := Delivered(cfg, START, es);
             || (forall i :: !Matches(d, Ascii("<stream:features>"), i))
             || (forall j :: !Matches(d, Ascii("</stream:features>"), j))
    ensures |Run(cfg, START, es).log.sent| <= 1
  {
    hide Run, Feasible, Delivered, Flatten, FeedAll, Matches, AsksFor, IsOffered, ExtractXML;
    var d, start := Delivered(cfg, START, es), Parser(SelectMechanism, []);
    var rest := FedAfterStart(cfg, es);
    ExtractionExactly(d, FEATURES_START, FEATURES_END);
    assert [] + d == d;
    NoCut(start, rest);
    StanzasNothing();
    SafeLogin(cfg, es);
  }

  /** Once a challenge is awaited, it is cut out of the buffer, which holds everything else until then. */
  lemma ChallengeIsCut(cfg: Config, s: Client, bytes: Bytes, nonce: Bytes, i: nat, j: nat)
    requires Enabled(s, Received(false, bytes, nonce)) && s.connected && s.parser.phase.DecodeChallenge? && i < j
    requires FirstAt(s.parser.buffer + bytes, Ascii("<challenge"), i)
    requires FirstAt(s.parser.buffer + bytes, Ascii("</challenge>"), j)
    ensures var b, t := s.parser.buffer + bytes, Step(cfg, s, Received(false, bytes, nonce));
            && t.parser == Parser(DecodeChallenge, b[j + 12..])
            && t.log.cuts == s.log.cuts + [Cut(b[..i], b[i..j + 12])]
            && t.log.sent == s.log.sent && t.armed == s.armed
  {
    hide Find, FirstAt, Ascii;
    ChallengeEnds();
    var b := s.parser.buffer + bytes;
    FindIsFirst(b, CHALLENGE_START, i);
    FindIsFirst(b, CHALLENGE_END, j);
    TagInside(b, CHALLENGE_END, j);
    UpdatedByChallenge(cfg, s.(parser := s.parser.(buffer := b)), nonce);
  }

  // ---------- What the server reads ----------

  /** The event that a stanza answers, with the nonce drawn in its handler. */
  predicate Asked(cfg: Config, m: Mechanism, e: Event, stanza: Bytes) {
    (e.Connected? || e.Received?) && |e.nonce| == NONCE_LENGTH && stanza == AuthStanza(m, Payload(cfg, m, e.nonce))
  }

  ghost predicate SentIn(cfg: Config, es: seq<Event>, stanza: Bytes) {
    stanza == InitiationStream(cfg.host) || exists m, k | 0 <= k < |es| :: Asked(cfg, m, es[k], stanza)
  }

  lemma StepSends(cfg: Config, s: Client, e: Event)
    requires Enabled(s, e)
    ensures var t := Step(cfg, s, e);
            t.log.sent == s.log.sent || exists stanza :: t.log.sent == s.log.sent + [stanza] && SentIn(cfg, [e], stanza)
  {
    hide Advance, Stanzas, Mechanisms, Choose, InitiationStream, AuthStanza, Payload;
    StanzasNothing();
    var t := Step(cfg, s, e);
    if t.log.sent != s.log.sent {
      var stanza := t.log.sent[|s.log.sent|];
      assert t.log.sent == s.log.sent + [stanza];
      if s.parser.phase.SelectMechanism? {
        var m := Choose(Mechanisms(cfg.parse(Feed(s.parser, if e.Received? then e.bytes else []).cuts[0].stanza)));
        assert Asked(cfg, m, [e][0], stanza);
      }
      assert SentIn(cfg, [e], stanza);
    }
  }
  lemma SentWithin(cfg: Config, part: seq<Event>, es: seq<Event>, offset: nat, stanza: Bytes)
    requires SentIn(cfg, part, stanza) && offset + |part| <= |es| && es[offset..offset + |part|] == part
    ensures SentIn(cfg, es, stanza)
  {
    hide Asked, InitiationStream;
    if m, k :| 0 <= k < |part| && Asked(cfg, m, part[k], stanza) {
      assert es[offset + k] == part[k];
    }
  }

  /** Every stanza sent in a run is the stream header or a request with the nonce drawn in one of its events. */
  lemma {:induction false} RunSends(cfg: Config, s: Client, es: seq<Event>)
    requires Feasible(cfg, s, es)
    ensures var sent := Run(cfg, s, es).log.sent;
            s.log.sent <= sent && forall i | |s.log.sent| <= i < |sent| :: SentIn(cfg, es, sent[i])
    decreases |es|
  {
    hide Step, Enabled, SentIn;
    if es != [] {
      StepSends(cfg, s, es[0]);
      var t := Step(cfg, s, es[0]);
      var sent := Run(cfg, s, es).log.sent;
      RunSends(cfg, t, es[1..]);
      forall i | |s.log.sent| <= i < |sent|
        ensures SentIn(cfg, es, sent[i])
      {
        if i < |t.log.sent| {
          assert es[0..1] == [es[0]];
          SentWithin(cfg, [es[0]], es, 0, sent[i]);
        } else {
          SentWithin(cfg, es[1..], es, 1, sent[i]);
        }
      }
    }
  }

  /**
   What a server reads in any run: its own host in the header, exactly if no quote is in it, the name
   of the best mechanism it offered, and in a SCRAM request the user and the nonce that was drawn for
   it, exactly if no comma is in the user name.
   */
  lemma ServerReads(cfg: Config, es: seq<Event>, beyond: bv8)
    requires Feasible(cfg, START, es)
    ensures var s := Run(cfg, START, es);
            && (|s.log.sent| >= 1 ==> (Attribute(s.log.sent[0], 3) == cfg.host <==> QUOTE !in cfg.host))
            && (|s.log.sent| == 2 ==>
                  && Stanzas(s.log.cuts) != []
                  && Attribute(s.log.sent[1], 1)
                  == Ascii(if IsOffered(Features(cfg, s), Ascii("SCRAM-SHA-1")) then "SCRAM-SHA-1" else "DIGEST-MD5"))
            && (|s.log.sent| == 2 && IsOffered(Features(cfg, s), Ascii("SCRAM-SHA-1")) ==>
                  exists k | 0 <= k < |es| ::
                    && (es[k].Connected? || es[k].Received?)
                    && (ReadCredentials(RoundTrip.Decode(beyond, Content(s.log.sent[1])))
                        == Credentials(cfg.username, es[k].nonce)
                        <==> COMMA !in cfg.username))
  {
    hide Run, Feasible, AsksFor, InitiationStream, AuthStanza, IsOffered, Stanzas, Ascii, Field;
    hide Content, ReadCredentials, ScramPayload, RoundTrip.Decode;
    SafeLogin(cfg, es);
    ServerView.HostIsRead(cfg.host);
    var s := Run(cfg, START, es);
    if |s.log.sent| == 2 {
      RunSends(cfg, START, es);
      InitiationAsksForNone(cfg.host, SHA1);
      InitiationAsksForNone(cfg.host, MD5);
      var m, k :| 0 <= k < |es| && Asked(cfg, m, es[k], s.log.sent[1]);
      AuthAsksForOne(m, Payload(cfg, m, es[k].nonce), SHA1);
      AuthAsksForOne(m, Payload(cfg, m, es[k].nonce), MD5);
      ServerView.MechanismIsRead(m, Payload(cfg, m, es[k].nonce));
      ServerView.RequestIsRead(beyond, cfg.username, es[k].nonce);
    }
  }

  // ---------- Without a connection ----------

  predicate Connects(e: Event) {
    e.Connected? && !e.failed
  }

  function Receptions(es: seq<Event>): nat {
    if es == [] then 0 else (if es[0].Received? then 1 else 0) + Receptions(es[1..])
  }

  /**
   Until the next connection is made, a client without one stays without, sends nothing, is fed
   nothing, and every read that completes is one read less outstanding.
   */
  lemma {:induction false} DisconnectedIsQuiet(cfg: Config, s: Client, es: seq<Event>)
    requires !s.connected && Feasible(cfg, s, es) && forall i | 0 <= i < |es| :: !Connects(es[i])
    ensures var t := Run(cfg, s, es);
            && !t.connected && t.parser == s.parser
            && t.log.sent == s.log.sent && t.log.fed == s.log.fed && t.log.cuts == s.log.cuts
            && t.armed == s.armed - Receptions(es)
            && t.log.dropped == s.log.dropped + Receptions(es)
    decreases |es|
  {
    hide UpdateWith;
    if es != [] {
      assert !Connects(es[0]);
      DisconnectedIsQuiet(cfg, Step(cfg, s, es[0]), es[1..]);
    }
  }

  /** With these bytes the features arrive or have arrived, and a supported mechanism is among them, or none is. */
  ghost predicate FindsFeatures(cfg: Config, p: Parser, bytes: Bytes, supported: bool) {
    var cuts := Feed(p, bytes).cuts;
    && p.phase.SelectMechanism? && cuts != [] && Stanzas(cuts) != []
    && (supported <==> Supported(cfg.parse(cuts[0].stanza)))
  }

  /** What one update does to the connection and to the reads, by what it finds. */
  lemma UpdateByFeatures(cfg: Config, s: Client, bytes: Bytes, nonce: Bytes)
    requires s.connected
    ensures var t := UpdateWith(cfg, s, bytes, nonce);
            && (t.connected <==> !FindsFeatures(cfg, s.parser, bytes, false))
            && (t.armed == s.armed || t.armed == s.armed + 1)
            && (t.armed > s.armed <==> s.parser.phase.InitializeStream? || FindsFeatures(cfg, s.parser, bytes, true))
            && (t.armed == s.armed ==> t.log.sent == s.log.sent)
  {
    hide Advance, Stanzas, Mechanisms, IsOffered, InitiationStream, AuthStanza, Payload;
    StanzasNothing();
    if s.parser.phase.SelectMechanism? && Stanzas(Feed(s.parser, bytes).cuts) != [] {
      var features := cfg.parse(Feed(s.parser, bytes).cuts[0].stanza);
      MechanismsExactly(features, Ascii("SCRAM-SHA-1"));
      MechanismsExactly(features, Ascii("DIGEST-MD5"));
    }
  }

  /**
   Exactly when there is a connection after an event: it is made by a successful connect, and lost
   by an explicit `Disconnect`, a failed resolution, connect or read, and by features without a
   supported mechanism, be they just read or still in the buffer of an earlier connection.
   */
  lemma LosesConnection(cfg: Config, s: Client, e: Event)
    requires Enabled(s, e)
    ensures Step(cfg, s, e).connected <==>
            match e
            case Connect => s.connected
            case Close => false
            case Resolved(failed) => s.connected && !failed
            case Connected(failed, _) => !failed && !FindsFeatures(cfg, s.parser, [], false)
            case Received(failed, bytes, _) => s.connected && !failed && !FindsFeatures(cfg, s.parser, bytes, false)
  {
    hide UpdateWith, FindsFeatures;
    match e
    case Connected(failed, nonce) =>
      if !failed {
        UpdateByFeatures(cfg, s.(connecting := s.connecting - 1, connected := true), [], nonce);
      }
    case Received(failed, bytes, nonce) =>
      if s.connected && !failed {
        UpdateByFeatures(cfg, s.(armed := s.armed - 1), bytes, nonce);
      }
    case _ =>
  }

  /** `OnDisconnect` is called, once, by exactly these events. */
  lemma ReportsDisconnect(cfg: Config, s: Client, e: Event)
    requires Enabled(s, e)
    ensures var reported :=
              match e
              case Connect => false
              case Close => true
              case Resolved(failed) => failed
              case Connected(failed, _) => failed || FindsFeatures(cfg, s.parser, [], false)
              case Received(failed, bytes, _) => s.connected && (failed || FindsFeatures(cfg, s.parser, bytes, false));
            Step(cfg, s, e).log.disconnects == s.log.disconnects + if reported then 1 else 0
  {
    hide UpdateWith, FindsFeatures;
    match e
    case Connected(failed, nonce) =>
      if !failed {
        var t := s.(connecting := s.connecting - 1, connected := true);
        UpdateByFeatures(cfg, t, [], nonce);
        UpdateKeepsCounts(cfg, t, [], nonce);
      }
    case Received(failed, bytes, nonce) =>
      if s.connected && !failed {
        UpdateByFeatures(cfg, s.(armed := s.armed - 1), bytes, nonce);
        UpdateKeepsCounts(cfg, s.(armed := s.armed - 1), bytes, nonce);
      }
    case _ =>
  }

  /** The handler that loses the connection still re-arms its own read, once. */
  lemma CloseInsideCallback(cfg: Config, s: Client, e: Event)
    requires Enabled(s, e) && e.Received? && s.connected && !Step(cfg, s, e).connected
    ensures Step(cfg, s, e).armed == s.armed && Step(cfg, s, e).log.sent == s.log.sent
  {
    hide Advance, InitiationStream, AuthStanza;
  }

  /**
   A new connection is answered, by one stanza and one read, exactly if it is the first one or if
   features with a supported mechanism are still in the buffer. Otherwise it sends nothing, and a
   client whose reads have all completed cannot read on it.
   */
  lemma ConnectionArmsRead(cfg: Config, s: Client, nonce: Bytes)
    requires Enabled(s, Connected(false, nonce))
    ensures var t := Step(cfg, s, Connected(false, nonce));
            && (t.armed > s.armed <==> s.parser.phase.InitializeStream? || FindsFeatures(cfg, s.parser, [], true))
            && (t.armed <= s.armed ==> t.armed == s.armed && t.log.sent == s.log.sent)
            && (t.armed <= s.armed == 0 ==> forall e | Enabled(t, e) :: !e.Received?)
  {
    hide UpdateWith, FindsFeatures;
    UpdateByFeatures(cfg, s.(connecting := s.connecting - 1, connected := true), [], nonce);
  }

  /** A new connection opens a stream exactly if it is the first one: the phase never goes back. */
  lemma ConnectionOpensStream(cfg: Config, s: Client, nonce: Bytes)
    requires Enabled(s, Connected(false, nonce))
    ensures Step(cfg, s, Connected(false, nonce)).log.sent == s.log.sent + [InitiationStream(cfg.host)]
       <==> s.parser.phase.InitializeStream?
  {
    hide Advance, Stanzas, Choose, Mechanisms, InitiationStream, AuthStanza, AsksFor, Payload;
    StanzasNothing();
    var t := Step(cfg, s, Connected(false, nonce));
    if s.parser.phase.SelectMechanism? && |t.log.sent| > |s.log.sent| {
      var m := Choose(Mechanisms(cfg.parse(Feed(s.parser, []).cuts[0].stanza)));
      AuthAsksForOne(m, Payload(cfg, m, nonce), m);
      InitiationAsksForNone(cfg.host, m);
      assert t.log.sent[|s.log.sent|] == AuthStanza(m, Payload(cfg, m, nonce));
    }
  }

  /** No stream is to be opened, and no features with a supported mechanism can still come out of the buffer. */
  ghost predicate Exhausted(cfg: Config, p: Parser)
    decreases |p.buffer|
  {
    match p.phase
    case InitializeStream => false
    case DecodeChallenge => true
    case SelectMechanism =>
      match ExtractXML(p.buffer, FEATURES_START, FEATURES_END)
      case None => true
      case Some(x) =>
        if x.cut.stanza == [] then Exhausted(cfg, Parser(SelectMechanism, x.rest))
        else !Supported(cfg.parse(x.cut.stanza))
  }

  lemma ExhaustedStays(cfg: Config, p: Parser)
    requires Exhausted(cfg, p)
    ensures !p.phase.InitializeStream? && !FindsFeatures(cfg, p, [], true) && Exhausted(cfg, Feed(p, []).parser)
  {
    hide ExtractXML, Supported;
    assert p.buffer + [] == p.buffer;
    StanzasOfAdvance(p);
  }

  lemma StepKeepsExhausted(cfg: Config, s: Client, e: Event)
    requires s.armed == 0 && Exhausted(cfg, s.parser) && Enabled(s, e)
    ensures var t := Step(cfg, s, e); t.armed == 0 && Exhausted(cfg, t.parser) && t.log.sent == s.log.sent
  {
    hide Exhausted, FindsFeatures, Advance, Stanzas, InitiationStream, AuthStanza, Choose, Mechanisms, Payload;
    ExhaustedStays(cfg, s.parser);
    match e
    case Connected(failed, nonce) =>
      if !failed {
        UpdateByFeatures(cfg, s.(connecting := s.connecting - 1, connected := true), [], nonce);
      }
    case _ =>
  }

  lemma {:induction false} RunKeepsExhausted(cfg: Config, s: Client, es: seq<Event>)
    requires s.armed == 0 && Exhausted(cfg, s.parser) && Feasible(cfg, s, es)
    ensures var t := Run(cfg, s, es); t.armed == 0 && Exhausted(cfg, t.parser) && t.log.sent == s.log.sent
    decreases |es|
  {
    hide Exhausted, Step, Enabled;
    if es != [] {
      StepKeepsExhausted(cfg, s, es[0]);
      RunKeepsExhausted(cfg, Step(cfg, s, es[0]), es[1..]);
    }
  }

  lemma {:induction false} RunConcat(cfg: Config, s: Client, es: seq<Event>, more: seq<Event>)
    requires Feasible(cfg, s, es) && Feasible(cfg, Run(cfg, s, es), more)
    ensures Feasible(cfg, s, es + more) && Run(cfg, s, es + more) == Run(cfg, Run(cfg, s, es), more)
    decreases |es|
  {
    hide Step, Enabled;
    if es == [] {
      assert es + more == more;
    } else {
      assert (es + more)[1..] == es[1..] + more;
      RunConcat(cfg, Step(cfg, s, es[0]), es[1..], more);
    }
  }

  lemma RunOne(cfg: Config, s: Client, e: Event)
    requires Enabled(s, e)
    ensures Feasible(cfg, s, [e]) && Run(cfg, s, [e]) == Step(cfg, s, e)
  {
    hide Step, Enabled;
    assert [e][1..] == [];
  }

  /** An attempt to connect that succeeds. */
  function Attempt(nonce: Bytes): seq<Event> {
    [Connect] + [Resolved(false)] + [Connected(false, nonce)]
  }

  lemma AttemptConnects(cfg: Config, s: Client, nonce: Bytes)
    requires |nonce| == NONCE_LENGTH
    ensures Feasible(cfg, s, Attempt(nonce))
    ensures Run(cfg, s, Attempt(nonce))
         == UpdateWith(cfg, s.(connected := true, log := s.log.(attempts := s.log.attempts + 1)), [], nonce)
  {
    hide UpdateWith, Run, Feasible;
    var t := Step(cfg, s, Connect);
    var u := Step(cfg, t, Resolved(false));
    RunOne(cfg, s, Connect);
    RunOne(cfg, t, Resolved(false));
    RunConcat(cfg, s, [Connect], [Resolved(false)]);
    RunOne(cfg, u, Connected(false, nonce));
    RunConcat(cfg, s, [Connect] + [Resolved(false)], [Connected(false, nonce)]);
  }

  /** Connecting often enough brings out what is left in the buffer. */
  lemma {:induction false} RunThatSends(cfg: Config, s: Client, nonce: Bytes) returns (es: seq<Event>)
    requires !Exhausted(cfg, s.parser) && |nonce| == NONCE_LENGTH
    ensures Feasible(cfg, s, es) && Run(cfg, s, es).log.sent != s.log.sent
    decreases |s.parser.buffer|
  {
    hide Run, Feasible, Attempt, UpdateWith, ExtractXML, Supported;
    var p := s.parser;
    var start := s.(connected := true, log := s.log.(attempts := s.log.attempts + 1));
    AttemptConnects(cfg, s, nonce);
    UpdateByFeatures(cfg, start, [], nonce);
    UpdateKeepsCounts(cfg, start, [], nonce);
    assert p.buffer + [] == p.buffer;
    es := Attempt(nonce);
    if p.phase.SelectMechanism? {
      StanzasOfAdvance(p);
      var x := ExtractXML(p.buffer, FEATURES_START, FEATURES_END).value;
      if x.cut.stanza == [] {
        var t := Run(cfg, s, Attempt(nonce));
        assert t.parser == Parser(SelectMechanism, x.rest) by { ParserOfUpdate(cfg, start, nonce); }
        var more := RunThatSends(cfg, t, nonce);
        RunConcat(cfg, s, Attempt(nonce), more);
        es := Attempt(nonce) + more;
      }
    }
  }

  lemma ParserOfUpdate(cfg: Config, s: Client, nonce: Bytes)
    ensures UpdateWith(cfg, s, [], nonce).parser == Feed(s.parser, []).parser
  {
    hide Advance, Stanzas, InitiationStream, AuthStanza, Choose, Mechanisms, Payload;
  }

  /**
   A client without an outstanding read never sends or reads again, whatever happens, exactly if it
   has opened its stream and is past the features, or they can no longer come out of its buffer.
   */
  lemma StuckExactly(cfg: Config, s: Client)
    requires s.armed == 0
    ensures (forall es | Feasible(cfg, s, es) :: Run(cfg, s, es).log.sent == s.log.sent && Run(cfg, s, es).armed == 0)
       <==> Exhausted(cfg, s.parser)
  {
    hide Exhausted, Run, Feasible;
    if Exhausted(cfg, s.parser) {
      forall es | Feasible(cfg, s, es)
        ensures Run(cfg, s, es).log.sent == s.log.sent && Run(cfg, s, es).armed == 0
      {
        RunKeepsExhausted(cfg, s, es);
      }
    } else {
      var es := RunThatSends(cfg, s, seq(NONCE_LENGTH, _ => 0));
    }
  }

  /** The connection breaks: the read that finds out re-arms itself, and then completes once more. */
  function Break(nonce: Bytes): seq<Event> {
    [Received(true, [], nonce)] + [Received(true, [], nonce)]
  }

  lemma BreakDropsRead(cfg: Config, s: Client, nonce: Bytes)
    requires |nonce| == NONCE_LENGTH && s.connected && s.armed == 1
    ensures Feasible(cfg, s, Break(nonce))
    ensures var log := s.log.(disconnects := s.log.disconnects + 1, dropped := s.log.dropped + 1);
            Run(cfg, s, Break(nonce)) == s.(connected := false, armed := 0, log := log)
  {
    hide UpdateWith, Run, Feasible;
    var e := Received(true, [], nonce);
    RunOne(cfg, s, e);
    RunOne(cfg, Step(cfg, s, e), e);
    RunConcat(cfg, s, [e], [e]);
  }

  /**
   A client can be stuck before it has chosen a mechanism: the connection breaks before the features
   arrive, the next one is made, and no second stream is opened.
   */
  lemma LostEarlyIsStuck(cfg: Config, nonce: Bytes)
    requires |nonce| == NONCE_LENGTH
    ensures var es := Attempt(nonce) + Break(nonce) + Attempt(nonce);
            && Feasible(cfg, START, es)
            && var t := Run(cfg, START, es);
               && t.connected && t.armed == 0 && Exhausted(cfg, t.parser) && t.parser.phase.SelectMechanism?
               && t.log.sent == [InitiationStream(cfg.host)]
  {
    hide Run, Feasible, Attempt, Break, InitiationStream, AuthStanza, Stanzas, FindFrom;
    StanzasNothing();
    NothingInNothing(FEATURES_START, FEATURES_END);
    AttemptConnects(cfg, START, nonce);
    var s := Run(cfg, START, Attempt(nonce));
    BreakDropsRead(cfg, s, nonce);
    AttemptConnects(cfg, Run(cfg, s, Break(nonce)), nonce);
    RunConcat(cfg, START, Attempt(nonce), Break(nonce));
    RunConcat(cfg, START, Attempt(nonce) + Break(nonce), Attempt(nonce));
  }

  lemma FirstAttempt(cfg: Config, nonce: Bytes)
    requires |nonce| == NONCE_LENGTH
    ensures Feasible(cfg, START, Attempt(nonce))
    ensures var s := Run(cfg, START, Attempt(nonce)); s.connected && s.armed == 1 && s.log.fed == [[]]
  {
    hide Attempt, Run, Feasible, InitiationStream, AuthStanza, Stanzas;
    AttemptConnects(cfg, START, nonce);
  }

  /** Any bytes can be delivered, by one connect and one read. */
  lemma OneRead(cfg: Config, bytes: Bytes, nonce: Bytes)
    requires |nonce| == NONCE_LENGTH
    ensures var es := Attempt(nonce) + [Received(false, bytes, nonce)];
            Feasible(cfg, START, es) && Delivered(cfg, START, es) == bytes
  {
    hide Attempt, Run, Feasible, Delivered, Chunks, Step, Flatten;
    FirstAttempt(cfg, nonce);
    var s := Run(cfg, START, Attempt(nonce));
    var e := Received(false, bytes, nonce);
    RunOne(cfg, s, e);
    RunConcat(cfg, START, Attempt(nonce), [e]);
    RunFeeds(cfg, Attempt(nonce) + [e]);
    StepLogs(cfg, s, e);
    FlattenOne([]);
    FlattenOne(bytes);
    FlattenConcat([[]], [bytes]);
  }

  // ---------- The bytes of whole runs ----------

  /** All bytes received in a run are accounted for exactly when the run was straight. */
  lemma RunConservesBytes(cfg: Config, es: seq<Event>)
    requires Feasible(cfg, START, es)
    ensures var s := Run(cfg, START, es);
            Joined(s.log.cuts) + s.parser.buffer == Delivered(cfg, START, es)
            <==> StraightRun(START.parser, Chunks(cfg, START, es))
  {
    hide Run, Feasible, SentInOrder, FeedAll, Flatten, Joined, StraightRun, Chunks, Delivered;
    RunFromStart(cfg, es);
    RunFeeds(cfg, es);
    BytesConserved(START.parser, Run(cfg, START, es).log.fed);
    assert START.parser.buffer + Flatten(Run(cfg, START, es).log.fed) == Flatten(Run(cfg, START, es).log.fed);
  }

  /**
   Two runs in which the server sent the same bytes, in whatever pieces and over whatever
   connections, find the same stanzas as far as both get, and never ask for different mechanisms.
   */
  lemma RunsAgree(cfg: Config, es: seq<Event>, fs: seq<Event>)
    requires Feasible(cfg, START, es) && Feasible(cfg, START, fs)
    requires Delivered(cfg, START, es) == Delivered(cfg, START, fs)
    requires TagsInOrder(InitializeStream, Delivered(cfg, START, es))
    ensures var s, t := Run(cfg, START, es), Run(cfg, START, fs);
            && Comparable(Stanzas(s.log.cuts), Stanzas(t.log.cuts))
            && (|s.log.sent| == |t.log.sent| == 2 ==>
                  forall m :: AsksFor(s.log.sent[1], m) <==> AsksFor(t.log.sent[1], m))
  {
    hide Run, Feasible, FeedAll, Flatten, TagsInOrder, Stanzas, AsksFor;
    hide InitiationStream, AuthStanza, Mechanisms, Payload, Chunks, Delivered;
    RunFromStart(cfg, es);
    RunFromStart(cfg, fs);
    RunFeeds(cfg, es);
    RunFeeds(cfg, fs);
    var s, t := Run(cfg, START, es), Run(cfg, START, fs);
    assert START.parser.buffer + Flatten(s.log.fed) == Flatten(s.log.fed);
    ChunkIndependence(START.parser, s.log.fed, t.log.fed);
    if |s.log.sent| == |t.log.sent| == 2 {
      assert Stanzas(s.log.cuts)[0] == Stanzas(t.log.cuts)[0];
      var m := Choose(Mechanisms(Features(cfg, s)));
      var nonce :| |nonce| == NONCE_LENGTH && s.log.sent[1] == AuthStanza(m, Payload(cfg, m, nonce));
      var other :| |other| == NONCE_LENGTH && t.log.sent[1] == AuthStanza(m, Payload(cfg, m, other));
      forall k
        ensures AsksFor(s.log.sent[1], k) <==> AsksFor(t.log.sent[1], k)
      {
        AuthAsksForOne(m, Payload(cfg, m, nonce), k);
        AuthAsksForOne(m, Payload(cfg, m, other), k);
      }
    }
  }
}
