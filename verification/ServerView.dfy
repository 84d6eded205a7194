/**
 What a server reads in the stanzas the client sends, with a reader that knows nothing of how they are
 built (Libs/XMPP/sasl.cpp).
 */
module ServerView {
  import opened Alphabet
  import opened Reader
  import opened Auth
  import EncoderShape
  import Rfc4648
  import RoundTrip

  // ---------- The stream header ----------

  lemma VersionParts()
    ensures XML_VERSION == Ascii("<?xml version='1.0'") + Ascii("?>")
    ensures Ascii("<?xml version='1.0'") == Ascii("<?xml version=") + [QUOTE] + (Ascii("1.0") + [QUOTE])
    ensures QUOTE !in Ascii("<?xml version=") && QUOTE !in Ascii("1.0") && QUOTE !in Ascii("?>")
  {
    hide Ascii;
    EmptyText();
    assert "<?xml version='1.0'" + "?>" == "<?xml version='1.0'?>";
    AsciiConcat("<?xml version='1.0'", "?>");
    AsciiQuoted("<?xml version='1.0'", "<?xml version=", "1.0'");
    AsciiQuoted("1.0'", "1.0", "");
    AsciiQuoted("?>'", "?>", "");
  }

  lemma NamespaceParts()
    ensures Ascii("<stream:stream xmlns='jabber:client'")
         == Ascii("<stream:stream xmlns=") + [QUOTE] + (Ascii("jabber:client") + [QUOTE])
    ensures Ascii(" xmlns:stream='") == Ascii(" xmlns:stream=") + [QUOTE]
    ensures QUOTE !in Ascii("<stream:stream xmlns=") && QUOTE !in Ascii("jabber:client")
    ensures QUOTE !in Ascii(" xmlns:stream=")
  {
    hide Ascii;
    EmptyText();
    AsciiQuoted("<stream:stream xmlns='jabber:client'", "<stream:stream xmlns=", "jabber:client'");
    AsciiQuoted("jabber:client'", "jabber:client", "");
    AsciiQuoted(" xmlns:stream='", " xmlns:stream=", "");
  }

  lemma EmptyText()
    ensures Ascii("") == []
  {
  }

  lemma StreamParts()
    ensures Ascii("http://etherx.jabber.org/streams' to='")
         == Ascii("http://etherx.jabber.org/streams") + [QUOTE] + (Ascii(" to=") + [QUOTE])
    ensures QUOTE !in Ascii("http://etherx.jabber.org/streams") && QUOTE !in Ascii(" to=")
  {
    hide Ascii;
    EmptyText();
    AsciiQuoted("http://etherx.jabber.org/streams' to='", "http://etherx.jabber.org/streams", " to='");
    AsciiQuoted(" to='", " to=", "");
  }

  function HeaderParts(host: Bytes): seq<Bytes> {
    [Ascii("<?xml version="), Ascii("1.0"), Ascii("?>") + Ascii("<stream:stream xmlns="), Ascii("jabber:client"),
     Ascii(" xmlns:stream="), Ascii("http://etherx.jabber.org/streams"), Ascii(" to="), host + HEADER_END]
  }

  lemma HeaderTail(host: Bytes)
    ensures Ascii(" xmlns:stream='") + (Ascii("http://etherx.jabber.org/streams' to='") + (host + HEADER_END))
         == Join(HeaderParts(host)[4..], QUOTE)
  {
    hide Ascii, Join;
    NamespaceParts();
    StreamParts();
    var p := HeaderParts(host);
    JoinOne(p[7], QUOTE);
    JoinTwo(Ascii("http://etherx.jabber.org/streams' to='"), p[5], p[6], [p[7]], QUOTE);
    JoinStep(p[4], p[5..], QUOTE);
    assert [p[5]] + ([p[6]] + [p[7]]) == p[5..] && [p[4]] + p[5..] == p[4..];
  }

  lemma HeaderIsJoined(host: Bytes)
    ensures InitiationStream(host) == Join(HeaderParts(host), QUOTE)
    ensures forall i | 0 <= i < 7 :: QUOTE !in HeaderParts(host)[i]
  {
    hide Ascii, Join;
    VersionParts();
    NamespaceParts();
    StreamParts();
    HeaderTail(host);
    var p := HeaderParts(host);
    var version, clients := Ascii("<?xml version='1.0'"), Ascii("<stream:stream xmlns='jabber:client'");
    JoinTwo(Ascii("?>") + clients, p[2], p[3], p[4..], QUOTE);
    JoinTwo(version, p[0], p[1], p[2..], QUOTE);
    assert [p[2]] + ([p[3]] + p[4..]) == p[2..] && [p[0]] + ([p[1]] + p[2..]) == p;
    assert InitiationStream(host) == version + (Ascii("?>") + clients + Join(p[4..], QUOTE));
  }

  /** The server reads the host in the header exactly if the host has no quote in it; the rest is as it should be. */
  lemma HostIsRead(host: Bytes)
    ensures var header := InitiationStream(host);
            && Field(header, QUOTE, 2) == Ascii("?>") + Ascii("<stream:stream xmlns=")
            && Attribute(header, 1) == Ascii("jabber:client")
            && Attribute(header, 2) == Ascii("http://etherx.jabber.org/streams")
            && Field(header, QUOTE, 6) == Ascii(" to=")
            && (Attribute(header, 3) == host <==> QUOTE !in host)
  {
    hide Ascii, Field, Join;
    HeaderIsJoined(host);
    var p := HeaderParts(host);
    FieldOfJoin(p, QUOTE, 2);
    FieldOfJoin(p, QUOTE, 3);
    FieldOfJoin(p, QUOTE, 5);
    FieldOfJoin(p, QUOTE, 6);
    FieldOfJoin(p, QUOTE, 7);
    HostField(host);
  }

  lemma HostField(host: Bytes)
    ensures Field(host + HEADER_END, QUOTE, 0) == host <==> QUOTE !in host
  {
    hide ByteOf;
    EndOfHeader();
    assert host + HEADER_END == host + [QUOTE] + HEADER_END[1..];
    if QUOTE !in host {
      SplitAtFirst(host, QUOTE, HEADER_END[1..]);
    }
    UpToAll(host + HEADER_END, QUOTE);
  }

  lemma EndOfHeader()
    ensures HEADER_END != [] && HEADER_END[0] == QUOTE
  {
    hide ByteOf;
    Marks();
  }

  // ---------- The request ----------

  lemma OpenParts()
    ensures Ascii("<auth xmlns='") == Ascii("<auth xmlns=") + [QUOTE] && QUOTE !in Ascii("<auth xmlns=")
    ensures Ascii(" mechanism='") == Ascii(" mechanism=") + [QUOTE] && QUOTE !in Ascii(" mechanism=")
  {
    hide Ascii;
    EmptyText();
    AsciiQuoted("<auth xmlns='", "<auth xmlns=", "");
    AsciiQuoted(" mechanism='", " mechanism=", "");
  }

  lemma SaslParts()
    ensures Ascii("urn:ietf:params:xml:ns:xmpp-sasl' mechanism='")
         == Ascii("urn:ietf:params:xml:ns:xmpp-sasl") + [QUOTE] + Ascii(" mechanism='")
    ensures QUOTE !in Ascii("urn:ietf:params:xml:ns:xmpp-sasl")
  {
    hide Ascii;
    AsciiQuoted("urn:ietf:params:xml:ns:xmpp-sasl' mechanism='", "urn:ietf:params:xml:ns:xmpp-sasl", " mechanism='");
  }

  lemma NameHasNoMark(m: Mechanism)
    ensures QUOTE !in Ascii(Name(m)) && GREATER !in Ascii(Name(m))
  {
    hide Ascii;
    AsciiLacks("SCRAM-SHA-1");
    AsciiLacks("DIGEST-MD5");
    AsciiLacks("PLAIN");
  }

  /** What stands behind the attributes of a request. */
  function RequestEnd(m: Mechanism, payload: Bytes): Bytes {
    if m == SHA1 then Ascii(">") + payload + Ascii("</auth>") else Ascii("/>")
  }

  function RequestParts(m: Mechanism, payload: Bytes): seq<Bytes> {
    [Ascii("<auth xmlns="), Ascii("urn:ietf:params:xml:ns:xmpp-sasl"), Ascii(" mechanism="), Ascii(Name(m)),
     RequestEnd(m, payload)]
  }

  lemma RequestIsJoined(m: Mechanism, payload: Bytes)
    ensures AuthStanza(m, payload) == Join(RequestParts(m, payload), QUOTE)
    ensures forall i | 0 <= i < 4 :: QUOTE !in RequestParts(m, payload)[i]
  {
    hide Join, Name, Ascii;
    Quotes();
    OpenParts();
    SaslParts();
    NameHasNoMark(m);
    var p := RequestParts(m, payload);
    JoinOne(p[4], QUOTE);
    JoinStep(p[3], [p[4]], QUOTE);
    JoinTwo(Ascii("urn:ietf:params:xml:ns:xmpp-sasl' mechanism='"), p[1], p[2], [p[3], p[4]], QUOTE);
    JoinStep(p[0], p[1..], QUOTE);
    assert [p[3]] + [p[4]] == [p[3], p[4]];
    assert [p[1]] + ([p[2]] + [p[3], p[4]]) == p[1..] && [p[0]] + p[1..] == p;
    var open, rest := Ascii("<auth xmlns="), Join([p[3], p[4]], QUOTE);
    assert rest == p[3] + [QUOTE] + p[4];
    assert AuthStanza(m, payload)
        == open + [QUOTE] + (Ascii("urn:ietf:params:xml:ns:xmpp-sasl' mechanism='") + rest);
  }

  lemma Quotes()
    ensures Ascii("'") == [QUOTE] && Ascii(">") == [GREATER] && Ascii("</auth>") == [LESS] + Ascii("/auth>")
    ensures Ascii("/>") == [47] + [GREATER]
  {
    hide ByteOf;
    Marks();
    Slash();
  }

  lemma Slash()
    ensures ByteOf('/') == 47
  {
  }

  /** The attributes of a request: its namespace and the name of its mechanism. */
  lemma MechanismIsRead(m: Mechanism, payload: Bytes)
    ensures var request := AuthStanza(m, payload);
            && Field(request, QUOTE, 0) == Ascii("<auth xmlns=")
            && Attribute(request, 0) == Ascii("urn:ietf:params:xml:ns:xmpp-sasl")
            && Field(request, QUOTE, 2) == Ascii(" mechanism=")
            && (m == SHA1 ==> Attribute(request, 1) == Ascii("SCRAM-SHA-1"))
            && (m == MD5 ==> Attribute(request, 1) == Ascii("DIGEST-MD5"))
  {
    hide Ascii, Field, Join, RequestEnd;
    RequestIsJoined(m, payload);
    var p := RequestParts(m, payload);
    FieldOfJoin(p, QUOTE, 0);
    FieldOfJoin(p, QUOTE, 1);
    FieldOfJoin(p, QUOTE, 2);
    FieldOfJoin(p, QUOTE, 3);
  }

  lemma OpenHasNoTagEnd()
    ensures GREATER !in AUTH_OPEN
  {
    hide Ascii;
    AsciiLacks("<auth xmlns='");
    AsciiLacks("urn:ietf:params:xml:ns:xmpp-sasl' mechanism='");
  }

  /** A SCRAM request is an element that contains the payload and nothing else; a DIGEST-MD5 request is empty. */
  lemma PayloadIsRead(m: Mechanism, payload: Bytes)
    requires m == SHA1 ==> LESS !in payload
    ensures var request := AuthStanza(m, payload);
            if m == SHA1 then
              Content(request) == payload && Behind(Behind(request, GREATER), LESS) == Ascii("/auth>")
            else
              Behind(request, GREATER) == [] && request[|request| - 2..] == Ascii("/>")
  {
    hide Ascii, Name;
    Quotes();
    OpenHasNoTagEnd();
    NameHasNoMark(m);
    var front := AUTH_OPEN + Ascii(Name(m)) + Ascii("'");
    if m == SHA1 {
      assert AuthStanza(m, payload) == front + [GREATER] + (payload + [LESS] + Ascii("/auth>"));
      SplitAtFirst(front, GREATER, payload + [LESS] + Ascii("/auth>"));
      SplitAtFirst(payload, LESS, Ascii("/auth>"));
    } else {
      assert AuthStanza(m, payload) == (front + [47]) + [GREATER] + [];
      SplitAtFirst(front + [47], GREATER, []);
    }
  }

  /** What a server gets out of a whole SCRAM request: element, encoding and message together. */
  lemma RequestIsRead(beyond: bv8, username: Bytes, nonce: Bytes)
    ensures var request := AuthStanza(SHA1, ScramPayload(username, nonce));
            ReadCredentials(RoundTrip.Decode(beyond, Content(request))) == Credentials(username, nonce)
            <==> COMMA !in username
  {
    hide AuthStanza, ScramPlain, Content, ReadCredentials, RoundTrip.Decode, Rfc4648.Encode;
    var plain := ScramPlain(username, nonce);
    EncoderShape.EncodeIsOneLine(plain);
    assert LESS !in Rfc4648.Encode(plain);
    PayloadIsRead(SHA1, ScramPayload(username, nonce));
    RoundTrip.MessageSurvivesOneLine(beyond, plain);
    CredentialsAreRead(username, nonce);
  }
}
