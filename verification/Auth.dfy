/**
 The stanzas the client sends while it logs in, the choice of a mechanism and the SCRAM first
 message (Libs/XMPP/sasl.cpp).
 */
module Auth {
  import opened Alphabet
  import Rfc4648
  import opened Reader
  import Encoder
  import EncoderShape
  import RoundTrip
  import Streams
  import opened StanzaParser

  // ---------- Mechanisms ----------

  datatype Mechanism = SHA1 | MD5 | NoMechanism

  /** `s_digest_map`. */
  function Name(m: Mechanism): string {
    match m
    case SHA1 => "SCRAM-SHA-1"
    case MD5 => "DIGEST-MD5"
    case NoMechanism => "PLAIN"
  }

  /** `SetAuthenticationMechanism`. */
  function Choose(offered: set<Bytes>): (m: Mechanism)
    ensures m == SHA1 <==> Ascii("SCRAM-SHA-1") in offered
    ensures m == MD5 <==> Ascii("SCRAM-SHA-1") !in offered && Ascii("DIGEST-MD5") in offered
  {
    if Ascii(Name(SHA1)) in offered then SHA1
    else if Ascii(Name(MD5)) in offered then MD5
    else NoMechanism
  }

  // ---------- The parsed features ----------

  /** A property tree: the text of an element and its named children. */
  datatype Tree = Tree(text: Bytes, children: seq<Child>)
  datatype Child = Child(name: Bytes, tree: Tree)

  const MECHANISM := Ascii("mechanism")

  /** The element at the end of a path of child positions, with its name. */
  function ElementAt(children: seq<Child>, path: seq<nat>): Option<Child>
    decreases |path|
  {
    if path == [] || path[0] >= |children| then None
    else if |path| == 1 then Some(children[path[0]])
    else ElementAt(children[path[0]].tree.children, path[1..])
  }

  /** `text` is the text of some element named `mechanism`, however deep. */
  ghost predicate IsOffered(children: seq<Child>, text: Bytes) {
    exists path :: IsOfferedAt(children, path, text)
  }

  predicate IsOfferedAt(children: seq<Child>, path: seq<nat>, text: Bytes) {
    match ElementAt(children, path)
    case None => false
    case Some(child) => child.name == Ascii("mechanism") && child.tree.text == text
  }

  /** The texts of all elements named `mechanism`. */
  function Mechanisms(children: seq<Child>): set<Bytes> {
    if children == [] then {}
    else
      (if children[0].name == MECHANISM then {children[0].tree.text} else {})
      + Mechanisms(children[0].tree.children)
      + Mechanisms(children[1..])
  }

  lemma {:induction false} OfferedIsCollected(children: seq<Child>, path: seq<nat>, text: Bytes)
    requires IsOfferedAt(children, path, text)
    ensures text in Mechanisms(children)
    decreases |path|, path[0]
  {
    if path[0] > 0 {
      var shorter := [path[0] - 1] + path[1..];
      assert shorter[1..] == path[1..];
      assert ElementAt(children, path) == ElementAt(children[1..], shorter);
      OfferedIsCollected(children[1..], shorter, text);
    } else if |path| > 1 {
      OfferedIsCollected(children[0].tree.children, path[1..], text);
    }
  }

  lemma {:induction false} CollectedIsOffered(children: seq<Child>, text: Bytes) returns (path: seq<nat>)
    requires text in Mechanisms(children)
    ensures IsOfferedAt(children, path, text)
    decreases children
  {
    var head, tail := children[0], children[1..];
    if head.name == MECHANISM && head.tree.text == text {
      path := [0];
    } else if text in Mechanisms(head.tree.children) {
      var inner := CollectedIsOffered(head.tree.children, text);
      path := [0] + inner;
      assert path[1..] == inner;
    } else {
      var later := CollectedIsOffered(tail, text);
      path := [later[0] + 1] + later[1..];
      assert path[1..] == later[1..];
    }
  }

  lemma MechanismsExactly(children: seq<Child>, text: Bytes)
    ensures text in Mechanisms(children) <==> IsOffered(children, text)
  {
    if text in Mechanisms(children) {
      var path := CollectedIsOffered(children, text);
    }
    if path :| IsOfferedAt(children, path, text) {
      OfferedIsCollected(children, path, text);
    }
  }

  lemma NoMechanisms()
    ensures Mechanisms([]) == {}
  {
  }

  lemma MechanismsFrom(children: seq<Child>, i: nat)
    requires i < |children|
    ensures Mechanisms(children[i..]) ==
            (if children[i].name == MECHANISM then {children[i].tree.text} else {})
            + Mechanisms(children[i].tree.children)
            + Mechanisms(children[i + 1..])
  {
    assert children[i..][0] == children[i] && children[i..][1..] == children[i + 1..];
  }

  /** `ParseAuthenticationMechanismsRecursive`: the set is passed in and handed back extended. */
  method CollectMechanisms(children: seq<Child>, offered: set<Bytes>) returns (result: set<Bytes>)
    ensures result == offered + Mechanisms(children)
    decreases children
  {
    hide Mechanisms;
    assert children[0..] == children;
    result := offered;
    for i := 0 to |children|
      invariant result + Mechanisms(children[i..]) == offered + Mechanisms(children)
    {
      MechanismsFrom(children, i);
      if children[i].name == MECHANISM {
        result := result + {children[i].tree.text};
      }
      result := CollectMechanisms(children[i].tree.children, result);
    }
    NoMechanisms();
    assert children[|children|..] == [];
  }

  // ---------- The stanzas sent ----------

  const XML_VERSION := Ascii("<?xml version='1.0'?>")
  const STREAM_OPEN :=
    Ascii("<stream:stream xmlns='jabber:client'") + Ascii(" xmlns:stream='")
    + Ascii("http://etherx.jabber.org/streams' to='")

  const HEADER_END := Ascii("' version='1.0'>")

  /** `initiation_stream`. */
  function InitiationStream(host: Bytes): Bytes {
    XML_VERSION + (STREAM_OPEN + host + HEADER_END)
  }

  const AUTH_OPEN := Ascii("<auth xmlns='") + Ascii("urn:ietf:params:xml:ns:xmpp-sasl' mechanism='")

  /** `InitiateAuthenticationStream`, with the payload that only SCRAM has. */
  function AuthStanza(m: Mechanism, payload: Bytes): Bytes {
    AUTH_OPEN + Ascii(Name(m)) + Ascii("'") + if m == SHA1 then Ascii(">") + payload + Ascii("</auth>") else Ascii("/>")
  }

  /** A stanza that asks for the mechanism `m`. */
  predicate AsksFor(stanza: Bytes, m: Mechanism) {
    AUTH_OPEN + Ascii(Name(m)) + Ascii("'") <= stanza
  }

  lemma AuthAsksForOne(m: Mechanism, payload: Bytes, k: Mechanism)
    ensures AsksFor(AuthStanza(m, payload), k) <==> m == k
  {
    var stanza := AuthStanza(m, payload);
    assert stanza[|AUTH_OPEN|] == Ascii(Name(m))[0];
    assert (AUTH_OPEN + Ascii(Name(k)) + Ascii("'"))[|AUTH_OPEN|] == Ascii(Name(k))[0];
    FirstLetter(m);
    FirstLetter(k);
  }

  lemma FirstLetter(m: Mechanism)
    ensures Ascii(Name(m))[0] == match m case SHA1 => 83 case MD5 => 68 case NoMechanism => 80
  {
    hide ByteOf;
    LetterBytes();
  }

  lemma LetterBytes()
    ensures ByteOf('S') == 83 && ByteOf('D') == 68 && ByteOf('P') == 80 && ByteOf('?') == 63 && ByteOf('a') == 97
    ensures ByteOf('n') == 110 && ByteOf(',') == 44
    ensures ByteOf('b') == 98 && ByteOf('i') == 105 && ByteOf('w') == 119 && ByteOf('s') == 115
  {
  }

  lemma InitiationAsksForNone(host: Bytes, k: Mechanism)
    ensures !AsksFor(InitiationStream(host), k)
  {
    SecondLetters();
    assert InitiationStream(host)[1] == XML_VERSION[1];
    assert (AUTH_OPEN + Ascii(Name(k)) + Ascii("'"))[1] == AUTH_OPEN[1];
  }

  lemma SecondLetters()
    ensures XML_VERSION[1] == 63 && AUTH_OPEN[1] == 97
  {
    hide ByteOf;
    LetterBytes();
    assert "<?xml version='1.0'?>"[1] == '?';
    assert AUTH_OPEN[1] == Ascii("<auth xmlns='")[1];
    assert "<auth xmlns='"[1] == 'a';
  }

  // ---------- SCRAM ----------

  /** The first message of section 7 of RFC 5802: the GS2 header, the user and a nonce. */
  function ScramPlain(username: Bytes, nonce: Bytes): Bytes {
    Ascii("n,,") + Ascii("n=") + username + Ascii(",r=") + nonce
  }

  function ScramPayload(username: Bytes, nonce: Bytes): Bytes {
    Rfc4648.Encode(ScramPlain(username, nonce))
  }

  const NONCE_LENGTH := 32

  lemma MessageText()
    ensures Ascii("n,,") == [110] + [COMMA] + ([] + [COMMA]) && Ascii("n=") == [110, 61]
    ensures Ascii(",r=") == [COMMA] + [114, 61] && Ascii("r=") == [114, 61] && Ascii("n") == [110]
  {
    hide ByteOf;
    Marks();
    LetterBytes();
    Letters();
  }

  lemma Letters()
    ensures ByteOf('r') == 114 && ByteOf('=') == 61
  {
  }

  /** The server reads the user and the nonce in the message exactly if the user has no comma in it. */
  lemma CredentialsAreRead(username: Bytes, nonce: Bytes)
    ensures ReadCredentials(ScramPlain(username, nonce)) == Credentials(username, nonce) <==> COMMA !in username
  {
    hide Ascii, UpTo, Behind;
    MessageText();
    var name, last := [110, 61] + username, [114, 61] + nonce;
    var rest := name + [COMMA] + last;
    assert ScramPlain(username, nonce) == [110] + [COMMA] + ([] + [COMMA] + rest);
    FieldStep([110], COMMA, [] + [COMMA] + rest, 1);
    FieldStep([], COMMA, rest, 0);
    SplitAtFirst([110], COMMA, [] + [COMMA] + rest);
    SplitAtFirst([], COMMA, rest);
    UpToAll(rest, COMMA);
    if COMMA !in username {
      SplitAtFirst(name, COMMA, last);
    }
  }

  /** `SHA1AuthenticationPayload`, for a given nonce. */
  method Sha1AuthenticationPayload(encoder: Streams.StreamEncoder, username: Bytes, nonce: Bytes)
    returns (payload: Bytes)
    requires 2 <= encoder.buffersize
    modifies encoder.state
    ensures payload == ScramPayload(username, nonce)
    ensures forall beyond ::
              ReadCredentials(RoundTrip.Decode(beyond, payload)) == Credentials(username, nonce) <==> COMMA !in username
  {
    hide ScramPlain, RoundTrip.Decode, Rfc4648.Encode, ReadCredentials;
    CredentialsAreRead(username, nonce);
    forall beyond {
      RoundTrip.MessageSurvivesOneLine(beyond, ScramPlain(username, nonce));
    }
    payload := Streams.EncodeBase64(encoder, ScramPlain(username, nonce));
  }

  lemma HeaderBytes()
    ensures Ascii("n,,") == [110, 44, 44]
  {
    hide ByteOf;
    LetterBytes();
  }

  lemma HeaderText()
    ensures Ascii("biws") == [98, 105, 119, 115]
  {
    hide ByteOf;
    LetterBytes();
  }

  lemma HeaderSextets()
    ensures var x: bv8, y: bv8 := 110, 44;
            && EncodingAt(x >> 2) == 98
            && EncodingAt(((x & 0x03) << 4) + (y >> 4)) == 105
            && EncodingAt(((y & 0x0f) << 2) + (y >> 6)) == 119
            && EncodingAt(y & 0x3f) == 115
  {
  }

  lemma HeaderEncodes()
    ensures Rfc4648.Encode(Ascii("n,,")) == Ascii("biws")
  {
    hide *;
    HeaderBytes();
    HeaderText();
    HeaderSextets();
    Encoder.EncodeGroup(110, 44, 44);
  }

  /** The server recovers the message, and recognises its header without decoding. */
  lemma ScramFirstMessage(beyond: bv8, username: Bytes, nonce: Bytes)
    requires |nonce| == NONCE_LENGTH
    ensures var payload := ScramPayload(username, nonce);
            && RoundTrip.Decode(beyond, payload) == ScramPlain(username, nonce)
            && (ReadCredentials(RoundTrip.Decode(beyond, payload)) == Credentials(username, nonce)
                <==> COMMA !in username)
            && Ascii("biws") <= payload
            && |payload| == 4 * ((40 + |username| + 2) / 3)
            && (forall c <- payload :: IsSymbol(c) || c == PAD)
  {
    hide Rfc4648.Encode, RoundTrip.Decode, ReadCredentials;
    CredentialsAreRead(username, nonce);
    var plain := ScramPlain(username, nonce);
    var header, rest := Ascii("n,,"), Ascii("n=") + username + Ascii(",r=") + nonce;
    assert plain == header + rest;
    Rfc4648.EncodeConcat(header, rest);
    HeaderEncodes();
    RoundTrip.MessageSurvivesOneLine(beyond, plain);
    Rfc4648.EncodeLength(plain);
    EncoderShape.EncodeIsOneLine(plain);
  }
}
