/**
 The client as objects that change their fields: `TCPSocket`, `XMPPClient` with its base
 `TCPClient`, and `SASL`. Every handler is proved to take the step of the same name of Login.dfy.

 The operating system appears as the handlers' arguments: whether the operation failed and, for a
 read, the bytes that have landed. A nonce is drawn by whoever calls the handler.
 */
module XmppClient {
  import opened Alphabet
  import opened StanzaParser
  import opened Auth
  import Streams
  import L = Login

  class TCPSocket {
    var is_connected: bool
    var owner: XMPPClient?

    // Operations started and not yet completed, and everything written.
    var connecting: nat
    var armed: nat
    var sent: seq<Bytes>

    constructor ()
      ensures !is_connected && connecting == 0 && armed == 0 && sent == []
    {
      is_connected := false;
      owner := null;
      connecting, armed, sent := 0, 0, [];
    }

    method Connect()
      modifies `connecting
      ensures connecting == old(connecting) + 1
    {
      connecting := connecting + 1;
    }

    method Close()
      modifies `is_connected
      ensures !is_connected
    {
      is_connected := false;
    }

    method Write(data: Bytes)
      modifies `sent, `armed
      ensures sent == if is_connected then old(sent) + [data] else old(sent)
      ensures armed == if is_connected then old(armed) + 1 else old(armed)
    {
      if !is_connected {
        return;
      }
      sent := sent + [data];
      Read();
    }

    method Read()
      modifies `armed
      ensures armed == if is_connected then old(armed) + 1 else old(armed)
    {
      if !is_connected {
        return;
      }
      armed := armed + 1;
    }

    /** The completion of `Connect`. */
    method OnConnect(failed: bool, nonce: Bytes)
      requires owner != null && owner.Valid() && owner.socket == this
      requires connecting > 0 && |nonce| == NONCE_LENGTH
      modifies owner.Repr()
      ensures owner == old(owner) && owner.Valid()
      ensures owner.State() == L.Step(owner.cfg, old(owner.State()), L.Connected(failed, nonce))
    {
      hide L.UpdateWith;
      connecting := connecting - 1;
      is_connected := true;
      owner.ConnectHandler(failed, nonce);
    }

    /** The completion of a read. It is armed again after the handler, even if that closed the socket. */
    method OnRead(failed: bool, bytes: Bytes, nonce: Bytes)
      requires owner != null && owner.Valid() && owner.socket == this
      requires armed > 0 && |nonce| == NONCE_LENGTH
      modifies owner.Repr()
      ensures owner == old(owner) && owner.Valid()
      ensures owner.State() == L.Step(owner.cfg, old(owner.State()), L.Received(failed, bytes, nonce))
    {
      hide L.UpdateWith;
      armed := armed - 1;
      if is_connected {
        owner.ReadHandler(failed, bytes, nonce);
        armed := armed + 1;
      } else {
        owner.dropped := owner.dropped + 1;
      }
    }
  }

  /** `XMPPClient`, with the members it inherits from `TCPClient`. */
  class XMPPClient {
    const cfg: L.Config
    const socket: TCPSocket
    const sasl: SASL
    var buffer: Bytes
    var resolving: nat

    // The log of Login.dfy, apart from what the socket has sent.
    ghost var fed: seq<Bytes>
    ghost var cuts: seq<Cut>
    ghost var attempts: nat
    ghost var requests: nat
    ghost var disconnects: nat
    var dropped: nat

    ghost predicate Valid()
      reads this, socket, sasl
    {
      && socket.owner == this && sasl.client == this
      && 2 <= sasl.encoder.buffersize && 4 <= sasl.decoder.buffersize
    }

    ghost function Repr(): set<object> {
      {this, socket, sasl, sasl.encoder.state, sasl.decoder.state}
    }

    ghost function State(): L.Client
      reads this, socket, sasl
    {
      L.Client(socket.is_connected, resolving, socket.connecting, socket.armed, Parser(sasl.transaction_state, buffer),
               L.Log(socket.sent, fed, cuts, attempts, requests, disconnects, dropped))
    }

    constructor (cfg: L.Config, beyond: bv8)
      ensures Valid() && State() == L.START && this.cfg == cfg
    {
      this.cfg := cfg;
      socket := new TCPSocket();
      sasl := new SASL(beyond);
      buffer, resolving := [], 0;
      fed, cuts, attempts, requests, disconnects, dropped := [], [], 0, 0, 0, 0;
      new;
      socket.owner := this;
      sasl.client := this;
    }

    // ---------- TCPClient ----------

    method Connect()
      requires Valid()
      modifies this
      ensures Valid() && State() == L.Step(cfg, old(State()), L.Connect)
    {
      resolving := resolving + 1;
      attempts := attempts + 1;
    }

    method Disconnect()
      requires Valid()
      modifies socket, `disconnects
      ensures Valid() && State() == L.Disconnect(old(State()))
      ensures socket.owner == old(socket.owner)
    {
      socket.Close();
      OnDisconnect();
    }

    method OnDisconnect()
      modifies `disconnects
      ensures disconnects == old(disconnects) + 1
    {
      disconnects := disconnects + 1;
    }

    /** `Disconnect`, called from outside. */
    method Close()
      requires Valid()
      modifies this, socket
      ensures Valid() && State() == L.Step(cfg, old(State()), L.Close)
    {
      Disconnect();
      requests := requests + 1;
    }

    method ErrorHandler()
      requires Valid()
      modifies socket, `disconnects
      ensures Valid() && State() == L.Disconnect(old(State()))
      ensures socket.owner == old(socket.owner)
    {
      Disconnect();
    }

    method Write(data: Bytes)
      requires Valid()
      modifies socket
      ensures Valid() && State() == L.Write(old(State()), data)
      ensures socket.owner == old(socket.owner)
    {
      if socket.is_connected {
        socket.Write(data);
      }
    }

    /** The completion of `Connect`'s name resolution. */
    method ResolveHostHandler(failed: bool)
      requires Valid() && resolving > 0
      modifies this, socket
      ensures Valid() && State() == L.Step(cfg, old(State()), L.Resolved(failed))
    {
      resolving := resolving - 1;
      if failed {
        ErrorHandler();
        return;
      }
      socket.Connect();
    }

    method ConnectHandler(failed: bool, nonce: Bytes)
      requires Valid() && |nonce| == NONCE_LENGTH && socket.is_connected
      modifies Repr()
      ensures Valid()
      ensures State() == if failed then L.Disconnect(old(State())) else L.UpdateWith(cfg, old(State()), [], nonce)
    {
      if failed {
        ErrorHandler();
        return;
      }
      OnConnect(nonce);
    }

    method ReadHandler(failed: bool, bytes: Bytes, nonce: Bytes)
      requires Valid() && |nonce| == NONCE_LENGTH && socket.is_connected
      modifies Repr()
      ensures Valid()
      ensures State() == if failed then L.Disconnect(old(State())) else L.UpdateWith(cfg, old(State()), bytes, nonce)
    {
      if failed {
        ErrorHandler();
        return;
      }
      OnRead(bytes, nonce);
    }

    // ---------- XMPPClient ----------

    method OnConnect(nonce: Bytes)
      requires Valid() && |nonce| == NONCE_LENGTH
      modifies Repr()
      ensures Valid() && State() == L.UpdateWith(cfg, old(State()), [], nonce)
    {
      fed := fed + [[]];
      assert buffer + [] == buffer;
      sasl.Update(nonce);
    }

    method OnRead(bytes: Bytes, nonce: Bytes)
      requires Valid() && |nonce| == NONCE_LENGTH
      modifies Repr()
      ensures Valid() && State() == L.UpdateWith(cfg, old(State()), bytes, nonce)
    {
      buffer := buffer + bytes;
      fed := fed + [bytes];
      sasl.Update(nonce);
    }
  }

  class SASL {
    var client: XMPPClient?
    var transaction_state: Phase
    const encoder: Streams.StreamEncoder
    const decoder: Streams.StreamDecoder

    constructor (beyond: bv8)
      ensures transaction_state == InitializeStream
      ensures encoder.buffersize == decoder.buffersize == Streams.BUFFERSIZE
    {
      client := null;
      transaction_state := InitializeStream;
      encoder := new Streams.StreamEncoder(Streams.BUFFERSIZE);
      decoder := new Streams.StreamDecoder(beyond, Streams.BUFFERSIZE);
    }

    /** The object is wired into its client. */
    ghost predicate Ready()
      reads this, client, if client == null then {} else {client.socket, client.sasl}
    {
      client != null && client.sasl == this && client.Valid()
    }

    method Update(nonce: Bytes)
      requires Ready() && |nonce| == NONCE_LENGTH
      modifies client.Repr()
      ensures client == old(client) && Ready()
      ensures client.State() == L.Updated(client.cfg, old(client.State()), nonce)
    {
      match transaction_state
      case InitializeStream => HandleInitializeStream();
      case SelectMechanism => HandleSelectAuthenticationMechanism(nonce);
      case DecodeChallenge => HandleDecodeBase64Challenge();
    }

    method HandleInitializeStream()
      requires Ready() && transaction_state == InitializeStream
      modifies client.Repr()
      ensures client == old(client) && Ready()
      ensures forall nonce :: client.State() == L.Updated(client.cfg, old(client.State()), nonce)
    {
      client.Write(InitiationStream(client.cfg.host));
      transaction_state := SelectMechanism;
    }

    method HandleSelectAuthenticationMechanism(nonce: Bytes)
      requires Ready() && transaction_state == SelectMechanism && |nonce| == NONCE_LENGTH
      modifies client.Repr()
      ensures client == old(client) && Ready()
      ensures client.State() == L.Updated(client.cfg, old(client.State()), nonce)
    {
      hide StanzaParser.ExtractXML, Mechanisms, Choose, AuthStanza, L.Updated, Find, ScramPayload;
      L.UpdatedBySelection(client.cfg, client.State(), nonce);
      var response := ExtractXML(FEATURES_START, FEATURES_END);
      if response == [] {
        return;
      }
      var offered := CollectMechanisms(client.cfg.parse(response), {});
      var mechanism := Choose(offered);
      if mechanism == NoMechanism {
        client.Disconnect();
      }
      transaction_state := DecodeChallenge;
      var payload: Bytes := [];
      if mechanism == SHA1 {
        payload := Sha1AuthenticationPayload(encoder, client.cfg.username, nonce);
      }
      client.Write(AuthStanza(mechanism, payload));
    }

    /** The challenge is decoded and then forgotten. */
    method HandleDecodeBase64Challenge()
      requires Ready() && transaction_state == DecodeChallenge
      modifies client.Repr()
      ensures client == old(client) && Ready()
      ensures forall nonce :: client.State() == L.Updated(client.cfg, old(client.State()), nonce)
    {
      hide StanzaParser.ExtractXML, L.Updated, Find;
      forall nonce {
        L.UpdatedByChallenge(client.cfg, client.State(), nonce);
      }
      var response := ExtractXML(CHALLENGE_START, CHALLENGE_END);
      if response == [] {
        return;
      }
      var elements := client.cfg.parse(response);
      if elements != [] {
        var decoded := Streams.DecodeBase64(decoder, elements[0].tree.text);
      }
    }

    /** Cuts at most one stanza out of the client's buffer. */
    method ExtractXML(startTag: Bytes, endTag: Bytes) returns (response: Bytes)
      requires Ready()
      modifies client`buffer, client`cuts
      ensures client == old(client) && Ready() && transaction_state == old(transaction_state)
      ensures match StanzaParser.ExtractXML(old(client.buffer), startTag, endTag)
              case None => response == [] && client.buffer == old(client.buffer) && client.cuts == old(client.cuts)
              case Some(x) =>
                response == x.cut.stanza && client.buffer == x.rest && client.cuts == old(client.cuts) + [x.cut]
    {
      var found_start := Find(client.buffer, startTag);
      if found_start == None {
        return [];
      }
      var found_end := Find(client.buffer, endTag);
      if found_end == None {
        return [];
      }
      var bytes_to_extract := SizeDifference(found_end.value + |endTag|, found_start.value);
      response := Substr(client.buffer, found_start.value, bytes_to_extract);
      client.cuts := client.cuts + [Cut(client.buffer[..found_start.value], response)];
      client.buffer := client.buffer[found_end.value + |endTag|..];
    }
  }
}
