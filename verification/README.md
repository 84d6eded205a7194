# Verification of the Base64 codec, the XMPP login and event dispatch

This project models, in Dafny, the parts of the repository that keep state between calls, and proves
what they compute over whole runs:

- the two Base64 coroutines of libb64 (`cencode.c`, `cdecode.c`), which resume in the middle of a
  24-bit group, carry bits from call to call and break lines; the stream wrappers (`encode.h`,
  `decode.h`) that cut a stream into buffers; and `SASL::EncodeBase64` / `SASL::DecodeBase64`;
- the XMPP login: bytes arrive in arbitrary pieces, `ExtractXML` cuts stanzas out of a buffer, a
  three-state machine answers, and `TCPSocket` and `TCPClient` gate every write, read and disconnect
  on one flag. It is a state machine over the completions of asynchronous operations;
- event dispatch by priority (`Window::NotifyHandlers`), which erases expired handlers while it
  iterates and whose callbacks may bind and release handlers;
- the demo server's queued answers.

`dafny verify dfyconfig.toml` checks everything.

## How it is laid out

| file | content |
|---|---|
| Alphabet.dfy | the two symbol tables |
| Blocks.dfy | byte strings in pieces |
| Rfc4648.dfy | the encoding as section 4 of RFC 4648 words it, over 24-bit groups; no coroutine in sight |
| Encoder.dfy, Decoder.dfy | the coroutines: a description one byte (6-bit value) at a time, its agreement with the RFC text, and the program as methods over arrays |
| EncoderShape.dfy, DecoderShape.dfy | lengths, exact buffer sizes, line breaks, ignored characters |
| RoundTrip.dfy | independence of block boundaries, both round trips |
| Streams.dfy | the stream wrappers and the two string functions |
| StanzaParser.dfy, Chunking.dfy | `ExtractXML`, the buffer and the three states; which byte streams are cut alike however they arrive |
| Reader.dfy | values in quotes, contents of elements and fields between commas, as a server reads them |
| Auth.dfy | mechanisms, stanzas, the SCRAM first message |
| ServerView.dfy | what a server reads in the stanzas the client sends |
| Login.dfy | the login as a state machine, and its runs |
| XmppClient.dfy | `TCPSocket`, `XMPPClient` (with `TCPClient`) and `SASL` as classes whose handlers take the steps of Login.dfy |
| HandlerMap.dfy, Notification.dfy, Turns.dfy, Dispatch.dfy | the multimap, one notification step by step, whose turn it is, whole runs and the window |
| Server.dfy | the server's connections |

A C `char` is a `bv8`. Where C writes `|=`, the methods do too; the one-at-a-time description adds, and
the invariants on the carried bits (`State.Valid`) make the two equal. A switch into the middle of an
endless loop is a loop over a step variable.

## What differs from the documentation

- The guard at cdecode.c:15 compares with `>` where the table ends at `>=`, so the character `{` (123)
  reads the byte behind the table. That byte is a parameter, `beyond`, of everything that decodes.
  Characters outside the alphabet are proved to be ignored exactly for texts without `{` and where that
  byte is negative (`InsensitiveExactly`); the round trips hold for every `beyond`.
- A message whose length is a multiple of 54 bytes, other than 0, ends in an empty line: the line is
  broken after its last group and once more at the end (`EmptyLastLine`).
- `ExtractXML` searches both tags from the front. If the end tag ends before the start tag begins, the
  unsigned subtraction wraps around, the stanza runs to the end of the buffer and its bytes are
  returned again later. Bytes are conserved exactly when this does not happen (`ExtractionConserves`,
  `BytesConserved`). The stanzas do not depend on the boundaries of reads exactly when it does not
  happen, or only for a start tag at the very end of the stream (`ChunkIndependenceExactly`).
  `OvertakenInput` and `OvertakenStream` are concrete cases in which it does.
- When no supported mechanism is offered the handler disconnects and falls through to the write of a
  PLAIN request. The write is stopped by the connected flag (`SafeLogin`).
- Only the first connection opens a stream (`ConnectionOpensStream`). A later one sends something and arms a
  read exactly if no mechanism has been chosen yet and features with a supported one are in the buffer
  (`ConnectionArmsRead`). `StuckExactly` says when a client without an outstanding read never sends or reads
  again, however often it connects; `LostEarlyIsStuck` is a run that ends so before a mechanism is chosen.
- The host and the user name are written as they are. A server reads the host exactly if it contains no
  quote (`HostIsRead`), and user and nonce exactly if the user name contains no comma
  (`CredentialsAreRead`), which section 5.1 of RFC 5802 asks to escape.
- Handlers are documented to be unbound when their lifetime expires. They stay in the map until the next
  notification reaches them; `RemovalIsInvisible` shows that no caller can tell. A handler bound twice is
  called twice for one event, unless a callback binds or releases it meanwhile (`CalledOncePerBinding`).
- The comment in tcp_server.cpp speaks of a single connection; the code accepts one after the other.
  The comment in tcp_server_connection.cpp speaks of several messages at a time; every read is answered
  by one.

## Model

| member | source | states |
|---|---|---|
| Alphabet.DecodeInvertsEncode | ThirdParty/libb64-1.2/src/cencode.c:19-24 | every 6-bit value is written as a character of the alphabet that decodes to it, whatever byte stands behind the table |
| Alphabet.EncodeInvertsDecode | ThirdParty/libb64-1.2/src/cdecode.c:10-17 | every character of the alphabet decodes to a 6-bit value that is written as it |
| Alphabet.DecodedCharacters | ThirdParty/libb64-1.2/src/cdecode.c:13-16 | exactly the alphabet decodes to a non-negative value, and `{` too when the byte behind the table is not negative; `{` decodes to that byte |
| Alphabet.DecodingTableLow | ThirdParty/libb64-1.2/src/cdecode.c:12 | the first forty entries of the table, with -1 as 255 and -2 as 254 |
| Alphabet.DecodingTableHigh | ThirdParty/libb64-1.2/src/cdecode.c:12 | the last forty entries of the table |
| Rfc4648.UnpackInvertsPack | ThirdParty/libb64-1.2/src/cdecode.c:31-84 | reading the 6-bit values of any byte string as 24-bit groups gives the bytes back, tail groups included |
| Rfc4648.EncodeConcat | Libs/XMPP/sasl.cpp:89-96 | a prefix of a whole number of 3-byte groups encodes to a prefix |
| Rfc4648.Examples | Libs/XMPP/sasl.cpp:89-96 | the examples of section 10 of RFC 4648 |
| Rfc4648.EncodeLength | ThirdParty/libb64-1.2/src/cencode.c:26-108 | n bytes take 4*ceil(n/3) characters on one line |
| Encoder.RunConcat | ThirdParty/libb64-1.2/src/cencode.c:34-82 | from any valid state, encoding xs and then ys writes the same characters and ends in the same state as encoding xs + ys |
| Encoder.WrittenIsText | ThirdParty/libb64-1.2/src/cencode.c:26-108 | a whole message and the closing call write, for every message, the RFC 4648 encoding of each 54 bytes followed by a line break, then that of the rest and a line break |
| Encoder.EncodeState.Init | ThirdParty/libb64-1.2/src/cencode.c:12-17 | the state becomes the initial one |
| Encoder.LabelA | ThirdParty/libb64-1.2/src/cencode.c:47-50 | the first byte of a group: one character, two bits carried, no other character of the buffer touched |
| Encoder.LabelB | ThirdParty/libb64-1.2/src/cencode.c:58-61 | the second byte: one character that joins the carried bits, four bits carried |
| Encoder.LabelC | ThirdParty/libb64-1.2/src/cencode.c:69-80 | the third byte: two characters, and a line break with the count reset when the line is full |
| Encoder.EncodeBlock | ThirdParty/libb64-1.2/src/cencode.c:26-85 | in the given buffer, writes exactly the characters described by `Written`, leaves the rest of the buffer alone and saves the state to resume from; needs no more room than it fills |
| Encoder.EncodeBlockEnd | ThirdParty/libb64-1.2/src/cencode.c:87-108 | writes the carried value with its padding, and a line break |
| EncoderShape.WrittenLength | ThirdParty/libb64-1.2/src/cencode.c:75-80 | the exact number of characters of any call at any position of a line, and the position afterwards |
| EncoderShape.FitsExactly | ThirdParty/libb64-1.2/include/b64/encode.h:48-65 | a code buffer of 2N characters holds every block of up to N bytes and every ending, at every reachable point of a stream, if and only if N >= 2 |
| EncoderShape.TextLength | ThirdParty/libb64-1.2/src/cencode.c:75-108 | n bytes give 4*ceil(n/3) + floor(n/54) + 1 characters |
| EncoderShape.LineBreaks | ThirdParty/libb64-1.2/src/cencode.c:10-80 | a character of a text is a line break exactly at every 73rd position and at the end: each line but the last has 72 characters, the last at most 72 |
| EncoderShape.EmptyLastLine | ThirdParty/libb64-1.2/src/cencode.c:75-108 | the text of a message that is not empty ends in an empty line exactly if its length is a multiple of 54 |
| EncoderShape.EncodeIsOneLine | Libs/XMPP/sasl.cpp:93-95 | an encoding holds nothing but the alphabet and `=` |
| Decoder.RunConcat | ThirdParty/libb64-1.2/src/cdecode.c:31-84 | from any valid state, decoding in two calls writes the same bytes and ends in the same state as decoding in one, where the dead carry of step a is not part of the state |
| Decoder.WrittenIsUnpack | ThirdParty/libb64-1.2/src/cdecode.c:31-84 | from the initial state the coroutine writes exactly the whole bytes of the 24-bit groups of the values it reads |
| Decoder.DecodeState.Init | ThirdParty/libb64-1.2/src/cdecode.c:19-23 | the state becomes the initial one |
| Decoder.LabelA | ThirdParty/libb64-1.2/src/cdecode.c:47 | the first value of a group is carried, nothing is written |
| Decoder.LabelB | ThirdParty/libb64-1.2/src/cdecode.c:58-59 | the second value completes a byte and carries four bits |
| Decoder.LabelC | ThirdParty/libb64-1.2/src/cdecode.c:70-71 | the third value completes a byte and carries two bits |
| Decoder.LabelD | ThirdParty/libb64-1.2/src/cdecode.c:82 | the fourth value completes a byte and carries nothing |
| Decoder.DecodeBlock | ThirdParty/libb64-1.2/src/cdecode.c:25-87 | writes exactly the bytes completed by the characters read, skipping those without a value, saves the state to resume from and touches one byte beyond what it writes and no other |
| DecoderShape.WrittenLength | ThirdParty/libb64-1.2/src/cdecode.c:31-84 | the exact number of bytes of any call from any state, and the step afterwards |
| DecoderShape.FitsExactly | ThirdParty/libb64-1.2/include/b64/decode.h:43-56 | decoding up to N characters at any reachable point stays, with the carried byte, inside a buffer of N bytes if and only if N >= 4 |
| DecoderShape.InsensitiveExactly | ThirdParty/libb64-1.2/src/cdecode.c:10-84 | from any state and for any one byte behind the table, a text is decoded like the text without its characters outside the alphabet if and only if it holds no `{` or that byte is negative |
| DecoderShape.InsensitiveAnywhere | ThirdParty/libb64-1.2/src/cdecode.c:10-17 | the same for every byte behind the table at once: if and only if the text holds no `{` |
| DecoderShape.DecodedLength | ThirdParty/libb64-1.2/src/cdecode.c:38-82 | a message with k characters that carry a value decodes to floor(3k/4) bytes, and those are the characters of the alphabet when there is no `{` |
| RoundTrip.EncodeAnyBlocks | ThirdParty/libb64-1.2/src/cencode.c:26-108 | any division of a message into encoding calls writes what one call and the closing call write |
| RoundTrip.DecodeAnyBlocks | ThirdParty/libb64-1.2/src/cdecode.c:25-87 | any division of a text into decoding calls writes what one call writes |
| RoundTrip.MessageSurvives | ThirdParty/libb64-1.2/src/cdecode.c:25-87 | encode a message in any blocks, cut the text anywhere, decode the pieces: the message comes back |
| RoundTrip.TextDecodes | ThirdParty/libb64-1.2/include/b64/decode.h:39-62 | the text of a message, line breaks and padding included, decodes to the message |
| RoundTrip.TextSurvivesExactly | Libs/XMPP/sasl.cpp:89-103 | encoding what a text decodes to gives the text back if and only if it is canonical: groups of four, alphabet, proper padding, zero fill bits |
| RoundTrip.EncodeIsBijective | Libs/XMPP/sasl.cpp:89-96 | no two messages have the same encoding, and the encodings are exactly the canonical texts |
| Streams.InStream.Read | ThirdParty/libb64-1.2/include/b64/decode.h:51-56 | hands over the next characters, at most n, and a short read ends the stream |
| Streams.StreamEncoder.Encode | ThirdParty/libb64-1.2/include/b64/encode.h:44-71 | for every buffer size from 2 on, the loop ends and appends to the output the text of everything the input still holds |
| Streams.StreamDecoder.Decode | ThirdParty/libb64-1.2/include/b64/decode.h:39-62 | for every buffer size from 4 on, the loop ends and appends to the output what everything the input still holds decodes to |
| Streams.TextWithoutNewlines | Libs/XMPP/sasl.cpp:93-95 | a text without its line breaks is the RFC 4648 encoding of the message as one line |
| Streams.EraseNewlines | Libs/XMPP/sasl.cpp:93-94 | keeps every character as often as it stands there, in order, but the line breaks |
| Streams.EncodeBase64 | Libs/XMPP/sasl.cpp:89-96 | returns the RFC 4648 encoding of the input as one line |
| Streams.DecodeBase64 | Libs/XMPP/sasl.cpp:98-103 | returns what the input decodes to |
| StanzaParser.ExtractionExactly | Libs/XMPP/sasl.cpp:131-139 | something is cut if and only if both tags stand somewhere in the buffer, whatever stands in front of them |
| StanzaParser.ExtractionAt | Libs/XMPP/sasl.cpp:129-145 | skipped bytes, stanza and rest, by the positions at which the tags stand first: the stanza runs from the start tag to the end of the end tag, or of the buffer when that is in front |
| StanzaParser.ExtractionConserves | Libs/XMPP/sasl.cpp:129-145 | skipped bytes, stanza and rest are together the buffer if and only if the first end tag does not end before the first start tag begins; otherwise bytes are duplicated |
| StanzaParser.StanzaIsDelimited | Libs/XMPP/sasl.cpp:141-142 | a stanza whose start tag stands before its end tag begins with the one and ends with the other |
| StanzaParser.ExtractionStable | Libs/XMPP/sasl.cpp:129-145 | when the tags are in order, bytes that arrive later do not change the stanza found, they only lengthen the rest |
| StanzaParser.BytesConserved | Libs/XMPP/xmpp_client.cpp:24-29 | over any chunks, the skipped bytes, stanzas and buffer are the bytes received, in order, if and only if every call found its tags in order |
| Chunking.FirstCut | Libs/XMPP/xmpp_client.cpp:24-29 | in whatever chunks the bytes arrive, the first cut is at the first tags, if the start tag stands in front |
| Chunking.ChunkIndependence | Libs/XMPP/xmpp_client.cpp:24-29 | from any state, the same bytes in two different divisions into reads give stanza sequences of which one is a prefix of the other, when the tags are in order |
| Chunking.ChunkIndependenceExactly | Libs/XMPP/sasl.cpp:129-145 | from an empty buffer, all divisions of a byte stream into reads of at least one byte agree in this way if and only if, all through the stream, no awaited end tag ends before its start tag begins, unless that start tag is the end of the stream; the same with updates without a byte in between, as reconnects make them |
| Chunking.RunKeepsExpected | Libs/XMPP/sasl.cpp:129-145 | what a run has found, followed by what is still to be found in its buffer, is what is to be found in all its bytes |
| Chunking.OvertakenStream | Libs/XMPP/sasl.cpp:136-143 | a concrete byte stream that is not in order |
| StanzaParser.OvertakenInput | Libs/XMPP/sasl.cpp:136-143 | a concrete buffer with the end tag in front, whose pieces are not the buffer and whose stanza changes with whatever byte arrives next |
| Auth.Choose | Libs/XMPP/sasl.cpp:60-68 | SCRAM-SHA-1 exactly when offered, DIGEST-MD5 exactly when offered without it |
| Auth.MechanismsExactly | Libs/XMPP/sasl.cpp:161-170 | the collected texts are exactly those of the elements named `mechanism` at the end of some path into the tree |
| Auth.CollectMechanisms | Libs/XMPP/sasl.cpp:161-170 | the recursive collection adds exactly those texts to the set it is given |
| Auth.AuthAsksForOne | Libs/XMPP/sasl.cpp:193-205 | an authentication request names its own mechanism and no other |
| Auth.InitiationAsksForNone | Libs/XMPP/sasl.cpp:178-183 | the stream header is no authentication request, for any host |
| Auth.Sha1AuthenticationPayload | Libs/XMPP/sasl.cpp:185-191 | the encoding of the GS2 header, the user name and the nonce: a server reads these two in it exactly if no comma is in the user name |
| Auth.ScramFirstMessage | Libs/XMPP/sasl.cpp:185-191 | for every user name and 32-character nonce the payload begins with `biws`, has 4*ceil((40+n)/3) characters for a user name of n bytes, contains no line break and decodes to a message in which user name and nonce are read, exactly if no comma is in the user name |
| Auth.CredentialsAreRead | Libs/XMPP/sasl.cpp:185-191 | a reader that takes the message apart at its commas finds the user name and the nonce, exactly if no comma is in the user name |
| ServerView.HostIsRead | Libs/XMPP/sasl.cpp:172-183 | the quoted values of the stream header are the namespaces and, exactly if it contains no quote, the host |
| ServerView.MechanismIsRead | Libs/XMPP/sasl.cpp:193-195 | the quoted values of a request are the SASL namespace and the name of the mechanism |
| ServerView.PayloadIsRead | Libs/XMPP/sasl.cpp:196-204 | a SCRAM request is an element with the payload as its content, a DIGEST-MD5 request an empty element |
| ServerView.RequestIsRead | Libs/XMPP/sasl.cpp:185-201 | the content of a SCRAM request decodes to a message in which user name and nonce are read, exactly if no comma is in the user name |
| Login.SafeLogin | Libs/XMPP/sasl.cpp:38-68 | over every run, with any number of reconnects, the stanzas sent are at most the stream header and one request; once features have been read the request is sent exactly if a supported mechanism is offered, and names SCRAM-SHA-1 if that is offered, else DIGEST-MD5; PLAIN is never sent |
| Login.RunFeeds | Libs/XMPP/xmpp_client.cpp:24-29 | over every run, the bytes appended to the buffer are those of the read events that did not fail and found a connection, in order; dropped reads are as many as read events without a connection, attempts and explicit disconnects together as many as such events |
| Login.FeaturesAnswered | Libs/XMPP/sasl.cpp:43-58 | in every run whose reads have delivered features, behind whatever bytes and in whatever pieces, they are the first stanza and a request has been sent, for the better mechanism, exactly if a supported one is among them |
| Login.NoFeaturesNoRequest | Libs/XMPP/sasl.cpp:43-47 | as long as one of the tags has not been delivered, no request is sent |
| Login.OneRead | Libs/Networking/tcp_client.cpp:26-82 | one connect and one read deliver any bytes |
| Login.ChallengeIsCut | Libs/XMPP/sasl.cpp:70-80 | once a challenge is awaited, a read that completes one takes it out of the buffer, sends nothing and re-arms |
| Login.ServerReads | Libs/XMPP/sasl.cpp:178-205 | over every run, a server reads its host in the header exactly if it contains no quote, the best mechanism offered, and in a SCRAM request the user name and the nonce drawn in one of the events, exactly if no comma is in the user name |
| Login.ReportsDisconnect | Libs/Networking/tcp_client.cpp:44-82 | exactly which events call `OnDisconnect`, and that they do so once |
| Login.ReadsBounded | Libs/Networking/tcp_socket.cpp:46-82 | over every run, the reads outstanding are the stanzas sent less the read events without a connection, so at most two |
| Login.DisconnectsBounded | Libs/Networking/tcp_client.cpp:44-82 | over every run, overlapping attempts included, `OnDisconnect` is called at most as often as there are events of connecting and explicit disconnecting |
| Login.DisconnectedIsQuiet | Libs/Networking/tcp_socket.cpp:39-57 | until a connect succeeds, a client without a connection stays so, writes and is fed nothing, and every completed read leaves one less outstanding |
| Login.LosesConnection | Libs/Networking/tcp_client.cpp:44-82 | after any event there is a connection exactly if a connect succeeded or there was one, the event is no explicit disconnect and no failure, and it does not find features without a supported mechanism, be they read now or left in the buffer |
| Login.CloseInsideCallback | Libs/Networking/tcp_socket.cpp:46-57 | the read handler that loses the connection re-arms its own read once and sends nothing |
| Login.ConnectionOpensStream | Libs/XMPP/sasl.cpp:38-41 | a new connection is sent a stream header exactly if the client is in its initial state |
| Login.ConnectionArmsRead | Libs/XMPP/sasl.cpp:20-80 | a new connection is answered and a read armed exactly in the initial state, or if no mechanism has been chosen and features with a supported one are in the buffer; otherwise it sends nothing, and without a read outstanding none can complete on it |
| Login.StuckExactly | Libs/XMPP/sasl.cpp:20-80 | from any state without an outstanding read, no run ever sends or reads anything if and only if the stream is opened and a challenge is awaited or no features with a supported mechanism can come out of the buffer any more |
| Login.LostEarlyIsStuck | Libs/XMPP/sasl.cpp:43-46 | a concrete run in which the connection breaks before the features arrive: the next one is made, nothing is sent on it and no read armed |
| Login.RunConservesBytes | Libs/XMPP/xmpp_client.cpp:20-29 | all bytes delivered by the reads of a run are, in order, the skipped bytes, stanzas and buffer, if and only if every call of `ExtractXML` found its tags in order |
| Login.RunsAgree | Libs/XMPP/xmpp_client.cpp:20-29 | two runs of the client whose reads deliver the same bytes, with their tags in order, in whatever pieces and over whatever connections, find the same stanzas as far as both get and never request different mechanisms |
| XmppClient.TCPSocket.OnConnect | Libs/Networking/tcp_socket.cpp:33-37 | takes the connect step of the login, through the client's and the SASL object's handlers |
| XmppClient.TCPSocket.OnRead | Libs/Networking/tcp_socket.cpp:46-57 | takes the read step of the login, re-arming after the handler |
| XmppClient.TCPSocket.Write | Libs/Networking/tcp_socket.cpp:59-82 | with a connection, sends the data and arms one read; without, does nothing |
| XmppClient.TCPSocket.Read | Libs/Networking/tcp_socket.cpp:70-82 | arms one read with a connection, none without |
| XmppClient.TCPSocket.Close | Libs/Networking/tcp_socket.cpp:39-44 | clears the connected flag |
| XmppClient.XMPPClient.Connect | Libs/Networking/tcp_client.cpp:26-34 | starts one name resolution |
| XmppClient.XMPPClient.Write | Libs/Networking/tcp_client.cpp:84-93 | passes the data on only with a connection |
| XmppClient.XMPPClient.Disconnect | Libs/Networking/tcp_client.cpp:44-48 | clears the connected flag and reports once |
| XmppClient.XMPPClient.ResolveHostHandler | Libs/Networking/tcp_client.cpp:99-107 | takes the resolve step: an error disconnects, otherwise a connect is started |
| XmppClient.XMPPClient.ConnectHandler | Libs/Networking/tcp_client.cpp:50-58 | an error disconnects, otherwise the state machine is advanced |
| XmppClient.XMPPClient.ReadHandler | Libs/Networking/tcp_client.cpp:64-73 | an error disconnects, otherwise the bytes are handed on |
| XmppClient.XMPPClient.OnRead | Libs/XMPP/xmpp_client.cpp:24-29 | appends the bytes and advances the state machine once |
| XmppClient.XMPPClient.OnConnect | Libs/XMPP/xmpp_client.cpp:20-22 | advances the state machine once, with no new bytes |
| XmppClient.SASL.Update | Libs/XMPP/sasl.cpp:20-36 | takes the step of the current state |
| XmppClient.SASL.HandleInitializeStream | Libs/XMPP/sasl.cpp:38-41 | sends the stream header and moves on |
| XmppClient.SASL.HandleSelectAuthenticationMechanism | Libs/XMPP/sasl.cpp:43-58 | cuts the features, chooses, disconnects if nothing fits, and attempts the write in every case |
| XmppClient.SASL.HandleDecodeBase64Challenge | Libs/XMPP/sasl.cpp:70-80 | cuts a challenge and changes nothing else |
| XmppClient.SASL.ExtractXML | Libs/XMPP/sasl.cpp:129-145 | returns the stanza and leaves the rest, or returns nothing and leaves the buffer as it was |
| HandlerMap.InsertInOrder | Libs/Input/os_window.cpp:94-97 | a binding goes to its place by priority, behind equal ones, and no other entry is added or lost |
| Notification.FinishKeeps | Libs/Input/os_window.cpp:171-188 | a notification, whatever its callbacks bind and release, calls in strict order and leaves the map in order |
| Notification.FinishCalls | Libs/Input/os_window.cpp:171-188 | nobody dead before is called, everybody who lives through it is called, and what remains is what was called or bound too late |
| Notification.FinishLate | Libs/Input/os_window.cpp:171-188 | whatever is bound too late to be called was bound by a callback, to a lower number than that of a handler called |
| Notification.FinishAlike | Libs/Input/os_window.cpp:171-188 | a notification that erases expired entries calls whom one that keeps them calls |
| Turns.TurnSeparates | Libs/Input/os_window.cpp:171-188 | the turn of a binding separates the calls that come before it from the others |
| Turns.AllowedExactly | Libs/Input/os_window.cpp:46-48 | the callbacks of a notification may bind exactly the handlers that none has released before and that had not expired |
| Dispatch.NotificationExactly | Libs/Input/os_window.cpp:171-188 | at any point of a run, for any callbacks: a binding is called if and only if at its turn it has been made and its handler has neither expired nor been released by a callback before; it is kept if and only if it was called or made too late; the dead and the bindings afterwards are those before and those of the callbacks called |
| Dispatch.ExpiredIsSilent | Libs/Input/os_window.cpp:171-188 | a handler that has expired is called in no later notification of any run |
| Dispatch.BoundIsCalled | Libs/Input/os_window.cpp:46-97 | a binding is called in every later notification of any run in which nothing lets its handler expire |
| Dispatch.NotificationCalls | Libs/Input/os_window.cpp:171-188 | at any point of a run: who is called by one event, and that only bindings made by a callback for a lower number than a called one are left out |
| Dispatch.RemovalIsInvisible | Libs/Input/os_window.cpp:171-188 | over any run of bindings, expiries and notifications, all calls are those of a window that keeps every binding ever made, sorted by priority and time of binding, and no binding is called twice for one event |
| Dispatch.QuietNotification | Libs/Input/os_window.cpp:171-188 | without effects of callbacks, exactly the live entries are called, in order, and remain |
| Dispatch.CalledOncePerBinding | Libs/Input/os_window.cpp:94-97 | whatever the callbacks do to other handlers, one they neither bind nor release is called once per binding if it lives; at most once exactly if it was bound at most once or has expired |
| Dispatch.Window.Bind | Libs/Input/os_window.cpp:46-97 | inserts the handler at its place |
| Dispatch.Window.NotifyHandlers | Libs/Input/os_window.cpp:171-188 | the loop that erases while it iterates ends and does what the notification describes, with an iterator that stays valid when a callback binds |
| Server.TCPServerConnection.Write | Libs/Networking/tcp_server_connection.cpp:35-54 | sends the next message of the transcript, the queue followed by default messages, and arms one read |
| Server.TCPServerConnection.HandleRead | Libs/Networking/tcp_server_connection.cpp:24-33 | answers an error-free read with the next message of its transcript and arms one read; after an error nothing is sent and no read armed |
| Server.TCPServer.HandleAccept | Libs/Networking/tcp_server.cpp:34-40 | greets the accepted client with the first message and awaits another, each connection on its own copy of the queue; a failed accept sends nothing and awaits nobody |
| Server.TCPServer.StartAccept | Libs/Networking/tcp_server.cpp:21-32 | adds one connection with its own copy of the queue that has sent nothing yet |
| Server.TCPServer.CompleteRead | Libs/Networking/tcp_server_connection.cpp:24-33 | a read of any one connection is answered there, and every connection keeps its transcript |

## Left out

- Streams.StreamEncoder.Encode: buffer sizes below 2 are excluded; there the program can write past its buffer (`EncoderShape.FitsExactly`).
- Streams.StreamDecoder.Decode: buffer sizes below 4 are excluded for the same reason (`DecoderShape.FitsExactly`).
- XmppClient.SASL.HandleDecodeBase64Challenge: an XML document without elements, for which the program reads past the end of a container, is treated as one without text.
- Exceptions: the XML parser is a total function from a stanza to its elements, and writing to a socket does not throw.
- Asio, name resolution and real sockets appear only as completions with an error flag; a read completes as one step, in which the bytes land and the handler runs. Two reads overlapping in the shared 4096-byte array are not modelled.
- The nonce is an argument: any 32 bytes. Its alphabet and randomness are not modelled.
- Clients that call `set_transaction_state` or `set_state` directly.
- Multimaps, queues, strings and streams of the standard library are values with the operations used; their iterators are positions.
- A notification whose callbacks bind handlers without end does not terminate in the program; the model lets any finite number of callbacks bind any finite number of handlers.
- What the individual window callbacks pass to a handler, the mouse button map, the key names, logging, configuration and everything under Libs/Graphics and Applications.
