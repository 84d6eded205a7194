/**
 The demo server (Libs/Networking/tcp_server.cpp, Libs/Networking/tcp_server_connection.cpp): every
 connection answers each read with the next message of its own copy of the queue.
 */
module Server {
  import opened Alphabet

  const DEFAULT_MESSAGE := Ascii("Greetings From TCPServerConnection!\r\n")

  /** The first `n` messages of a connection: the queue, then the default message. */
  function Transcript(queue: seq<Bytes>, n: nat): seq<Bytes> {
    if n <= |queue| then queue[..n] else queue + seq(n - |queue|, _ => DEFAULT_MESSAGE)
  }

  lemma TranscriptStep(queue: seq<Bytes>, n: nat)
    ensures Transcript(queue, n + 1) == Transcript(queue, n) + [if n < |queue| then queue[n] else DEFAULT_MESSAGE]
  {
  }

  /** The messages of the queue still to be sent after `n` messages. */
  function Remaining(queue: seq<Bytes>, n: nat): seq<Bytes> {
    if n <= |queue| then queue[n..] else []
  }

  class TCPServerConnection {
    ghost const queue: seq<Bytes>
    var message_queue: seq<Bytes>
    var is_open: bool

    // Reads started and not completed, reads completed without an error, and everything written.
    var armed: nat
    ghost var received: nat
    var sent: seq<Bytes>

    /** The connection has sent one message more than it has read, and waits for one read. */
    ghost predicate Valid()
      reads this
    {
      && sent == Transcript(queue, |sent|)
      && message_queue == Remaining(queue, |sent|)
      && (sent == [] ==> armed == 0 && received == 0 && is_open)
      && (sent != [] ==> |sent| == received + 1 && armed == if is_open then 1 else 0)
    }

    /** What the connection sends after `n` messages. */
    ghost function NextMessage(n: nat): Bytes {
      if n < |queue| then queue[n] else Ascii("Greetings From TCPServerConnection!\r\n")
    }

    constructor (queue: seq<Bytes>)
      ensures Valid() && this.queue == queue && sent == []
    {
      this.queue := queue;
      message_queue, is_open, armed, received, sent := queue, true, 0, 0, [];
    }

    method Write()
      requires is_open && armed == 0 && |sent| == received
      requires sent == Transcript(queue, |sent|) && message_queue == Remaining(queue, |sent|)
      modifies `message_queue, `armed, `sent
      ensures Valid() && armed == 1
      ensures sent == old(sent) + [NextMessage(old(|sent|))]
    {
      TranscriptStep(queue, |sent|);
      var message;
      if message_queue != [] {
        message := message_queue[0];
        message_queue := message_queue[1..];
      } else {
        message := DEFAULT_MESSAGE;
      }
      sent := sent + [message];
      armed := armed + 1;
    }

    /** The completion of a read: an error closes the connection, anything else is answered. */
    method HandleRead(failed: bool)
      requires Valid() && armed > 0
      modifies this
      ensures Valid()
      ensures if failed then !is_open && armed == 0 && sent == old(sent)
              else is_open && armed == 1 && sent == old(sent) + [NextMessage(old(|sent|))]
    {
      armed := armed - 1;
      if failed {
        HandleError();
        return;
      }
      received := received + 1;
      Write();
    }

    method HandleError()
      modifies `is_open
      ensures !is_open
    {
      is_open := false;
    }
  }

  class TCPServer {
    const message_queue: seq<Bytes>
    var connections: seq<TCPServerConnection>
    var accepting: bool

    /** Each connection keeps its own transcript; only the last one may not have been accepted yet. */
    ghost predicate Valid()
      reads this, connections
    {
      && (forall i | 0 <= i < |connections| :: connections[i].Valid() && connections[i].queue == message_queue)
      && (forall i, j | 0 <= i < j < |connections| :: connections[i] != connections[j])
      && (accepting ==> connections != [] && connections[|connections| - 1].sent == [])
    }

    constructor (queue: seq<Bytes>)
      ensures Valid() && message_queue == queue && connections == []
    {
      message_queue := queue;
      connections, accepting := [], false;
    }

    method StartAccept()
      requires Valid()
      modifies this
      ensures Valid() && accepting
      ensures |connections| == |old(connections)| + 1 && connections[..|connections| - 1] == old(connections)
      ensures fresh(connections[|connections| - 1]) && connections[|connections| - 1].sent == []
    {
      var connection := new TCPServerConnection(message_queue);
      connections := connections + [connection];
      accepting := true;
    }

    /** The completion of an accept: the first message goes out, and another client is awaited. */
    method HandleAccept(failed: bool)
      requires Valid() && accepting
      modifies this, connections[|connections| - 1]
      ensures Valid() && accepting == !failed
      ensures old(connections) <= connections
      ensures !failed ==> |connections| == |old(connections)| + 1
      ensures var accepted := old(connections)[|old(connections)| - 1];
              accepted.sent == if failed then [] else [accepted.NextMessage(0)]
      ensures failed ==> connections == old(connections)
    {
      accepting := false;
      if !failed {
        connections[|connections| - 1].Write();
        StartAccept();
      }
    }

    /** Any read of any accepted connection completes; no other connection notices. */
    method CompleteRead(i: nat, failed: bool)
      requires Valid() && i < |connections| && connections[i].armed > 0
      modifies connections[i]
      ensures Valid()
      ensures connections[i].sent == old(connections[i].sent)
              + if failed then [] else [connections[i].NextMessage(|old(connections[i].sent)|)]
    {
      connections[i].HandleRead(failed);
    }
  }
}
