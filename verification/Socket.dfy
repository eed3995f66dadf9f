/**
 The peer's end of a connection. The model's view of the network is what this object did: only
 its own methods write down what it delivered and what it took.
 */
module Socket {
  import opened Bytes

  /** What recv answers. */
  datatype Received = Data(text: bytes) | NotReady | Eof | Error

  /** What send and sendfile answer. */
  datatype Answer = Taken(n: nat) | Nothing | Again | Failed

  class Socket {
    /** While set, the socket takes all of what it is offered. */
    var eager: bool
    /** ev->rready: there may be something to read. A read event sets it, and only recv takes it back. */
    var ready: bool
    /** Every byte that recv has delivered, and every byte that send has taken. */
    ghost var received: bytes
    ghost var sent: bytes
    /** How often send was called, and what it has answered last. */
    ghost var sends: nat
    ghost var answer: Answer
    /** How often recv has reported the end of the stream or an error. */
    ghost var failures: nat

    constructor ()
      ensures received == [] && sent == [] && failures == 0 && !ready
    {
      ready, received, failures := false, [], 0;
      sent, sends, answer := [], 0, Nothing;
    }

    /** What the event loop does before it runs the read handler. */
    method BecomeReadable()
      modifies this`ready
      ensures ready
    {
      ready := true;
    }

    /**
     ehd_recv: any number of bytes from 1 to room, or none. It is never asked for zero bytes. When it
     delivers less than it was asked for, there is nothing more to read until the next event.
     */
    method Recv(room: nat) returns (got: Received)
      requires room > 0
      modifies this`received, this`ready, this`failures
      ensures received == old(received) + (if got.Data? then got.text else [])
      ensures got.Data? ==> 1 <= |got.text| <= room
      ensures ready == (old(ready) && got.Data? && |got.text| == room)
      ensures failures == old(failures) + (if got.Eof? || got.Error? then 1 else 0)
    {
      got :| got.Data? ==> 1 <= |got.text| <= room;
      received := received + (if got.Data? then got.text else []);
      ready := ready && got.Data? && |got.text| == room;
      failures := failures + (if got.Eof? || got.Error? then 1 else 0);
    }

    /** send and sendfile: any part may be taken from the front, and nothing is taken of nothing. */
    method Send(offered: bytes) returns (a: Answer)
      modifies this`sent, this`sends, this`answer
      ensures sends == old(sends) + 1 && answer == a
      ensures a.Taken? ==> 0 < a.n <= |offered|
      ensures sent == old(sent) + (if a.Taken? then offered[..a.n] else [])
      ensures offered == [] ==> a == Nothing
      ensures eager && offered != [] ==> a == Taken(|offered|)
    {
      if offered == [] {
        a := Nothing;
      } else if eager {
        a := Taken(|offered|);
      } else {
        a :| a.Taken? ==> 0 < a.n <= |offered|;
      }
      sent := sent + (if a.Taken? then offered[..a.n] else []);
      sends, answer := sends + 1, a;
    }
  }
}
