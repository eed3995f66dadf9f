/**
 The writer of a response: it drains a chain of buffers, the head in memory and the body in a
 file, through sends that may take any part of what they are offered. Every time the socket
 becomes writable it starts again at the first buffer.
 */
module ResponseWriter {
  import opened Bytes
  import opened Socket

  /** A buffer of the chain: what it has to send and how much of it was taken. */
  datatype Buf = Buf(file: bool, text: bytes, sent: nat)

  datatype State = Writing | Waiting | KeptAlive | Closed

  predicate Finished(b: Buf) { b.sent == |b.text| }

  function Advanced(b: Buf, n: nat): Buf { Buf(b.file, b.text, b.sent + n) }

  ghost predicate InBounds(chain: seq<Buf>) {
    forall i | 0 <= i < |chain| :: chain[i].sent <= |chain[i].text|
  }

  /** No buffer is overrun, and a buffer is begun only when all before it are finished. */
  ghost predicate InOrder(chain: seq<Buf>) {
    && InBounds(chain)
    && forall i, j | 0 <= i < j < |chain| :: chain[j].sent > 0 ==> Finished(chain[i])
  }

  /** What has been taken from the first k buffers, and all that they hold. */
  function Drained(chain: seq<Buf>, k: nat): bytes
    requires k <= |chain| && forall i | 0 <= i < k :: chain[i].sent <= |chain[i].text|
  {
    if k == 0 then [] else Drained(chain, k - 1) + chain[k - 1].text[..chain[k - 1].sent]
  }

  function Whole(chain: seq<Buf>, k: nat): bytes
    requires k <= |chain|
  {
    if k == 0 then [] else Whole(chain, k - 1) + chain[k - 1].text
  }

  /** What was taken is the beginning of the response: no byte is skipped and none comes twice. */
  lemma {:induction false} DrainedIsPrefix(chain: seq<Buf>, k: nat)
    requires InOrder(chain) && k <= |chain|
    ensures Drained(chain, k) <= Whole(chain, k)
    ensures Drained(chain, k) == Whole(chain, k) <==> forall i | 0 <= i < k :: Finished(chain[i])
  {
    if k > 0 {
      DrainedIsPrefix(chain, k - 1);
      var b := chain[k - 1];
      if b.sent == 0 {
        assert b.text[..b.sent] == [];
        assert |Whole(chain, k)| == |Whole(chain, k - 1)| + |b.text|;
      } else {
        assert b.text[..b.sent] <= b.text;
      }
    }
  }

  /** Bytes from a buffer after the first can be on the wire only behind all of the first. */
  lemma FileWaitsForHead(chain: seq<Buf>, i: nat)
    requires InOrder(chain) && 0 < i < |chain| && chain[i].sent > 0
    ensures Whole(chain, i) + chain[i].text[..chain[i].sent] == Drained(chain, i + 1)
  {
    DrainedIsPrefix(chain, i);
  }

  lemma AdvancedInOrder(chain: seq<Buf>, i: nat, n: nat)
    requires InOrder(chain) && i < |chain| && chain[i].sent + n <= |chain[i].text|
    requires 0 < n && forall j | 0 <= j < i :: Finished(chain[j])
    ensures InOrder(chain[i := Advanced(chain[i], n)])
    ensures forall j | i < j < |chain| :: chain[j].sent == 0
    ensures InBounds(chain) && InBounds(chain[i := Advanced(chain[i], n)])
  {
  }

  lemma LastDrained(chain: seq<Buf>, k: nat)
    requires InBounds(chain) && 0 < k <= |chain|
    ensures Drained(chain, k) == Drained(chain, k - 1) + chain[k - 1].text[..chain[k - 1].sent]
    ensures Whole(chain, k) == Whole(chain, k - 1) + chain[k - 1].text
  {
  }

  lemma TakeMore(before: bytes, text: bytes, a: nat, n: nat)
    requires a + n <= |text|
    ensures before + text[..a + n] == before + text[..a] + text[a..a + n]
  {
  }

  /** Sending from the first unfinished buffer puts the bytes behind those already taken. */
  lemma {:induction false} DrainedGrows(chain: seq<Buf>, i: nat, n: nat, k: nat)
    requires InOrder(chain) && i < k <= |chain| && chain[i].sent + n <= |chain[i].text|
    requires 0 < n && forall j | 0 <= j < i :: Finished(chain[j])
    ensures Drained(chain[i := Advanced(chain[i], n)], k)
         == Drained(chain, k) + chain[i].text[chain[i].sent..chain[i].sent + n]
    ensures Whole(chain[i := Advanced(chain[i], n)], k) == Whole(chain, k)
  {
    AdvancedInOrder(chain, i, n);
    hide InOrder, Drained, Whole;
    var chain', b := chain[i := Advanced(chain[i], n)], chain[i];
    LastDrained(chain, k);
    LastDrained(chain', k);
    if k == i + 1 {
      Unchanged(chain, chain', i);
      TakeMore(Drained(chain, i), b.text, b.sent, n);
    } else {
      DrainedGrows(chain, i, n, k - 1);
      assert chain'[k - 1] == chain[k - 1] && chain[k - 1].text[..0] == [];
    }
  }

  lemma {:induction false} Unchanged(chain: seq<Buf>, chain': seq<Buf>, k: nat)
    requires k <= |chain| && |chain'| == |chain| && forall i | 0 <= i < k :: chain'[i] == chain[i]
    requires forall i | 0 <= i < k :: chain[i].sent <= |chain[i].text|
    ensures Drained(chain', k) == Drained(chain, k) && Whole(chain', k) == Whole(chain, k)
  {
    if k > 0 {
      Unchanged(chain, chain', k - 1);
    }
  }

  class Writer {
    const socket: Socket
    var chain: seq<Buf>
    /** response.begin, and the buffer that response.last points at. */
    var begin: bool
    var last: nat
    var state: State
    /** What the socket had taken before this response. */
    ghost const before: bytes

    /** What the socket has taken for this response is what the buffers say they have sent. */
    ghost predicate Valid()
      reads this, socket`sent
    {
      && chain != [] && InOrder(chain) && (begin ==> last == 0)
      && socket.sent == before + Drained(chain, |chain|)
    }

    constructor (socket: Socket, texts: seq<(bool, bytes)>)
      requires texts != []
      ensures Valid() && this.socket == socket && before == socket.sent && state == Waiting && !begin
      ensures |chain| == |texts| && forall i | 0 <= i < |texts| :: chain[i] == Buf(texts[i].0, texts[i].1, 0)
    {
      this.socket, before := socket, socket.sent;
      chain := seq(|texts|, i requires 0 <= i < |texts| => Buf(texts[i].0, texts[i].1, 0));
      begin, last, state := false, 0, Waiting;
      new;
      NothingDrained(chain, |chain|);
      assert before + [] == before;
    }

    /** What the last answer of the socket makes of the writer. */
    ghost predicate Obeys()
      reads this`state, socket`answer
    {
      && (state == Waiting <==> socket.answer.Again?)
      && (state == Closed <==> socket.answer.Nothing? || socket.answer.Failed?)
      && (state == Writing || state == KeptAlive <==> socket.answer.Taken?)
    }

    /** One send from buffer i, of all that it still has; the two kinds of buffer are treated alike. */
    method Step(i: nat) returns (next: nat)
      requires Valid() && i < |chain| && state == Writing && forall j | 0 <= j < i :: Finished(chain[j])
      modifies this`chain, this`state, socket`sent, socket`sends, socket`answer
      ensures socket.sends == old(socket.sends) + 1
      ensures Valid() && Obeys() && |chain| == |old(chain)| && i <= next < |chain| && next <= i + 1
      ensures chain == old(chain)[i := chain[i]] && old(chain[i].sent) <= chain[i].sent
      ensures Whole(chain, |chain|) == Whole(old(chain), |old(chain)|) && old(socket.sent) <= socket.sent
      ensures forall j | 0 <= j < next :: Finished(chain[j])
      ensures chain[i].text == old(chain[i]).text && chain[i].file == old(chain[i]).file
      ensures chain[i].sent <= |chain[i].text|
      ensures state == Writing ==> next > i || chain[i].sent > old(chain[i]).sent
      ensures if next == i then state == Writing ==> !Finished(chain[i]) else state == Writing
      ensures state == KeptAlive ==> i == |chain| - 1 && Finished(chain[i])
      ensures Finished(old(chain[i])) ==> state == Closed
      ensures state == Waiting || state == Closed ==> chain == old(chain) && socket.sent == old(socket.sent)
      ensures socket.eager && !Finished(old(chain[i])) ==>
        state == KeptAlive || (state == Writing && next == i + 1)
    {
      hide Drained, Whole;
      next := i;
      var b := chain[i];
      var a := socket.Send(b.text[b.sent..]);
      match a {
        case Taken(n) =>
          AdvancedInOrder(chain, i, n);
          DrainedGrows(chain, i, n, |chain|);
          assert b.text[b.sent..][..n] == b.text[b.sent..b.sent + n];
          chain := chain[i := Advanced(b, n)];
          if b.sent + n == |b.text| {
            if i + 1 == |chain| {
              state := KeptAlive;
            } else {
              next := i + 1;
            }
          }
        case Again =>
          state := Waiting;
        case Nothing =>
          state := Closed;
        case Failed =>
          state := Closed;
      }
    }

    lemma StartsInBounds()
      requires Valid()
      ensures forall j | 0 <= j < |chain| :: chain[j].sent <= |chain[j].text|
    {
    }

    /**
     ehd_http_writer, called when the socket is writable. The socket has always taken a beginning of
     the response, and all of it when the connection is kept alive; but a call that finds the first
     buffer finished sends nothing and closes, so only a call that finds no buffer finished can
     end in keep-alive. When the socket takes all it is offered, such a call does end so. The call
     waits exactly when the socket's last answer was to try again, closes exactly when that was
     nothing or an error, and goes on sending after every part that is taken until all is sent.
     */
    method OnWritable()
      requires Valid() && state == Waiting
      modifies this, socket`sent, socket`sends, socket`answer
      ensures Valid() && begin && state != Writing
      ensures socket.sends > old(socket.sends)
      ensures state == Waiting <==> socket.answer == Again
      ensures state == Closed <==> socket.answer == Nothing || socket.answer == Failed
      ensures state == KeptAlive <==> socket.answer.Taken?
      ensures |chain| == |old(chain)| && Whole(chain, |chain|) == Whole(old(chain), |old(chain)|)
      ensures old(socket.sent) <= socket.sent <= before + Whole(chain, |chain|)
      ensures state == KeptAlive ==>
        socket.sent == before + Whole(chain, |chain|) && forall b | b in old(chain) :: !Finished(b)
      ensures Finished(old(chain[0])) ==> state == Closed && chain == old(chain) && socket.sent == old(socket.sent)
      ensures socket.eager ==> (state == KeptAlive <==> forall b | b in old(chain) :: !Finished(b))
    {
      hide Drained, Whole, InOrder;
      StartsInBounds();
      if !begin {
        last, begin := 0, true;
      }
      state := Writing;
      var i: nat := last;
      while state == Writing
        invariant socket.sends >= old(socket.sends)
        invariant state != Writing ==> Obeys() && socket.sends > old(socket.sends)
        invariant Valid() && begin && i < |chain| == |old(chain)|
        invariant Whole(chain, |chain|) == Whole(old(chain), |old(chain)|) && old(socket.sent) <= socket.sent
        invariant forall j | 0 <= j < i :: Finished(chain[j]) && !Finished(old(chain)[j])
        invariant forall j | i < j < |chain| :: chain[j] == old(chain)[j]
        invariant chain[i].text == old(chain)[i].text && old(chain)[i].sent <= chain[i].sent <= |chain[i].text|
        invariant forall j | i < j < |chain| :: chain[j].sent <= |chain[j].text|
        invariant Finished(old(chain[0])) ==>
          i == 0 && chain == old(chain) && socket.sent == old(socket.sent) && state in {Writing, Closed}
        invariant state == KeptAlive ==> i == |chain| - 1 && Finished(chain[i]) && !Finished(old(chain)[i])
        invariant socket.eager ==> state != Waiting && (state == Writing ==> chain[i] == old(chain)[i])
        invariant socket.eager && state == Closed ==> Finished(old(chain)[i])
        decreases state == Writing, |chain| - i, |chain[i].text| - chain[i].sent
      {
        i := Step(i);
      }
      DrainedIsPrefix(chain, |chain|);
      assert state == Closed && socket.eager ==> old(chain)[i] in old(chain);
    }
  }

  lemma {:induction false} NothingDrained(chain: seq<Buf>, k: nat)
    requires k <= |chain| && forall i | 0 <= i < |chain| :: chain[i].sent == 0
    ensures Drained(chain, k) == []
  {
    if k > 0 {
      NothingDrained(chain, k - 1);
    }
  }
}
