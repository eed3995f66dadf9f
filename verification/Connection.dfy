/**
 The per-connection driver: it refills one fixed buffer, parses the request line and the header
 lines out of it as they arrive, and moves what is left over to the front at keep-alive.
 */
module Connection {
  import opened Bytes
  import opened RequestHead
  import opened RequestStrings
  import opened Framing
  import opened Terminated
  import opened Progress
  import opened HttpRequest
  import opened HeaderIndex
  import opened Socket
  import opened Heap
  import L = RequestLine
  import H = HeaderLine
  import B = HeaderBlock

  /** Which read handler is installed. Handling: the head is complete and the response is under way. */
  datatype Phase = Idle | Line | Headers | Handling | Closed

  class Connection {
    const socket: Socket
    const heap: Heap
    const b: Buffer
    var r: Request
    var index: Index
    var phase: Phase
    var fields: seq<H.FieldMarks>
    var unparsedUri: bytes
    var uri: bytes
    var uriLen: nat
    var exten: Option<bytes>

    /** The bytes used by finished requests, and those received since. */
    ghost var past: bytes
    ghost var window: bytes
    /** The requests parsed so far. */
    ghost var heads: seq<Head>
    ghost var lineK: nat
    ghost var lo: nat
    /** Closed because of what the client sent, not because of the socket or of memory. */
    ghost var malformed: bool

    ghost function MadeStrings(): Strings
      reads this`unparsedUri, this`uri, this`uriLen, this`exten
    {
      (CString(unparsedUri), uriLen, CString(uri), CopiedString(exten))
    }

    ghost predicate ReadingLine()
      reads this`window, this`r, b, b.data, r
      requires b.Valid()
    {
      && InLinePhase(window, r.lineState, r.Marks(), b.pos)
      && r.headerState == H.Start && r.Field() == H.NO_FIELD
      && b.Text() == window
    }

    ghost predicate ReadingHeaders()
      reads this`window, this`r, this`index, this`fields, this`lineK, this`lo
      reads this`unparsedUri, this`uri, this`uriLen, this`exten, b, b.data, r, index
      requires b.Valid()
    {
      && InHeaderPhase(window, r.Marks(), MadeStrings(), lineK, fields, lo, r.headerState, r.Field(), b.pos)
      && r.lineState == L.Start
      && b.Text() == WithNuls(window, r.requestEnd, fields)
      && index.Indexes(NamesAt(window, fields))
    }

    /** The head just parsed, as the handler finds it: strings, header list and header index. */
    ghost predicate HandlingHead()
      reads this`window, this`r, this`index, this`fields, this`past, this`heads
      reads this`unparsedUri, this`uri, this`uriLen, this`exten, b, b.data, r, index
      requires b.Valid()
    {
      && heads != []
      && var h := heads[|heads| - 1];
      && heads[..|heads| - 1] == Requests(past)
      && ParseHead(window) == Whole(h, b.pos)
      && b.Text()[b.pos..] == window[b.pos..]
      && h.marks == r.Marks()
      && (h.unparsedUri, h.uriLen, h.uri, h.exten) == MadeStrings()
      && FieldsAt(b.Text(), fields) == h.headers
      && index.Indexes(HeaderNames(h.headers))
    }

    /** What the driver works on is all that the socket has delivered: nothing lost, added or reordered. */
    ghost predicate Accounted()
      reads this`past, this`window, socket`received
    {
      socket.received == past + window
    }

    /** What holds in every phase in which no response is under way. */
    ghost predicate Core()
      reads this, b, socket`received
    {
      && Accounted()
      && b.Valid() && b.data.Length == BUDGET && |window| == b.last
      && Consumed(past) == |past| && heads == Requests(past)
    }

    ghost predicate Valid()
      reads this, b, b.data, r, index, socket`received
    {
      Accounted() && InPhase()
    }

    /** What every phase adds for what has been received. */
    ghost predicate InPhase()
      reads this, b, b.data, r, index
    {
      && b.Valid() && b.data.Length == BUDGET && (phase != Closed ==> |window| == b.last)
      && Consumed(past) == |past|
      && (phase != Handling ==> heads == Requests(past))
      && match phase
         case Idle => b.pos == 0 && b.last < BUDGET && b.Text() == window
         case Line => ReadingLine() && (b.pos < b.last || b.last < BUDGET)
         case Headers => ReadingHeaders()
         case Handling => HandlingHead()
         case Closed => malformed ==> forall t: bytes :: Requests(past + window + t) == heads
    }

    constructor (socket: Socket, heap: Heap)
      requires socket.received == []
      ensures Valid() && phase == Idle && fresh(b) && fresh(b.data) && fresh(r) && fresh(index)
      ensures this.socket == socket && this.heap == heap && past == [] && window == [] && heads == []
    {
      this.socket, this.heap := socket, heap;
      b := new Buffer(BUDGET);
      r := new Request();
      index := new Index();
      phase, fields, unparsedUri, uri, uriLen, exten := Idle, [], [], [], 0, None;
      past, window, heads, lineK, lo, malformed := [], [], [], 0, 0, false;
      new;
      NothingYet();
    }

    /** What every handler keeps: nothing received is lost, and parsed requests stay parsed. */
    twostate predicate Continues()
      reads this, socket`received
    {
      && past == old(past) && old(window) <= window && old(heads) <= heads
      && old(socket.received) <= socket.received
    }

    /** How often the socket or the memory has failed. */
    ghost function Failures(): nat
      reads socket`failures, heap`failures
    {
      socket.failures + heap.failures
    }

    /** The connection is closed for another reason than its input exactly when something has failed. */
    twostate predicate ClosedForCause()
      reads this`phase, this`malformed, socket`failures, heap`failures
    {
      && Failures() >= old(Failures())
      && (phase == Closed && !malformed <==> Failures() > old(Failures()))
    }

    method CloseMalformed()
      requires Core()
      requires ParseHead(window).Refused? || (ParseHead(window).Incomplete? && |window| == BUDGET)
      modifies this`phase, this`malformed
      ensures Valid() && phase == Closed && malformed
    {
      phase, malformed := Closed, true;
      forall t: bytes ensures Requests(past + window + t) == heads {
        NothingFollows(past, window, t);
      }
    }

    method CloseLost()
      requires Core()
      modifies this`phase, this`malformed
      ensures Valid() && phase == Closed && !malformed
    {
      phase, malformed := Closed, false;
    }

    // ----- reading

    method StoreInLine(text: bytes)
      requires InPhase() && phase == Line && b.pos == b.last && 1 <= |text| <= BUDGET - b.last
      requires socket.received == past + window + text
      modifies this`window, b`last, b.data
      ensures Valid() && b.last == old(b.last) + |text| && window == old(window) + text
    {
      hide InLinePhase, Requests, Consumed, ParseHead;
      b.Receive(text);
      LineGrows(window, text, r.lineState, r.Marks(), b.pos);
      assert past + (window + text) == past + window + text;
      window := window + text;
    }

    method StoreInHeaders(text: bytes)
      requires InPhase() && phase == Headers && b.pos == b.last && 1 <= |text| <= BUDGET - b.last
      requires socket.received == past + window + text
      modifies this`window, b`last, b.data
      ensures Valid() && b.last == old(b.last) + |text| && window == old(window) + text
    {
      hide InHeaderPhase, Ordered, WithNuls, Requests, Consumed, ParseHead;
      HeadersInside(window, r.Marks(), MadeStrings(), lineK, fields, lo, r.headerState, r.Field(), b.pos);
      b.Receive(text);
      HeadersGrow(window, text, r.Marks(), MadeStrings(), lineK, fields, lo, r.headerState, r.Field(), b.pos);
      FieldsInside(window, fields, lineK, lo, text, r.requestEnd);
      assert past + (window + text) == past + window + text;
      window := window + text;
    }

    /** Makes sure there is a byte to parse; false when there is none, or the connection is gone. */
    method ReadRequestHeader() returns (have: bool)
      requires Valid() && (phase == Line || phase == Headers) && (b.pos < b.last || b.last < BUDGET)
      modifies this, b, b.data, socket`received, socket`ready, socket`failures
      ensures Valid() && Continues() && ClosedForCause() && b.last >= old(b.last) && b.pos == old(b.pos)
      ensures r == old(r) && index == old(index) && fields == old(fields)
      ensures have ==> phase == old(phase) && b.pos < b.last
      ensures have && old(b.pos == b.last) ==> b.last > old(b.last)
      ensures !have ==> phase == Closed || (phase == old(phase) && !socket.ready && b.pos == b.last == old(b.last))
    {
      hide ReadingLine, ReadingHeaders, HandlingHead, ParseHead, Requests, Consumed;
      if b.last - b.pos > 0 {
        return true;
      }
      if !socket.ready {
        return false;
      }
      var got := socket.Recv(BUDGET - b.last);
      match got {
        case Data(text) =>
          if phase == Line { StoreInLine(text); } else { StoreInHeaders(text); }
          return true;
        case NotReady =>
          return false;
        case _ =>
          CloseLost();
          return false;
      }
    }

    // ----- the request line

    /** A request line has been parsed, and nothing has been made of it yet. */
    ghost predicate LineParsed()
      reads this, b, b.data, r, socket`received
    {
      && Core() && b.Text() == window
      && L.ParseLine(window, 0) == L.Finished(r.Marks(), b.pos) && L.FinalCode(r.Marks()) == L.Ok
      && r.lineState == L.Start && r.headerState == H.Start && r.Field() == H.NO_FIELD
    }

    method ParseLine() returns (code: L.Code)
      requires Core() && ReadingLine()
      modifies r, b`pos
      ensures Core()
      ensures code == L.Again ==> ReadingLine() && b.pos == b.last
      ensures code == L.Ok ==> LineParsed()
      ensures code != L.Again && code != L.Ok ==> ParseHead(window).Refused?
    {
      LineAnswer(window, r.lineState, r.Marks(), b.pos);
      code := r.ParseRequestLine(b);
      assert b.Text() == window;
    }

    /** The line is terminated in the buffer, and the headers start right behind it. */
    method BeginHeaders()
      requires Core() && b.Text() == window && r.lineState == L.Start && r.headerState == H.Start
      requires InHeaderPhase(window, r.Marks(), MadeStrings(), b.pos, [], b.pos, H.Start, r.Field(), b.pos)
      modifies this`fields, this`index, this`lineK, this`lo, this`phase, b.data
      ensures Valid() && phase == Headers && fresh(index)
    {
      hide InHeaderPhase, L.ParseLine, ParseHead, LineStrings, Requests, Consumed;
      HeadersInside(window, r.Marks(), MadeStrings(), b.pos, [], b.pos, H.Start, r.Field(), b.pos);
      b.Terminate(r.requestEnd);
      fields := [];
      index := new Index();
      assert NamesAt(window, []) == [];
      lineK, lo := b.pos, b.pos;
      phase := Headers;
      assert MadeStrings() == old(MadeStrings()) && r.Marks() == old(r.Marks()) && r.Field() == old(r.Field());
      assert ReadingHeaders();
    }

    /** Copies the strings of the line. */
    method MakeStrings() returns (made: Made)
      requires LineParsed()
      modifies this`unparsedUri, this`uri, this`uriLen, this`exten, heap`failures
      ensures heap.failures == old(heap.failures) + (if made == NoMemory then 1 else 0)
      ensures made == PathRefused ==> ParseHead(window).Refused?
      ensures made == Made ==>
        InHeaderPhase(window, r.Marks(), MadeStrings(), b.pos, [], b.pos, H.Start, r.Field(), b.pos)
    {
      hide L.ParseLine, ParseHead, LineStrings, PathReady, Requests, Consumed;
      LineIsReady(r.Marks(), window, b.pos);
      made, unparsedUri, uri, uriLen, exten := CopyStrings(heap, b.data[..b.last], r.Marks());
      if made == PathRefused {
        LineRefused(window);
      } else if made == Made {
        HeadersBegin(window, r.Marks(), MadeStrings(), b.pos);
      }
    }

    /** A finished line becomes strings of its own, and the connection turns to the headers. */
    method FinishLine()
      requires LineParsed()
      modifies this, b.data, heap`failures
      ensures Valid() && Continues() && ClosedForCause() && (phase == Headers || phase == Closed)
      ensures r == old(r) && (index == old(index) || fresh(index))
    {
      hide InHeaderPhase, L.ParseLine, L.FinalCode, ParseHead, LineStrings, WithNuls, Requests, Consumed;
      hide ReadingLine, ReadingHeaders, HandlingHead;
      var made := MakeStrings();
      if made == PathRefused {
        CloseMalformed();
        return;
      }
      var ok := false;
      if made == Made {
        ok := heap.Allocate();
      }
      if !ok {
        CloseLost();
        return;
      }
      BeginHeaders();
    }

    // ----- the headers

    /** A header line has been parsed but not yet pushed on the list. */
    ghost predicate HeaderParsed()
      reads this, b, b.data, r, index, socket`received
    {
      && Core() && r.lineState == L.Start
      && InHeaderPhase(window, r.Marks(), MadeStrings(), lineK, fields + [r.Field()], b.pos,
                       r.headerState, r.Field(), b.pos)
      && InLine(r.Field(), lo, b.pos) && Ordered(fields, lineK, lo) && lineK <= lo
      && b.Text() == WithNuls(window, r.requestEnd, fields)
      && index.Indexes(NamesAt(window, fields))
    }

    /** The blank line has been parsed: the head is complete, and ends at pos. */
    ghost predicate HeadParsed()
      reads this, b, b.data, r, index, socket`received
    {
      && Core()
      && ParseHead(window) == Whole(Head(r.Marks(), CString(unparsedUri), uriLen, CString(uri),
                                         CopiedString(exten), FieldsAt(window, fields)), b.pos)
      && 0 <= r.requestEnd < lineK <= lo <= b.pos && Ordered(fields, lineK, lo)
      && b.Text() == WithNuls(window, r.requestEnd, fields)
      && index.Indexes(NamesAt(window, fields))
    }

    method ParseHeader() returns (code: L.Code)
      requires Valid() && phase == Headers
      modifies r, b`pos
      ensures Core() && b.pos >= old(b.pos)
      ensures code == L.Again ==> Valid() && b.pos == b.last
      ensures code == L.Ok ==> HeaderParsed() && b.pos > old(b.pos)
      ensures code == L.HeaderDone ==> HeadParsed()
      ensures code !in {L.Again, L.Ok, L.HeaderDone} ==> ParseHead(window).Refused?
    {
      hide InBlock, Ordered, InLine, WithNuls, NamesAt, FieldsAt, ParseHead, Requests, Consumed;
      hide L.ParseLine, LineStrings, B.ReadBlock;
      ghost var q, f, pos := r.headerState, r.Field(), b.pos;
      ghost var m := r.Marks();
      HeadersInside(window, m, MadeStrings(), lineK, fields, lo, q, f, pos);
      RunOverNuls(window, m, lineK, fields, lo, q, f, pos);
      code := r.ParseHeaderLine(b);
      match H.Run(q, f, window, pos) {
        case More(_, _) => BlockMore(window, m, lineK, fields, lo, q, f, pos);
        case Field(_, _) => BlockField(window, m, lineK, fields, lo, q, f, pos);
        case End(_, _) => HeadersEnd(window, m, MadeStrings(), lineK, fields, lo, q, f, pos);
        case Bad(_) => HeadersRefused(window, m, MadeStrings(), lineK, fields, lo, q, f, pos);
      }
    }

    /** Terminates the name and the value of the header just parsed, in place. */
    method TerminateHeader()
      requires HeaderParsed()
      modifies b.data
      ensures b.Text() == WithNuls(window, r.requestEnd, fields + [r.Field()])
      ensures 0 <= r.headerNameStart <= r.headerNameEnd <= b.last
      ensures b.Text()[r.headerNameStart..r.headerNameEnd] == FieldAt(window, r.Field()).0
    {
      hide InHeaderPhase, WithNuls, Ordered, Requests, Consumed;
      ghost var all := fields + [r.Field()];
      HeadersInside(window, r.Marks(), MadeStrings(), lineK, all, b.pos, r.headerState, r.Field(), b.pos);
      FieldKept(window, r.requestEnd, all, lineK, b.pos, |fields|);
      WithNulsSnoc(window, r.requestEnd, fields, r.Field());
      b.Terminate(r.headerNameEnd);
      b.Terminate(r.headerEnd);
      assert b.Text() == WithNuls(window, r.requestEnd, all);
    }

    /** Pushes the header just parsed on the list, terminates its strings, and indexes it. */
    method PushHeader()
      requires HeaderParsed() && phase == Headers
      modifies this`fields, this`lo, index, b.data
      ensures Valid() && phase == Headers
    {
      hide InHeaderPhase, InLine, Ordered, WithNuls, ParseHead, Requests, Consumed, NamesAt;
      TerminateHeader();
      NamesSnoc(window, fields, r.Field());
      index.Record(b.Text()[r.headerNameStart..r.headerNameEnd], |fields|, NamesAt(window, fields));
      fields := fields + [r.Field()];
      lo := b.pos;
      assert MadeStrings() == old(MadeStrings()) && r.Marks() == old(r.Marks()) && r.Field() == old(r.Field());
    }

    /** The head is complete: the handler takes over. */
    method StartHandling()
      requires HeadParsed() && phase == Headers
      modifies this`phase, this`heads
      ensures Valid() && phase == Handling && |heads| == |old(heads)| + 1 && old(heads) <= heads
    {
      hide ParseHead, WithNuls, Ordered, InLine, FieldsAt, NamesAt, HeaderNames, Requests, Consumed;
      OrderedWiden(fields, lineK, lo, b.pos);
      StringsKept(window, r.requestEnd, fields, lineK, b.pos);
      NothingAhead(window, r.requestEnd, fields, lineK, b.pos);
      NamesOfFields(window, fields);
      heads := heads + [ParseHead(window).head];
      assert heads[..|heads| - 1] == old(heads);
      phase := Handling;
      assert HandlingHead();
    }

    // ----- the two read handlers of a request

    /**
     At rest: the socket has been read until it delivered less than it was asked for, and everything
     received has been parsed, so no complete request is being withheld.
     */
    ghost predicate AtRest()
      reads this, b, socket`received, socket`ready
    {
      phase == Line || phase == Headers ==>
        !socket.ready && b.pos == b.last < BUDGET && Requests(socket.received) == heads
    }

    lemma WaitingInLine()
      requires Valid() && phase == Line && b.pos == b.last
      ensures Core() && ParseHead(window).Incomplete? && Requests(past + window) == heads
    {
      LineWaits(window, r.lineState, r.Marks());
      NoRequestWithheld(past, window);
    }

    lemma WaitingInHeaders()
      requires Valid() && phase == Headers && b.pos == b.last
      ensures Core() && ParseHead(window).Incomplete? && Requests(past + window) == heads
    {
      HeadersWait(window, r.Marks(), MadeStrings(), lineK, fields, lo, r.headerState, r.Field());
      NoRequestWithheld(past, window);
    }

    /** Parses what there is of the line; false when there is nothing more to do for this event. */
    method TurnLine() returns (again: bool)
      requires Valid() && phase == Line && b.pos < b.last
      modifies this, b, b.data, r, index, socket`received, socket`ready, socket`failures, heap`failures
      ensures Valid() && Continues() && ClosedForCause()
      ensures again ==> phase == Line && b.pos == b.last == old(b.last) < BUDGET && r == old(r) && index == old(index)
      ensures !again ==> AtRest() && phase != Idle
    {
      hide ReadingHeaders, HandlingHead, LineParsed, InHeaderPhase, ParseHead, Requests, Consumed;
      again := false;
      var code := ParseLine();
      if code == L.Ok {
        FinishLine();
        if phase == Headers {
          ProcessRequestHeaders();
        }
      } else if code != L.Again {
        CloseMalformed();
      } else {
        LineWaits(window, r.lineState, r.Marks());
        if b.pos == b.data.Length {
          CloseMalformed();
        } else {
          again := true;
        }
      }
    }

    /** ehd_http_process_request_line. */
    method ProcessRequestLine()
      requires Valid() && phase == Line
      modifies this, b, b.data, r, index, socket`received, socket`ready, socket`failures, heap`failures
      ensures Valid() && Continues() && AtRest() && ClosedForCause() && phase != Idle
    {
      hide ReadingLine, ReadingHeaders, HandlingHead, ParseHead, Requests, Consumed;
      var again := true;
      while again
        invariant Valid() && Continues() && ClosedForCause()
        invariant again ==> phase == Line && r == old(r) && index == old(index)
        invariant !again ==> AtRest() && phase != Idle
        decreases again, BUDGET - b.last, b.last - b.pos
      {
        again := ReadRequestHeader();
        if again {
          again := TurnLine();
        } else if phase == Line {
          WaitingInLine();
        }
      }
    }

    /** Before a header line is parsed again: a full buffer closes the connection, else more is read. */
    method RefillHeaders() returns (have: bool)
      requires Valid() && phase == Headers
      modifies this, b, b.data, socket`received, socket`ready, socket`failures
      ensures Valid() && Continues() && ClosedForCause() && r == old(r) && index == old(index)
      ensures b.last >= old(b.last) && b.pos == old(b.pos)
      ensures have ==> phase == Headers && b.pos < b.last
      ensures have && old(b.pos == b.last) ==> b.last > old(b.last)
      ensures !have ==> AtRest() && phase != Idle && phase != Line
    {
      hide ReadingLine, ReadingHeaders, HandlingHead, ParseHead, Requests, Consumed;
      if b.pos == b.data.Length {
        WaitingInHeaders();
        CloseMalformed();
        return false;
      }
      have := ReadRequestHeader();
      if !have && phase == Headers {
        WaitingInHeaders();
      }
    }

    /** Parses one header line, or what there is of it; false when there is nothing more to do for this event. */
    method TurnHeaders() returns (rc: L.Code, again: bool)
      requires Valid() && phase == Headers
      modifies this, b, b.data, r, index, heap`failures
      ensures Valid() && Continues() && ClosedForCause()
      ensures again ==>
        && phase == Headers && r == old(r) && index == old(index) && b.last == old(b.last)
        && if rc == L.Again then b.pos == b.last else b.pos > old(b.pos)
      ensures !again ==> AtRest() && phase != Idle
    {
      hide ReadingHeaders, ReadingLine, HandlingHead, HeadParsed, HeaderParsed, ParseHead, Requests, Consumed;
      again := false;
      rc := ParseHeader();
      if rc == L.Ok {
        again := heap.Allocate();
        if again {
          PushHeader();
        } else {
          CloseLost();
        }
      } else if rc == L.HeaderDone {
        StartHandling();
      } else if rc == L.Again {
        again := true;
      } else {
        CloseMalformed();
      }
    }

    /** ehd_http_process_request_headers. */
    method ProcessRequestHeaders()
      requires Valid() && phase == Headers
      modifies this, b, b.data, r, index, socket`received, socket`ready, socket`failures, heap`failures
      ensures Valid() && Continues() && AtRest() && ClosedForCause() && phase != Idle
    {
      hide ReadingHeaders, ReadingLine, HandlingHead, ParseHead, Requests, Consumed;
      var rc, again := L.Again, true;
      while again
        invariant Valid() && Continues() && ClosedForCause()
        invariant again ==> phase == Headers && r == old(r) && index == old(index)
        invariant !again ==> AtRest() && phase != Idle
        decreases again, BUDGET - b.last, b.last - b.pos, if rc == L.Again then 0 else 1
      {
        if rc == L.Again {
          again := RefillHeaders();
        }
        if again {
          rc, again := TurnHeaders();
        }
      }
    }

    // ----- the events of a connection

    method NewRequest()
      requires Valid() && phase == Idle
      modifies this`r, this`phase
      ensures Valid() && phase == Line && fresh(r)
    {
      hide L.Run, ParseHead, Requests, Consumed;
      r := new Request();
      phase := Line;
      assert ReadingLine();
    }

    /** ehd_http_init_request, on the first bytes of a request. */
    method InitRequest()
      requires Valid() && phase == Idle
      modifies this, b, b.data, r, index, socket`received, socket`ready, socket`failures, heap`failures
      ensures Valid() && Continues() && AtRest() && ClosedForCause() && phase != Idle
    {
      var ok := heap.Allocate();
      if !ok {
        CloseLost();
        return;
      }
      NewRequest();
      ProcessRequestLine();
    }

    /**
     The read event: the event loop marks the socket and runs whichever read handler is installed.
     A connection that was open is closed only because of its input, or because the socket or the
     memory failed during this event, and then it always is.
     */
    method OnReadable()
      requires Valid()
      modifies this, b, b.data, r, index, socket`received, socket`ready, socket`failures, heap`failures
      ensures Valid() && Continues() && AtRest() && phase != Idle
      ensures old(phase) != Closed ==> ClosedForCause()
    {
      socket.BecomeReadable();
      match phase {
        case Idle => InitRequest();
        case Line => ProcessRequestLine();
        case Headers => ProcessRequestHeaders();
        case Handling =>
        case Closed =>
      }
    }

    /**
     The response has been sent: the unparsed bytes move to the start of the buffer and the
     connection waits for the next request.
     */
    method KeepAlive()
      requires Valid() && phase == Handling
      modifies this`phase, this`past, this`window, b, b.data
      ensures Valid() && phase == Idle && heads == old(heads)
      ensures past + window == old(past + window) && window == old(window[b.pos..])
      ensures b.Text() == old(b.Text()[b.pos..])
    {
      hide ReadingLine, ReadingHeaders, HandlingHead, ParseHead, Requests, Consumed;
      HandledIsPast();
      b.Compact();
      past, window := past + window[..old(b.pos)], window[old(b.pos)..];
      phase := Idle;
    }

    /** The response could not be sent, or the handler gave up: the connection is closed. */
    method Abandon()
      requires Valid() && phase == Handling
      modifies this`phase, this`past, this`window, this`malformed
      ensures Valid() && phase == Closed && heads == old(heads) && past + window == old(past + window)
    {
      hide ReadingLine, ReadingHeaders, HandlingHead, ParseHead, Requests, Consumed;
      HandledIsPast();
      phase, malformed := Closed, false;
      past, window := past + window[..b.pos], window[b.pos..];
    }

    /** The head being handled is what the reference has next. */
    lemma HandlingIsNext()
      requires Valid() && phase == Handling
      ensures |window| == b.last <= BUDGET && Consumed(past) == |past|
      ensures ParseHead(window).Whole? && ParseHead(window).k == b.pos
      ensures heads == Requests(past) + [ParseHead(window).head]
    {
      hide ParseHead, Requests, Consumed, FieldsAt, NamesAt;
      assert heads == heads[..|heads| - 1] + [heads[|heads| - 1]];
    }

    /** The head being handled is the last request of the stream up to its end. */
    lemma HandledIsPast()
      requires Valid() && phase == Handling
      ensures |window| == b.last && Requests(past + window[..b.pos]) == heads
      ensures Consumed(past + window[..b.pos]) == |past + window[..b.pos]| && b.pos > 0
      ensures b.Text()[b.pos..] == window[b.pos..]
      ensures past + window[..b.pos] + window[b.pos..] == past + window
    {
      hide ParseHead, Requests, Consumed, FieldsAt, NamesAt;
      HandlingIsNext();
      RequestFollows(past, window);
      assert window[..b.pos] + window[b.pos..] == window;
    }
  }

  lemma FieldsInside(w: bytes, fields: seq<H.FieldMarks>, lineK: nat, lo: nat, t: bytes, at: Ptr)
    requires at < lineK <= lo <= |w| && Ordered(fields, lineK, lo)
    ensures WithNuls(w + t, at, fields) == WithNuls(w, at, fields) + t
    ensures NamesAt(w + t, fields) == NamesAt(w, fields)
  {
    forall f | f in fields
      ensures f.nameEnd < |w| && f.end < |w|
    {
      var j :| 0 <= j < |fields| && fields[j] == f;
      assert RequestHead.InLine(f, lineK, lo);
    }
    WithNulsAppend(w, t, at, fields);
    NamesGrow(w, t, fields);
  }

  // ----- what holds of every run

  /**
   At any moment of any run, the requests parsed are a prefix of those that the bytes delivered by
   the socket hold, whatever it delivers next.
   */
  lemma RequestsArePrefix(c: Connection, t: bytes)
    requires c.Valid()
    ensures c.heads <= Requests(c.socket.received + t)
  {
    hide ParseHead, Requests, Consumed, Connection.ReadingLine, Connection.ReadingHeaders, Connection.HandlingHead;
    if c.phase == Handling {
      c.HandlingIsNext();
      RequestFollows(c.past, c.window);
    } else {
      RequestsGrow(c.past, c.window + t);
      assert c.past + (c.window + t) == c.past + c.window + t;
    }
  }

  /** A connection closed because of its input has parsed every request the socket will ever deliver. */
  lemma MalformedIsFinal(c: Connection, t: bytes)
    requires c.Valid() && c.phase == Closed && c.malformed
    ensures c.heads == Requests(c.socket.received + t)
  {
  }

  /** Nothing delivered is left to parse: the connection waits for more, or gave up on its input. */
  ghost predicate Settled(c: Connection)
    reads c, c.b, c.b.data, c.r, c.index, c.socket
  {
    && c.Valid()
    && (((c.phase == Line || c.phase == Headers) && c.b.pos == c.b.last) || (c.phase == Closed && c.malformed))
  }

  /** A settled connection has parsed exactly the requests of what its socket delivered. */
  lemma SettledHasAll(c: Connection)
    requires Settled(c)
    ensures c.heads == Requests(c.socket.received)
  {
    hide ParseHead, Requests, Consumed, Connection.ReadingLine, Connection.ReadingHeaders, Connection.HandlingHead;
    if c.phase == Line {
      c.WaitingInLine();
    } else if c.phase == Headers {
      c.WaitingInHeaders();
    } else {
      MalformedIsFinal(c, []);
      assert c.socket.received + [] == c.socket.received;
    }
  }

  /**
   How the input was cut into chunks never matters: two settled connections whose sockets delivered
   the same bytes have parsed the same requests, namely those of the bytes, and when one socket
   delivered more, its requests begin with those of the other.
   */
  lemma ChunkingDoesNotMatter(c: Connection, d: Connection, t: bytes)
    requires Settled(c) && Settled(d) && c.socket.received + t == d.socket.received
    ensures c.heads == Requests(c.socket.received) && d.heads == Requests(d.socket.received)
    ensures c.heads <= d.heads && (t == [] ==> c.heads == d.heads)
  {
    hide ParseHead, Requests, Consumed, Settled;
    SettledHasAll(c);
    SettledHasAll(d);
    assert c.socket.received + [] == c.socket.received;
    RequestsGrow(c.socket.received, t);
  }

  /** The handler finds the strings and headers that the reference gives, in spite of the NULs in the buffer. */
  lemma HandlerSeesTheHead(c: Connection)
    requires c.Valid() && c.phase == Handling
    ensures c.heads != [] && ParseHead(c.window) == Whole(c.heads[|c.heads| - 1], c.b.pos)
    ensures FieldsAt(c.b.Text(), c.fields) == c.heads[|c.heads| - 1].headers
    ensures c.index.Indexes(HeaderNames(c.heads[|c.heads| - 1].headers))
    ensures (CString(c.unparsedUri), c.uriLen, CString(c.uri), CopiedString(c.exten))
         == (c.heads[|c.heads| - 1].unparsedUri, c.heads[|c.heads| - 1].uriLen,
             c.heads[|c.heads| - 1].uri, c.heads[|c.heads| - 1].exten)
  {
  }
}
