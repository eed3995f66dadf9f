/** The request object whose fields the two parsers update in place, and the input buffer they read. */
module HttpRequest {
  import opened Bytes
  import opened Terminated
  import L = RequestLine
  import H = HeaderLine

  /** A buffer: bytes [pos, last) have been received and not yet parsed. */
  class Buffer {
    const data: array<byte>
    var pos: nat
    var last: nat

    constructor (size: nat)
      ensures fresh(data) && data.Length == size && pos == last == 0
    {
      data := new byte[size];
      pos, last := 0, 0;
    }

    predicate Valid()
      reads this
    {
      pos <= last <= data.Length
    }

    /** What recv does to the buffer: the chunk lands after the bytes already there. */
    method Receive(text: bytes)
      requires Valid() && |text| <= data.Length - last
      modifies this`last, data
      ensures Valid() && last == old(last) + |text| && Text() == old(Text()) + text
    {
      forall i | 0 <= i < |text| {
        data[last + i] := text[i];
      }
      last := last + |text|;
    }

    /** Moves the unparsed bytes to the start, one at a time, over the bytes that are done with. */
    method Compact()
      requires Valid()
      modifies this, data
      ensures Valid() && pos == 0 && last == old(last) - old(pos)
      ensures Text() == old(Text()[pos..])
    {
      var i := 0;
      while i < last - pos
        invariant 0 <= i <= last - pos && pos == old(pos) && last == old(last)
        invariant forall k :: 0 <= k < i ==> data[k] == old(data[pos + k])
        invariant forall k :: i <= k < data.Length ==> data[k] == old(data[k])
      {
        data[i] := data[pos + i];
        i := i + 1;
      }
      last := i;
      pos := 0;
    }

    /** Terminates in place a string that ends at i. */
    method Terminate(i: nat)
      requires Valid() && i < last
      modifies data
      ensures Text() == PutNul(old(Text()), i)
    {
      data[i] := NUL;
    }

    /** The bytes received since the buffer was last emptied. */
    function Text(): bytes
      requires Valid()
      reads this, data
    {
      data[..last]
    }
  }

  class Request {
    // r->state, as the request-line parser and as the header-line parser read it
    var lineState: L.LineState
    var headerState: H.HeaderState

    var requestStart: Ptr
    var methodEnd: Ptr
    var verb: nat
    var schemaStart: Ptr
    var schemaEnd: Ptr
    var hostStart: Ptr
    var hostEnd: Ptr
    var portEnd: Ptr
    var uriStart: Ptr
    var uriEnd: Ptr
    var argsStart: Ptr
    var uriExt: Ptr
    var complexUri: bool
    var httpMajor: nat
    var httpMinor: nat
    var requestEnd: Ptr
    var httpVersion: nat

    var headerNameStart: Ptr
    var headerNameEnd: Ptr
    var headerStart: Ptr
    var headerEnd: Ptr

    constructor ()
      ensures lineState == L.Start && headerState == H.Start && Marks() == L.NO_MARKS && Field() == H.NO_FIELD
    {
      lineState, headerState := L.Start, H.Start;
      requestStart, methodEnd, verb := NULL, NULL, 0;
      schemaStart, schemaEnd, hostStart, hostEnd, portEnd := NULL, NULL, NULL, NULL, NULL;
      uriStart, uriEnd, argsStart, uriExt, complexUri := NULL, NULL, NULL, NULL, false;
      httpMajor, httpMinor, requestEnd, httpVersion := 0, 0, NULL, 0;
      headerNameStart, headerNameEnd, headerStart, headerEnd := NULL, NULL, NULL, NULL;
    }

    function Marks(): L.Marks
      reads this
    {
      L.Marks(L.MethodPart(requestStart, methodEnd, verb),
              L.AuthorityPart(schemaStart, schemaEnd, hostStart, hostEnd, portEnd),
              L.TargetPart(uriStart, uriEnd, argsStart, uriExt, complexUri),
              L.EndPart(httpMajor, httpMinor, requestEnd))
    }

    function Field(): H.FieldMarks
      reads this
    {
      H.FieldMarks(headerNameStart, headerNameEnd, headerStart, headerEnd)
    }

    // ----- the switch of the request-line parser, on the byte just read, at p - 1

    method TurnFront(b: Buffer, p: nat, state0: L.LineState) returns (code: L.Code, state: L.LineState)
      requires b.Valid() && 0 < p <= b.last
      requires state0 in {L.Start, L.Method, L.SpaceAfterMethod, L.SpacesBeforeUri}
      requires L.Resumable(state0, Marks(), p - 1)
      modifies this`requestStart, this`methodEnd, this`verb, this`schemaStart, this`uriStart
      ensures L.Step(state0, old(Marks()), b.Text(), p - 1)
           == if code == L.Ok then L.Go(state, Marks()) else L.Fail(code, Marks())
    {
      var ch := b.data[p - 1];
      code, state := L.Ok, state0;
      match state0 {
        case Start =>
          requestStart := p - 1;
          if ch == CR || ch == LF {
          } else if !IsUpper(ch) {
            code := L.InvalidMethod;
          } else {
            state := L.Method;
          }
        case Method =>
          if ch == SP {
            methodEnd := p - 1;
            var m := requestStart;
            if methodEnd - m == 3 {
              if b.data[m] == 71 && b.data[m + 1] == 69 && b.data[m + 2] == 84 {
                verb := L.GET;
              }
            } else if methodEnd - m == 4 {
              if b.data[m] == 80 && b.data[m + 1] == 79 && b.data[m + 2] == 84 && b.data[m + 3] == 84 {
                verb := L.POST;
              } else if b.data[m] == 72 && b.data[m + 1] == 69 && b.data[m + 2] == 65 && b.data[m + 3] == 68 {
                verb := L.HEAD;
              }
            }
            state := L.SpacesBeforeUri;
          } else if !IsUpper(ch) {
            code := L.InvalidMethod;
          }
        case SpaceAfterMethod =>
          if ch == SP {
            state := L.SpacesBeforeUri;
          } else {
            code := L.InvalidMethod;
          }
        case SpacesBeforeUri =>
          if ch == SLASH {
            uriStart := p - 1;
            state := L.AfterSlashInUri;
          } else if ch == SP {
          } else if IsAlpha(ch) {
            schemaStart := p - 1;
            state := L.Schema;
          } else {
            code := L.InvalidRequest;
          }
        case _ =>
      }
    }

    method TurnAuthority(b: Buffer, p: nat, state0: L.LineState) returns (code: L.Code, state: L.LineState)
      requires b.Valid() && 0 < p <= b.last
      requires state0 in {L.Schema, L.SchemaSlash, L.SchemaSlashSlash, L.Host, L.Port}
      modifies this`schemaEnd, this`hostStart, this`hostEnd, this`portEnd, this`uriStart
      ensures L.Step(state0, old(Marks()), b.Text(), p - 1)
           == if code == L.Ok then L.Go(state, Marks()) else L.Fail(code, Marks())
    {
      var ch := b.data[p - 1];
      code, state := L.Ok, state0;
      match state0 {
        case Schema =>
          if ch == COLON {
            schemaEnd := p - 1;
            state := L.SchemaSlash;
          } else if !IsAlpha(ch) {
            code := L.InvalidRequest;
          }
        case SchemaSlash =>
          if ch == SLASH {
            state := L.SchemaSlashSlash;
          } else {
            code := L.InvalidRequest;
          }
        case SchemaSlashSlash =>
          if ch == SLASH {
            hostStart := p - 1;
            state := L.Host;
          } else {
            code := L.InvalidRequest;
          }
        case Host =>
          if ch == COLON {
            hostEnd := p - 1;
            state := L.Port;
          } else if ch == SLASH {
            hostEnd := p - 1;
            uriStart := p - 1;
            state := L.AfterSlashInUri;
          } else if !L.IsHostByte(ch) {
            code := L.InvalidRequest;
          }
        case Port =>
          if ch == SLASH {
            portEnd := p - 1;
            uriStart := p - 1;
            state := L.AfterSlashInUri;
          } else if ch < ZERO && ch > NINE {
            code := L.InvalidRequest;
          }
        case _ =>
      }
    }

    method TurnTarget(b: Buffer, p: nat, state0: L.LineState) returns (state: L.LineState)
      requires b.Valid() && 0 < p <= b.last
      requires state0 in {L.AfterSlashInUri, L.CheckUri, L.Uri}
      modifies this`uriEnd, this`httpMinor, this`complexUri, this`argsStart, this`uriExt
      ensures L.Step(state0, old(Marks()), b.Text(), p - 1) == L.Go(state, Marks())
    {
      var ch := b.data[p - 1];
      state := state0;
      if ch == CR {
        uriEnd := p - 1;
        httpMinor := 9;
        state := L.AlmostDone;
      } else if ch == LF {
        uriEnd := p - 1;
        httpMinor := 9;
        state := L.Done;
      } else if ch == SP {
        uriEnd := p - 1;
        state := L.Http09;
      } else {
        match state0 {
          case AfterSlashInUri =>
            if ch == DOT || ch == PERCENT {
              complexUri := true;
              state := L.Uri;
            } else if ch == SLASH {
              complexUri := true;
            } else if ch == QUESTION {
              argsStart := p;
              state := L.Uri;
            } else {
              state := L.CheckUri;
            }
          case CheckUri =>
            if ch == DOT {
              uriExt := p;
            } else if ch == SLASH {
              uriExt := NULL;
              state := L.AfterSlashInUri;
            } else if ch == PERCENT {
              complexUri := true;
              state := L.Uri;
            } else if ch == QUESTION {
              argsStart := p;
              state := L.Uri;
            }
          case _ =>
        }
      }
    }

    /** `case x: state = next; break; default: return EHD_HTTP_PARSE_INVALID_REQUEST;` */
    static method Literal(ch: byte, want: byte, state0: L.LineState, next: L.LineState)
      returns (code: L.Code, state: L.LineState)
      ensures ch == want ==> code == L.Ok && state == next
      ensures ch != want ==> code == L.InvalidRequest && state == state0
    {
      if ch == want {
        code, state := L.Ok, next;
      } else {
        code, state := L.InvalidRequest, state0;
      }
    }

    method TurnVersion(b: Buffer, p: nat, state0: L.LineState) returns (code: L.Code, state: L.LineState)
      requires b.Valid() && 0 < p <= b.last
      requires state0 in {L.Http09, L.HttpH, L.HttpHT, L.HttpHTT, L.HttpHTTP,
                          L.FirstMajorDigit, L.MajorDigit, L.FirstMinorDigit, L.MinorDigit, L.AlmostDone}
      modifies this`httpMajor, this`httpMinor, this`requestEnd
      ensures L.Step(state0, old(Marks()), b.Text(), p - 1)
           == if code == L.Ok then L.Go(state, Marks()) else L.Fail(code, Marks())
    {
      var ch := b.data[p - 1];
      code, state := L.Ok, state0;
      match state0 {
        case Http09 =>
          if ch == SP {
          } else if ch == CR {
            httpMinor := 9;
            state := L.AlmostDone;
          } else if ch == LF {
            httpMinor := 9;
            state := L.Done;
          } else {
            code, state := Literal(ch, 72, state0, L.HttpH);
          }
        case HttpH => code, state := Literal(ch, 84, state0, L.HttpHT);
        case HttpHT => code, state := Literal(ch, 84, state0, L.HttpHTT);
        case HttpHTT => code, state := Literal(ch, 80, state0, L.HttpHTTP);
        case HttpHTTP => code, state := Literal(ch, SLASH, state0, L.FirstMajorDigit);
        case FirstMajorDigit =>
          if ch < 49 || ch > NINE {
            code := L.InvalidRequest;
          } else {
            httpMajor := ch - ZERO;
            state := L.MajorDigit;
          }
        case MajorDigit =>
          if ch == DOT {
            state := L.FirstMinorDigit;
          } else if ch < ZERO || ch > NINE {
            code := L.InvalidRequest;
          } else {
            httpMajor := (httpMajor * 10 + ch - ZERO) % L.UINT;
          }
        case FirstMinorDigit =>
          if ch < ZERO || ch > NINE {
            code := L.InvalidRequest;
          } else {
            httpMinor := ch - ZERO;
            state := L.MinorDigit;
          }
        case MinorDigit =>
          if ch == CR {
            state := L.AlmostDone;
          } else if ch == LF {
            state := L.Done;
          } else if ch < ZERO || ch > NINE {
            code := L.InvalidRequest;
          } else {
            httpMinor := (httpMinor * 10 + ch - ZERO) % L.UINT;
          }
        case AlmostDone =>
          requestEnd := p - 2;
          code, state := Literal(ch, LF, state0, L.Done);
        case _ =>
      }
    }

    method TurnLine(b: Buffer, p: nat, state0: L.LineState) returns (code: L.Code, state: L.LineState)
      requires b.Valid() && 0 < p <= b.last && !state0.Done? && L.Resumable(state0, Marks(), p - 1)
      modifies this
      ensures L.Step(state0, old(Marks()), b.Text(), p - 1)
           == if code == L.Ok then L.Go(state, Marks()) else L.Fail(code, Marks())
      ensures lineState == old(lineState) && headerState == old(headerState) && Field() == old(Field())
    {
      code := L.Ok;
      if state0 in {L.Start, L.Method, L.SpaceAfterMethod, L.SpacesBeforeUri} {
        code, state := TurnFront(b, p, state0);
      } else if state0 in {L.Schema, L.SchemaSlash, L.SchemaSlashSlash, L.Host, L.Port} {
        code, state := TurnAuthority(b, p, state0);
      } else if state0 in {L.AfterSlashInUri, L.CheckUri, L.Uri} {
        state := TurnTarget(b, p, state0);
      } else {
        code, state := TurnVersion(b, p, state0);
      }
    }

    /** The code after the loop, for a line that is complete. */
    method FinishLine(p: nat) returns (code: L.Code)
      modifies this`requestEnd, this`httpVersion, this`lineState
      ensures lineState == L.Start
      ensures Marks() == var m := old(Marks()); if m.end.at == NULL then m.(end := m.end.(at := p - 1)) else m
      ensures code == L.FinalCode(Marks()) && httpVersion == L.Version(Marks())
    {
      if requestEnd == NULL {
        requestEnd := p - 1;
      }
      httpVersion := (httpMajor * 1000 + httpMajor) % L.UINT;
      lineState := L.Start;
      code := if httpVersion == 9 && verb != L.GET then L.Invalid09Method else L.Ok;
    }

    /** Parses the request line from b.pos; resumes where the last call stopped. */
    method ParseRequestLine(b: Buffer) returns (code: L.Code)
      requires b.Valid() && !lineState.Done? && L.Resumable(lineState, Marks(), b.pos)
      modifies this, b`pos
      ensures b.Valid() && headerState == old(headerState) && Field() == old(Field())
      ensures match L.Run(old(lineState), old(Marks()), b.Text(), old(b.pos))
        case More(q, m) => code == L.Again && lineState == q && Marks() == m && b.pos == b.last
        case Finished(m, k) => code == L.FinalCode(m) && lineState == L.Start && Marks() == m && b.pos == k
        case Bad(c, m) => code == c && lineState == old(lineState) && Marks() == m && b.pos == old(b.pos)
    {
      var state := lineState;
      var p := b.pos;
      ghost var s := b.Text();
      ghost var whole := L.Run(lineState, Marks(), s, b.pos);
      while p < b.last && !state.Done?
        invariant old(b.pos) <= p <= b.last && b.pos == old(b.pos)
        invariant lineState == old(lineState) && headerState == old(headerState) && Field() == old(Field())
        invariant L.Resumable(state, Marks(), p)
        invariant L.Run(state, Marks(), s, p) == whole
        decreases b.last - p
      {
        p := p + 1;
        L.RunTurn(state, Marks(), s, p - 1);
        code, state := TurnLine(b, p, state);
        if code != L.Ok {
          return;
        }
      }
      b.pos := p;
      L.RunEnd(state, Marks(), s, p);
      if state.Done? {
        code := FinishLine(p);
      } else {
        lineState := state;
        code := L.Again;
      }
    }

    // ----- the header-line parser

    method TurnHeader(ch: byte, p: nat, state0: H.HeaderState) returns (ok: bool, state: H.HeaderState)
      requires 0 < p && !H.Ended(state0)
      modifies this`headerNameStart, this`headerNameEnd, this`headerStart, this`headerEnd
      ensures H.Step(state0, old(Field()), ch, p - 1) == if ok then H.Go(state, Field()) else H.Fail(Field())
    {
      ok, state := true, state0;
      match state0 {
        case Start =>
          if ch == CR {
            headerEnd := p - 1;
            state := H.HeaderAlmostDone;
          } else if ch == LF {
            headerEnd := p - 1;
            state := H.HeaderDone;
          } else {
            state := H.Name;
            headerNameStart := p - 1;
            ok := H.IsNameByte(ch);
          }
        case Name =>
          if ch == COLON {
            headerNameEnd := p - 1;
            state := H.SpaceBeforeValue;
          } else {
            ok := H.IsNameByte(ch);
          }
        case SpaceBeforeValue =>
          if ch == SP {
          } else if ch == CR {
            headerStart, headerEnd := p - 1, p - 1;
            state := H.AlmostDone;
          } else if ch == LF {
            headerStart, headerEnd := p - 1, p - 1;
            state := H.Done;
          } else {
            headerStart := p - 1;
            state := H.Value;
          }
        case Value =>
          if ch == SP {
            headerEnd := p - 1;
            state := H.SpaceAfterValue;
          } else if ch == CR {
            headerEnd := p - 1;
            state := H.AlmostDone;
          } else if ch == LF {
            headerEnd := p - 1;
            state := H.Done;
          }
        case SpaceAfterValue =>
          if ch == SP {
          } else if ch == CR {
            state := H.AlmostDone;
          } else if ch == LF {
            state := H.Done;
          } else {
            state := H.Value;
          }
        case AlmostDone =>
          if ch == LF {
            state := H.Done;
          } else {
            ok := false;
          }
        case HeaderAlmostDone =>
          if ch == LF {
            state := H.HeaderDone;
          } else {
            ok := false;
          }
        case _ =>
      }
    }

    /** Parses one header line from b.pos; resumes where the last call stopped. */
    method ParseHeaderLine(b: Buffer) returns (code: L.Code)
      requires b.Valid() && !H.Ended(headerState)
      modifies this, b`pos
      ensures b.Valid() && lineState == old(lineState) && Marks() == old(Marks())
      ensures match H.Run(old(headerState), old(Field()), b.Text(), old(b.pos))
        case More(q, m) => code == L.Again && headerState == q && Field() == m && b.pos == b.last
        case Field(m, k) => code == L.Ok && headerState == H.Start && Field() == m && b.pos == k
        case End(m, k) => code == L.HeaderDone && headerState == H.Start && Field() == m && b.pos == k
        case Bad(m) =>
          code == L.InvalidHeader && headerState == old(headerState) && Field() == m && b.pos == old(b.pos)
    {
      var state := headerState;
      var p := b.pos;
      ghost var whole := H.Run(headerState, Field(), b.Text(), b.pos);
      while p < b.last && !state.Done? && !state.HeaderDone?
        invariant old(b.pos) <= p <= b.last && b.pos == old(b.pos)
        invariant lineState == old(lineState) && headerState == old(headerState) && Marks() == old(Marks())
        invariant H.Run(state, Field(), b.Text(), p) == whole
        decreases b.last - p
      {
        var ch := b.data[p];
        p := p + 1;
        var ok;
        ok, state := TurnHeader(ch, p, state);
        if !ok {
          return L.InvalidHeader;
        }
      }
      b.pos := p;
      if state.Done? {
        headerState := H.Start;
        code := L.Ok;
      } else if state.HeaderDone? {
        headerState := H.Start;
        code := L.HeaderDone;
      } else {
        headerState := state;
        code := L.Again;
      }
    }
  }
}
