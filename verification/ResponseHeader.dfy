/** The response printer: status line, headers in list order, blank line, in one fixed buffer. */
module ResponseHeader {
  import opened Bytes
  import opened RequestLineGrammar
  import opened HeaderLine
  import opened HeaderBlock

  datatype Entry = Entry(key: bytes, value: bytes)

  const BUFFER_SIZE: nat := 8192

  const CRLF: bytes := [CR, LF]

  const HTTP_1_1: bytes := [72, 84, 84, 80, 47, 49, 46, 49, 32]

  /** Server: ehttpd/0.0.1 */
  const SERVER := Entry([83, 101, 114, 118, 101, 114], [101, 104, 116, 116, 112, 100, 47, 48, 46, 48, 46, 49])

  /** Content-Length */
  const CONTENT_LENGTH: bytes := [67, 111, 110, 116, 101, 110, 116, 45, 76, 101, 110, 103, 116, 104]

  // ----- what is meant to be printed

  function Decimal(n: nat): (r: bytes)
    ensures r != [] && forall b :: b in r ==> IsDigit(b)
  {
    if n < 10 then [n + ZERO] else Decimal(n / 10) + [n % 10 + ZERO]
  }

  function StatusLine(status: nat, text: Option<bytes>): bytes {
    HTTP_1_1 + Decimal(status) + (if text.Some? then [SP] + CString(text.value) else []) + CRLF
  }

  function FieldBytes(h: Entry): bytes {
    h.key + [COLON, SP] + h.value + CRLF
  }

  function Lines(hs: seq<Entry>): bytes {
    if hs == [] then [] else FieldBytes(hs[0]) + Lines(hs[1..])
  }

  /** The complete response head. */
  function Head(status: bytes, hs: seq<Entry>): bytes {
    status + Lines(hs) + CRLF
  }

  /** The number that a run of digits stands for. */
  function Value(ds: bytes): int {
    if ds == [] then 0 else Value(ds[..|ds| - 1]) * 10 + (ds[|ds| - 1] - ZERO)
  }

  /** The digits printed for a length are those of the length. */
  lemma {:induction false} DecimalValue(n: nat)
    ensures Value(Decimal(n)) == n
  {
    if n < 10 {
      assert Value([]) == 0;
      assert Decimal(n)[..0] == [];
    } else {
      DecimalValue(n / 10);
      assert Decimal(n)[..|Decimal(n)| - 1] == Decimal(n / 10);
    }
  }

  /** No zero stands before another digit. */
  lemma {:induction false} NoLeadingZero(n: nat)
    ensures Decimal(n)[0] == ZERO ==> n == 0 && |Decimal(n)| == 1
  {
    if n >= 10 {
      NoLeadingZero(n / 10);
      assert Decimal(n)[0] == Decimal(n / 10)[0];
    }
  }

  /** The status in digits, with no zero before another digit. */
  predicate Writes(digits: bytes, n: nat) {
    && digits != [] && (forall b | b in digits :: IsDigit(b)) && Value(digits) == n
    && (digits[0] == '0' as int ==> |digits| == 1)
  }

  /** The status line: protocol, status in digits, and the text up to its first NUL, if there is a text. */
  lemma StatusLineIs(status: nat, text: Option<bytes>) returns (digits: bytes)
    ensures Writes(digits, status)
    ensures text.None? ==> StatusLine(status, text) == Ascii("HTTP/1.1 ") + digits + Ascii("\r\n")
    ensures text.Some? ==>
      StatusLine(status, text) == Ascii("HTTP/1.1 ") + digits + Ascii(" ") + CString(text.value) + Ascii("\r\n")
  {
    digits := Decimal(status);
    DecimalValue(status);
    NoLeadingZero(status);
    assert HTTP_1_1 == Ascii("HTTP/1.1 ") && CRLF == Ascii("\r\n") && [SP] == Ascii(" ");
    if text.None? {
      assert HTTP_1_1 + digits + [] + CRLF == HTTP_1_1 + digits + CRLF;
    } else {
      var t := CString(text.value);
      assert HTTP_1_1 + digits + ([SP] + t) + CRLF == HTTP_1_1 + digits + [SP] + t + CRLF;
    }
  }

  /** Its first line break is its end, unless the text has one. */
  lemma StatusLineEnds(status: nat, text: Option<bytes>)
    requires text.Some? ==> CR !in CString(text.value) && LF !in CString(text.value)
    ensures var line := StatusLine(status, text);
      |line| > 2 && forall j | 0 <= j < |line| - 2 :: line[j] != CR && line[j] != LF
  {
    var digits, t := Decimal(status), if text.Some? then [SP] + CString(text.value) else [];
    var head := HTTP_1_1 + digits + t;
    assert StatusLine(status, text) == head + CRLF;
    assert CR !in HTTP_1_1 && LF !in HTTP_1_1 && CR !in digits && LF !in digits && CR !in t && LF !in t;
    assert CR !in head && LF !in head;
    forall j | 0 <= j < |head| ensures (head + CRLF)[j] != CR && (head + CRLF)[j] != LF {
      assert head[j] in head;
    }
  }

  // ----- what is printed when the buffer may be too small

  function EmitField(out: bytes, h: Entry, cap: nat): bytes {
    if cap - |out| > |h.key| + 2 then
      var named := out + h.key + [COLON, SP];
      if cap - |named| > |h.value| + 2 then named + h.value + CRLF else named
    else out
  }

  function EmitLines(out: bytes, hs: seq<Entry>, cap: nat): bytes
    decreases hs
  {
    if hs == [] then out else EmitLines(EmitField(out, hs[0], cap), hs[1..], cap)
  }

  function Emit(out: bytes, hs: seq<Entry>, cap: nat): bytes {
    var r := EmitLines(out, hs, cap);
    if cap - |r| >= 2 then r + CRLF else r
  }

  lemma {:induction false} EmitStaysInside(out: bytes, hs: seq<Entry>, cap: nat)
    requires |out| <= cap
    ensures |EmitLines(out, hs, cap)| <= cap
    decreases hs
  {
    if hs != [] {
      EmitStaysInside(EmitField(out, hs[0], cap), hs[1..], cap);
    }
  }

  lemma {:induction false} EmitFits(out: bytes, hs: seq<Entry>, cap: nat)
    requires |Head(out, hs)| <= cap
    ensures EmitLines(out, hs, cap) == out + Lines(hs)
    ensures Emit(out, hs, cap) == Head(out, hs)
    decreases hs
  {
    if hs == [] {
      assert out + [] == out;
    } else {
      var out' := out + FieldBytes(hs[0]);
      assert out' + Lines(hs[1..]) == out + Lines(hs);
      assert EmitField(out, hs[0], cap) == out';
      EmitFits(out', hs[1..], cap);
    }
  }

  /** What is in the buffer stays. */
  lemma {:induction false} EmitAppends(out: bytes, hs: seq<Entry>, cap: nat)
    ensures out <= EmitLines(out, hs, cap) && out <= Emit(out, hs, cap)
    decreases hs
  {
    if hs != [] {
      EmitAppends(EmitField(out, hs[0], cap), hs[1..], cap);
    }
  }

  /** Nothing is printed into a full buffer. */
  lemma {:induction false} EmitNothing(out: bytes, hs: seq<Entry>, cap: nat)
    requires |out| == cap
    ensures EmitLines(out, hs, cap) == out
    decreases hs
  {
    if hs != [] {
      EmitNothing(out, hs[1..], cap);
    }
  }

  /** The printer emits exactly the complete head if and only if the head fits in the buffer. */
  lemma EmitIsHead(status: bytes, hs: seq<Entry>, cap: nat)
    requires |status| <= cap
    ensures Emit(status, hs, cap) == Head(status, hs) <==> |Head(status, hs)| <= cap
  {
    EmitStaysInside(status, hs, cap);
    if |Head(status, hs)| <= cap {
      EmitFits(status, hs, cap);
    }
  }

  // ----- the printer

  /** The headers that go out: the caller's, then Server and Content-Length where the code adds them. */
  function Outgoing(hs: seq<Entry>, hasServer: bool, hasLength: bool, length: int): seq<Entry> {
    hs + (if hasServer then [] else [SERVER])
       + (if !hasLength && length > 0 then [Entry(CONTENT_LENGTH, Decimal(length))] else [])
  }

  lemma NamesDiffer()
    ensures SERVER.key != CONTENT_LENGTH
  {
    var key, name := CONTENT_LENGTH, SERVER.key;
    assert |key| == 14 && |name| == 6;
  }

  /** The header that states a length. */
  predicate States(h: Entry, length: int) {
    h.key == CONTENT_LENGTH && Value(h.value) == length
  }

  lemma AddedStates(server: seq<Entry>, length: int)
    requires server == [] || server == [SERVER]
    ensures !exists h :: h in server && States(h, length)
    ensures length > 0 ==> exists h :: h in server + [Entry(CONTENT_LENGTH, Decimal(length))] && States(h, length)
  {
    NamesDiffer();
    if length > 0 {
      DecimalValue(length);
      var h := Entry(CONTENT_LENGTH, Decimal(length));
      assert h in server + [h] && States(h, length);
    }
  }

  /**
   The caller's headers keep their places; behind them stands a Server header exactly when the
   caller set none, and a header with the length exactly when there is one that the caller did not set.
   */
  lemma OutgoingMeans(hs: seq<Entry>, hasServer: bool, hasLength: bool, length: int)
    ensures var out := Outgoing(hs, hasServer, hasLength, length);
      && hs <= out
      && |out| == |hs| + (if hasServer then 0 else 1) + (if hasLength || length <= 0 then 0 else 1)
      && (SERVER in out[|hs|..] <==> !hasServer)
      && ((exists h :: h in out[|hs|..] && States(h, length)) <==> !hasLength && length > 0)
  {
    hide States, Decimal;
    var server := if hasServer then [] else [SERVER];
    var sized := if !hasLength && length > 0 then [Entry(CONTENT_LENGTH, Decimal(length))] else [];
    assert Outgoing(hs, hasServer, hasLength, length)[|hs|..] == server + sized;
    NamesDiffer();
    AddedStates(server, length);
  }

  datatype Printed = Printed | NoRoom | Overrun

  class Response {
    const buf: array<byte>
    var last: nat
    var headers: seq<Entry>
    var hasServer: bool
    var hasLength: bool
    var lengthN: int

    constructor (hs: seq<Entry>, hasServer: bool, hasLength: bool, length: int)
      ensures buf.Length == BUFFER_SIZE && fresh(buf) && last == 0
      ensures headers == hs && this.hasServer == hasServer && this.hasLength == hasLength && lengthN == length
    {
      buf := new byte[BUFFER_SIZE];
      last, headers := 0, hs;
      this.hasServer, this.hasLength, lengthN := hasServer, hasLength, length;
    }

    /** memcpy(buf->last, text, len); buf->last += len. */
    method Append(text: bytes)
      requires last + |text| <= buf.Length
      modifies this`last, buf
      ensures last == old(last) + |text| && buf[..last] == old(buf[..last]) + text
    {
      forall i | 0 <= i < |text| {
        buf[last + i] := text[i];
      }
      last := last + |text|;
    }

    /** One turn of the loop over the headers. */
    method PutField(t: Entry)
      requires last <= buf.Length
      modifies this`last, buf
      ensures last <= buf.Length && buf[..last] == EmitField(old(buf[..last]), t, buf.Length)
      ensures buf.Length - old(last) <= |t.key| + 2 ==> buf[..last] == old(buf[..last])
      ensures |t.key| + 2 < buf.Length - old(last) <= |t.key| + 2 + |t.value| + 2 ==>
        buf[..last] == old(buf[..last]) + t.key + Ascii(": ")
      ensures |t.key| + 2 + |t.value| + 2 < buf.Length - old(last) ==>
        buf[..last] == old(buf[..last]) + t.key + Ascii(": ") + t.value + Ascii("\r\n")
    {
      assert Ascii(": ") == [COLON, SP] && Ascii("\r\n") == CRLF;
      if buf.Length - last > |t.key| + 2 {
        Append(t.key);
        Append([COLON]);
        Append([SP]);
        assert buf[..last] == old(buf[..last]) + t.key + [COLON, SP];
        if buf.Length - last > |t.value| + 2 {
          label Named:
          Append(t.value);
          Append([CR]);
          Append([LF]);
          assert buf[..last] == old@Named(buf[..last]) + t.value + CRLF;
        }
      }
    }

    /** The Server and Content-Length headers, where they are still missing. */
    method AddHeaders()
      modifies this`headers
      ensures headers == Outgoing(old(headers), hasServer, hasLength, lengthN)
    {
      if !hasServer {
        headers := headers + [SERVER];
      }
      if !hasLength && lengthN > 0 {
        headers := headers + [Entry(CONTENT_LENGTH, Decimal(lengthN))];
      }
    }

    method PutFields()
      requires last <= buf.Length
      modifies this`last, buf
      ensures last <= buf.Length && buf[..last] == EmitLines(old(buf[..last]), headers, buf.Length)
    {
      var i := 0;
      assert headers[0..] == headers;
      while i < |headers|
        invariant 0 <= i <= |headers| && last <= buf.Length
        invariant EmitLines(buf[..last], headers[i..], buf.Length) == EmitLines(old(buf[..last]), headers, buf.Length)
      {
        assert headers[i..][0] == headers[i] && headers[i..][1..] == headers[i + 1..];
        PutField(headers[i]);
        i := i + 1;
      }
      assert headers[i..] == [];
    }

    /**
     snprintf into the empty buffer: at most buf.Length - 1 bytes and a NUL, while last moves by the
     full length of the line.
     */
    method PutStatusLine(line: bytes)
      requires last == 0 && buf.Length > 0
      modifies this`last, buf
      ensures last == |line|
      ensures |line| < buf.Length ==> buf[..last] == line
      ensures |line| >= buf.Length ==> buf[..] == line[..buf.Length - 1] + [NUL]
    {
      var n := if |line| < buf.Length then |line| else buf.Length - 1;
      forall i | 0 <= i < n {
        buf[i] := line[i];
      }
      buf[n] := NUL;
      last := |line|;
    }

    /**
     Prints the head. Overrun: the status line has moved last out of the buffer. NoRoom: not even
     the final blank line had room. Printed says no more than that this one had: however the output
     is cut into chunks behind the status line, the header parser reads the headers back, those
     added here included, if and only if the whole head fits and the caller's headers are sendable.
     */
    method GenHeader(status: nat, text: Option<bytes>) returns (r: Printed)
      requires last == 0 && buf.Length == BUFFER_SIZE
      modifies this`last, this`headers, buf
      ensures headers == Outgoing(old(headers), hasServer, hasLength, lengthN)
      ensures r == Overrun <==> |StatusLine(status, text)| > buf.Length
      ensures |StatusLine(status, text)| == buf.Length ==>
        r == NoRoom && last == buf.Length && buf[..] == StatusLine(status, text)[..buf.Length - 1] + [NUL]
      ensures |StatusLine(status, text)| < buf.Length ==>
        && last <= buf.Length && StatusLine(status, text) <= buf[..last]
        && buf[..last] == Emit(StatusLine(status, text), headers, buf.Length)
        && (|Head(StatusLine(status, text), headers)| <= buf.Length
            <==> buf[..last] == Head(StatusLine(status, text), headers))
      ensures r == Printed <==>
        && |StatusLine(status, text)| < buf.Length
        && |EmitLines(StatusLine(status, text), headers, buf.Length)| + 2 <= buf.Length
      ensures |Head(StatusLine(status, text), headers)| <= buf.Length ==> r == Printed
      ensures |StatusLine(status, text)| < buf.Length ==>
        forall chunks | buf[..last] == StatusLine(status, text) + Concat(chunks) ::
          ReadsBackAs(chunks, headers)
          <==> |Head(StatusLine(status, text), headers)| <= buf.Length && forall h | h in old(headers) :: Sendable(h)
    {
      hide ReadsBackAs, Outgoing, Sendable, StatusLine;
      var line := StatusLine(status, text);
      PutStatusLine(line);
      AddHeaders();
      if last > buf.Length {
        return Overrun;
      }
      if |line| == buf.Length {
        EmitNothing(buf[..last], headers, buf.Length);
      }
      ghost var start := buf[..last];
      PutFields();
      r := NoRoom;
      if buf.Length - last >= 2 {
        Append([CR]);
        Append([LF]);
        r := Printed;
        assert buf[..last] == EmitLines(start, headers, buf.Length) + CRLF;
      }
      EmitIsHead(start, headers, buf.Length);
      EmitAppends(start, headers, buf.Length);
      if |Head(line, headers)| <= buf.Length {
        EmitFits(line, headers, buf.Length);
      }
      if |line| < buf.Length {
        forall chunks | buf[..last] == line + Concat(chunks)
          ensures ReadsBackAs(chunks, headers)
                  <==> |Head(line, headers)| <= buf.Length && forall h | h in old(headers) :: Sendable(h)
        {
          PrintedRoundTrip(line, old(headers), hasServer, hasLength, lengthN, buf.Length, chunks);
        }
      }
    }
  }

  // ----- printing and parsing are inverse

  /** A header that survives printing and parsing. */
  predicate Sendable(h: Entry) {
    && h.key != [] && (forall b :: b in h.key ==> IsNameByte(b))
    && CR !in h.value && LF !in h.value
    && (h.value != [] ==> h.value[0] != SP && h.value[|h.value| - 1] != SP)
  }

  predicate InText(s: bytes, m: FieldMarks) {
    0 <= m.nameStart <= m.nameEnd <= |s| && 0 <= m.start <= m.end <= |s|
  }

  /** The name and the value that m marks in s. */
  function EntryAt(s: bytes, m: FieldMarks): Entry
    requires InText(s, m)
  {
    Entry(s[m.nameStart..m.nameEnd], s[m.start..m.end])
  }

  /** The marks of header h printed at i. */
  function PrintedMarks(h: Entry, i: nat): FieldMarks {
    FieldMarks(i, i + |h.key|, i + |h.key| + 2, i + |h.key| + 2 + |h.value|)
  }

  lemma SliceOfSlice(s: bytes, i: nat, n: nat, a: nat, b: nat)
    requires i + n <= |s| && a <= b <= n
    ensures s[i..i + n][a..b] == s[i + a..i + b]
  {
    var l, r := s[i..i + n][a..b], s[i + a..i + b];
    assert forall k | 0 <= k < b - a :: l[k] == s[i..i + n][a + k] == r[k];
  }

  lemma FieldPieces(h: Entry)
    ensures var f, v := FieldBytes(h), |h.key| + 2;
      && |f| == v + |h.value| + 2 && f[0..|h.key|] == h.key && f[v..v + |h.value|] == h.value
      && f[|h.key|] == COLON && f[|h.key| + 1] == SP && f[|f| - 2] == CR && f[|f| - 1] == LF
  {
    var f, v := FieldBytes(h), |h.key| + 2;
    assert f == h.key + ([COLON, SP] + h.value + CRLF);
    assert f == (h.key + [COLON, SP]) + (h.value + CRLF);
    assert f == (h.key + [COLON, SP] + h.value) + CRLF;
  }

  lemma PrintedBytes(h: Entry, s: bytes, i: nat)
    requires i + |FieldBytes(h)| <= |s| && s[i..i + |FieldBytes(h)|] == FieldBytes(h)
    ensures var m := PrintedMarks(h, i);
      && s[i..m.nameEnd] == h.key && s[m.nameEnd] == COLON && s[m.nameEnd + 1] == SP
      && s[m.start..m.end] == h.value && s[m.end] == CR && s[m.end + 1] == LF
      && m.end + 2 == i + |FieldBytes(h)|
  {
    var f, v := FieldBytes(h), |h.key| + 2;
    hide FieldBytes;
    FieldPieces(h);
    var t := s[i..i + |f|];
    assert s[i + |h.key|] == t[|h.key|] && s[i + |h.key| + 1] == t[|h.key| + 1];
    assert s[i + |f| - 2] == t[|f| - 2] && s[i + |f| - 1] == t[|f| - 1];
    SliceOfSlice(s, i, |f|, 0, |h.key|);
    SliceOfSlice(s, i, |f|, v, v + |h.value|);
  }

  lemma PrintedIsFieldLine(h: Entry, s: bytes, i: nat)
    requires i + |FieldBytes(h)| <= |s| && s[i..i + |FieldBytes(h)|] == FieldBytes(h) && Sendable(h)
    ensures FieldLine(PrintedMarks(h, i), s, i, i + |FieldBytes(h)|)
    ensures EntryAt(s, PrintedMarks(h, i)) == h
  {
    var m := PrintedMarks(h, i);
    PrintedBytes(h, s, i);
    forall j | i <= j < m.nameEnd ensures IsNameByte(s[j]) {
      assert s[j] == h.key[j - i];
    }
    forall j | m.start <= j < m.end ensures s[j] != CR && s[j] != LF {
      assert s[j] == h.value[j - m.start];
    }
    if h.value != [] {
      assert s[m.start] == h.value[0] && s[m.end - 1] == h.value[|h.value| - 1];
    }
    assert LineBreak(s, m.end, m.end + 2);
  }

  lemma SendableFromLine(h: Entry, m: FieldMarks, s: bytes, i: nat, k: nat)
    requires i <= |s| && FieldLine(m, s, i, k)
    requires m.start <= m.end <= |s| && EntryAt(s, m) == h
    ensures Sendable(h)
  {
    forall b | b in h.key ensures IsNameByte(b) {
      var j :| 0 <= j < |h.key| && h.key[j] == b;
      assert b == s[m.nameStart + j];
    }
    forall b | b in h.value ensures b != CR && b != LF {
      var j :| 0 <= j < |h.value| && h.value[j] == b;
      assert b == s[m.start + j];
    }
    if h.value != [] {
      assert h.value[0] == s[m.start] && h.value[|h.value| - 1] == s[m.end - 1];
    }
  }

  /** One printed header is read back as itself if and only if it is sendable. */
  lemma FieldRoundTrip(h: Entry, post: bytes, m0: FieldMarks)
    ensures var s := FieldBytes(h) + post;
      (exists m: FieldMarks ::
         && Run(Start, m0, s, 0) == Field(m, |FieldBytes(h)|)
         && InText(s, m) && EntryAt(s, m) == h)
      <==> Sendable(h)
  {
    var s, k := FieldBytes(h) + post, |FieldBytes(h)|;
    assert s[0..k] == FieldBytes(h);
    if Sendable(h) {
      PrintedIsFieldLine(h, s, 0);
      FieldIsGrammar(m0, PrintedMarks(h, 0), s, 0, k);
    }
    forall m: FieldMarks |
        && Run(Start, m0, s, 0) == Field(m, k)
        && InText(s, m) && EntryAt(s, m) == h
      ensures Sendable(h)
    {
      FieldIsGrammar(m0, m, s, 0, k);
      SendableFromLine(h, m, s, 0, k);
    }
  }

  function EntriesAt(s: bytes, fields: seq<FieldMarks>): seq<Entry>
    requires forall m | m in fields :: InText(s, m)
  {
    seq(|fields|, i requires 0 <= i < |fields| => EntryAt(s, fields[i]))
  }

  /** The marks of a printed list of headers that starts at i. */
  function AllMarks(hs: seq<Entry>, i: nat): seq<FieldMarks> {
    if hs == [] then [] else [PrintedMarks(hs[0], i)] + AllMarks(hs[1..], i + |FieldBytes(hs[0])|)
  }

  lemma TwoPieces(s: bytes, i: nat, f: bytes, rest: bytes)
    requires i + |f| + |rest| <= |s| && s[i..i + |f| + |rest|] == f + rest
    ensures s[i..i + |f|] == f && s[i + |f|..i + |f| + |rest|] == rest
  {
    SliceOfSlice(s, i, |f| + |rest|, 0, |f|);
    SliceOfSlice(s, i, |f| + |rest|, |f|, |f| + |rest|);
    assert (f + rest)[0..|f|] == f && (f + rest)[|f|..|f| + |rest|] == rest;
  }

  lemma LinesCons(hs: seq<Entry>)
    requires hs != []
    ensures Lines(hs) + CRLF == FieldBytes(hs[0]) + (Lines(hs[1..]) + CRLF)
  {
    hide FieldBytes;
    assert Lines(hs) == FieldBytes(hs[0]) + Lines(hs[1..]);
    var f, l := FieldBytes(hs[0]), Lines(hs[1..]);
    assert (f + l) + CRLF == f + (l + CRLF);
  }

  /** The printed list starts with its first line, or with the blank line. */
  lemma LinesSplit(hs: seq<Entry>, s: bytes, i: nat)
    requires i + |Lines(hs) + CRLF| <= |s| && s[i..i + |Lines(hs) + CRLF|] == Lines(hs) + CRLF
    ensures hs == [] ==> LineBreak(s, i, i + 2)
    ensures hs != [] ==>
      var f, rest := FieldBytes(hs[0]), Lines(hs[1..]) + CRLF;
      && |Lines(hs) + CRLF| == |f| + |rest|
      && s[i..i + |f|] == f && s[i + |f|..i + |f| + |rest|] == rest
  {
    hide FieldBytes;
    if hs == [] {
      assert Lines(hs) + CRLF == CRLF;
      assert s[i] == s[i..i + 2][0] && s[i + 1] == s[i..i + 2][1];
    } else {
      hide Lines;
      LinesCons(hs);
      TwoPieces(s, i, FieldBytes(hs[0]), Lines(hs[1..]) + CRLF);
    }
  }

  lemma EntriesCons(s: bytes, m: FieldMarks, rest: seq<FieldMarks>)
    requires InText(s, m)
    requires forall m | m in rest :: InText(s, m)
    ensures EntriesAt(s, [m] + rest) == [EntryAt(s, m)] + EntriesAt(s, rest)
  {
  }

  lemma {:induction false} ReadPrinted(hs: seq<Entry>, s: bytes, i: nat, m0: FieldMarks, fields: seq<FieldMarks>)
    requires forall h :: h in hs ==> Sendable(h)
    requires i + |Lines(hs) + CRLF| <= |s| && s[i..i + |Lines(hs) + CRLF|] == Lines(hs) + CRLF
    ensures ReadBlock(Start, m0, s, i, fields) == Complete(fields + AllMarks(hs, i), i + |Lines(hs)| + 2)
    decreases hs
  {
    hide Run, FieldLine, Sendable, FieldBytes;
    LinesSplit(hs, s, i);
    if hs == [] {
      EndIsBlankLine(m0, s, i, i + 2);
      assert fields + [] == fields;
    } else {
      var f, m := FieldBytes(hs[0]), PrintedMarks(hs[0], i);
      PrintedIsFieldLine(hs[0], s, i);
      FieldIsGrammar(m0, m, s, i, i + |f|);
      ReadPrinted(hs[1..], s, i + |f|, m, fields + [m]);
      assert (fields + [m]) + AllMarks(hs[1..], i + |f|) == fields + AllMarks(hs, i);
    }
  }

  lemma {:induction false} PrintedEntries(hs: seq<Entry>, s: bytes, i: nat)
    requires forall h :: h in hs ==> Sendable(h)
    requires i + |Lines(hs) + CRLF| <= |s| && s[i..i + |Lines(hs) + CRLF|] == Lines(hs) + CRLF
    ensures forall m | m in AllMarks(hs, i) :: InText(s, m)
    ensures EntriesAt(s, AllMarks(hs, i)) == hs
    decreases hs
  {
    hide Sendable, FieldBytes;
    LinesSplit(hs, s, i);
    if hs != [] {
      var f := FieldBytes(hs[0]);
      PrintedBytes(hs[0], s, i);
      PrintedEntries(hs[1..], s, i + |f|);
      EntriesCons(s, PrintedMarks(hs[0], i), AllMarks(hs[1..], i + |f|));
    }
  }

  /** The list printed behind a status line and read back by the header parser, in these chunks, is hs. */
  ghost predicate ReadsBackAs(chunks: seq<bytes>, hs: seq<Entry>) {
    var s := Concat(chunks);
    exists fields: seq<FieldMarks> ::
      && Feed(Reading(Start, NO_FIELD, []), [], chunks) == Complete(fields, |s|)
      && (forall m | m in fields :: InText(s, m)) && EntriesAt(s, fields) == hs
  }

  /** Whatever the parser reads as a header could have been sent. */
  lemma {:induction false} ReadIsSendable(s: bytes, i: nat, m0: FieldMarks, fields: seq<FieldMarks>)
    requires i <= |s| && ReadBlock(Start, m0, s, i, fields).Complete?
    requires forall m | m in fields :: InText(s, m) && Sendable(EntryAt(s, m))
    ensures forall m | m in ReadBlock(Start, m0, s, i, fields).fields :: InText(s, m) && Sendable(EntryAt(s, m))
    decreases |s| - i
  {
    hide Run, Sendable;
    var r := Run(Start, m0, s, i);
    RunAdvances(Start, m0, s, i);
    RunStops(Start, m0, s, i);
    if r.Field? {
      FieldIsGrammar(m0, r.m, s, i, r.k);
      SendableFromLine(EntryAt(s, r.m), r.m, s, i, r.k);
      ReadIsSendable(s, r.k, r.m, fields + [r.m]);
    }
  }

  /** A printed list, in any chunks, is read back as itself if and only if every header is sendable. */
  lemma RoundTrip(hs: seq<Entry>, chunks: seq<bytes>)
    requires Concat(chunks) == Lines(hs) + CRLF
    ensures ReadsBackAs(chunks, hs) <==> forall h | h in hs :: Sendable(h)
  {
    hide FieldLine, Sendable, ReadBlock, Feed, AllMarks, EntriesAt;
    var s := Concat(chunks);
    assert [] + s == s && s[0..|s|] == s;
    ChunksDoNotMatter(Reading(Start, NO_FIELD, []), [], chunks);
    if forall h | h in hs :: Sendable(h) {
      ReadPrinted(hs, s, 0, NO_FIELD, []);
      PrintedEntries(hs, s, 0);
      assert [] + AllMarks(hs, 0) == AllMarks(hs, 0);
    }
    if ReadsBackAs(chunks, hs) {
      ReadIsSendable(s, 0, NO_FIELD, []);
      EntriesInclude(s, ReadBlock(Start, NO_FIELD, s, 0, []).fields);
    }
  }

  /** Every entry was read somewhere. */
  lemma EntriesInclude(s: bytes, fields: seq<FieldMarks>)
    requires forall m | m in fields :: InText(s, m)
    ensures forall h | h in EntriesAt(s, fields) :: exists m :: m in fields && EntryAt(s, m) == h
  {
    forall h | h in EntriesAt(s, fields) ensures exists m :: m in fields && EntryAt(s, m) == h {
      var i :| 0 <= i < |EntriesAt(s, fields)| && EntriesAt(s, fields)[i] == h;
      assert fields[i] in fields;
    }
  }

  lemma LengthIsSendable(n: nat)
    ensures Sendable(Entry(CONTENT_LENGTH, Decimal(n)))
  {
    var d := Decimal(n);
    assert d[0] in d && d[|d| - 1] in d;
  }

  /** What the printer adds to the list can always be sent. */
  lemma AddedAreSendable(hs: seq<Entry>, hasServer: bool, hasLength: bool, length: int)
    ensures (forall h | h in Outgoing(hs, hasServer, hasLength, length) :: Sendable(h))
            <==> (forall h | h in hs :: Sendable(h))
  {
    assert Sendable(SERVER);
    if length > 0 {
      LengthIsSendable(length);
    }
    assert forall h | h in hs :: h in Outgoing(hs, hasServer, hasLength, length);
  }

  // ----- what does not fit is not read back

  /** One header adds a line feed exactly when it is printed in full. */
  lemma FieldLineFeeds(out: bytes, h: Entry, cap: nat)
    requires LF !in h.key && LF !in h.value
    ensures var r := EmitField(out, h, cap);
      || LineFeeds(r) == LineFeeds(out)
      || (LineFeeds(r) == LineFeeds(out) + 1 && r == out + FieldBytes(h))
  {
    hide LineFeeds;
    var named := h.key + [COLON, SP];
    var full := named + h.value + [CR];
    NoLineFeeds(named);
    NoLineFeeds(full);
    LineFeedsAppend(out, named);
    LineFeedsAppend(out, FieldBytes(h));
    LineFeedsAppend(full, [LF]);
    OneLineFeed();
    assert out + h.key + [COLON, SP] == out + named;
    assert out + h.key + [COLON, SP] + h.value + CRLF == out + FieldBytes(h);
    assert FieldBytes(h) == full + [LF];
  }

  lemma OneLineFeed()
    ensures LineFeeds([LF]) == 1 && LineFeeds(CRLF) == 1
  {
    assert LineFeeds([]) == 0 && LineFeeds([CR]) == 0;
    assert CRLF[..1] == [CR] && [LF][..0] == [];
  }

  /** As many line feeds as headers come only from printing all of them in full. */
  lemma {:induction false} LinesLineFeeds(out: bytes, hs: seq<Entry>, cap: nat)
    requires forall h | h in hs :: LF !in h.key && LF !in h.value
    ensures var r := EmitLines(out, hs, cap);
      && LineFeeds(r) <= LineFeeds(out) + |hs|
      && (LineFeeds(r) == LineFeeds(out) + |hs| ==> r == out + Lines(hs))
    decreases hs
  {
    hide LineFeeds, EmitField;
    if hs == [] {
      assert out + Lines(hs) == out;
    } else {
      FieldLineFeeds(out, hs[0], cap);
      LinesLineFeeds(EmitField(out, hs[0], cap), hs[1..], cap);
      assert out + FieldBytes(hs[0]) + Lines(hs[1..]) == out + Lines(hs);
    }
  }

  lemma NameHasNoLineFeed(h: Entry)
    requires Sendable(h)
    ensures LF !in h.key && LF !in h.value
  {
    assert !IsNameByte(LF);
  }

  /** What a printer with too little room emits is never read back as the list, whatever the list is. */
  lemma CutIsNotReadBack(line: bytes, hs: seq<Entry>, cap: nat, chunks: seq<bytes>)
    requires Emit(line, hs, cap) == line + Concat(chunks) && ReadsBackAs(chunks, hs)
    ensures Emit(line, hs, cap) == Head(line, hs)
  {
    var s := Concat(chunks);
    assert [] + s == s && s[0..|s|] == s;
    ChunksDoNotMatter(Reading(Start, NO_FIELD, []), [], chunks);
    ReadIsSendable(s, 0, NO_FIELD, []);
    var fields := ReadBlock(Start, NO_FIELD, s, 0, []).fields;
    EntriesInclude(s, fields);
    forall h | h in hs ensures LF !in h.key && LF !in h.value {
      var m :| m in fields && EntryAt(s, m) == h;
      NameHasNoLineFeed(h);
    }
    BlockLineFeeds(Start, NO_FIELD, s, 0, []);
    LinesLineFeeds(line, hs, cap);
    LineFeedsAppend(line, s);
    var lines := EmitLines(line, hs, cap);
    LineFeedsAppend(lines, CRLF);
    OneLineFeed();
  }

  /**
   Printer and parser are inverse on what is really sent: the caller's headers and those that the
   printer adds are read back, in any chunks, if and only if the caller's headers are sendable.
   */
  lemma GeneratedRoundTrip(line: bytes, hs: seq<Entry>, hasServer: bool, hasLength: bool, length: int,
                           chunks: seq<bytes>)
    requires Head(line, Outgoing(hs, hasServer, hasLength, length)) == line + Concat(chunks)
    ensures ReadsBackAs(chunks, Outgoing(hs, hasServer, hasLength, length))
            <==> forall h | h in hs :: Sendable(h)
  {
    hide ReadsBackAs, Sendable, Outgoing;
    var out := Outgoing(hs, hasServer, hasLength, length);
    assert line + Concat(chunks) == line + (Lines(out) + CRLF);
    assert Concat(chunks) == (line + Concat(chunks))[|line|..] == Lines(out) + CRLF;
    RoundTrip(out, chunks);
    AddedAreSendable(hs, hasServer, hasLength, length);
  }

  /**
   What the printer leaves in a buffer of cap bytes is read back as the headers it was to print, in
   any chunks, if and only if the whole head fits and the caller's headers are sendable.
   */
  lemma PrintedRoundTrip(line: bytes, hs: seq<Entry>, hasServer: bool, hasLength: bool, length: int,
                         cap: nat, chunks: seq<bytes>)
    requires |line| <= cap
    requires Emit(line, Outgoing(hs, hasServer, hasLength, length), cap) == line + Concat(chunks)
    ensures ReadsBackAs(chunks, Outgoing(hs, hasServer, hasLength, length))
            <==> |Head(line, Outgoing(hs, hasServer, hasLength, length))| <= cap && forall h | h in hs :: Sendable(h)
  {
    hide ReadsBackAs, Sendable, Outgoing, Emit, Head;
    var out := Outgoing(hs, hasServer, hasLength, length);
    EmitIsHead(line, out, cap);
    if |Head(line, out)| <= cap {
      GeneratedRoundTrip(line, hs, hasServer, hasLength, length, chunks);
    } else if ReadsBackAs(chunks, out) {
      CutIsNotReadBack(line, out, cap, chunks);
    }
  }

  /**
   A head whose last value has no room is cut behind the name, and the CRLF of the blank line ends
   the cut header: the output has no blank line although the printer reports success.
   */
  lemma LastValueIsCut(out: bytes, h: Entry, cap: nat)
    requires |h.key| + 4 <= cap - |out| <= |h.key| + |h.value| + 4
    ensures Emit(out, [h], cap) == out + h.key + [COLON, SP] + CRLF
    ensures |EmitLines(out, [h], cap)| + 2 <= cap < |Head(out, [h])|
  {
    assert [h][1..] == [];
    assert EmitLines(out, [h], cap) == EmitField(out, h, cap) == out + h.key + [COLON, SP];
    assert Lines([h]) == FieldBytes(h) + [];
  }

  /** Such an input: status 200, and a sendable header A with a value of 8173 letters. */
  lemma LongValueIsCut()
    ensures var line, h := StatusLine(200, None), Entry([65], seq(8173, _ => 97));
      && Sendable(h) && |Head(line, [h])| > BUFFER_SIZE
      && Emit(line, [h], BUFFER_SIZE) == line + [65, COLON, SP] + CRLF
      && |EmitLines(line, [h], BUFFER_SIZE)| + 2 <= BUFFER_SIZE
  {
    hide Emit, EmitLines, Head;
    var line, h := StatusLine(200, None), Entry([65], seq(8173, _ => 97));
    assert Decimal(2) == [50] && Decimal(20) == [50, 48] && Decimal(200) == [50, 48, 48];
    LastValueIsCut(line, h, BUFFER_SIZE);
  }
}
