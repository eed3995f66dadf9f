/**
 The resumable request-line parser as a fold over bytes: the state, the marks it captures, one
 turn of the switch, and a run over what has arrived.
 */
module RequestLine {
  import opened Bytes

  datatype LineState =
    | Start | Method | SpaceAfterMethod | SpacesBeforeUri
    | Schema | SchemaSlash | SchemaSlashSlash | Host | Port
    | AfterSlashInUri | CheckUri | Uri
    | Http09 | HttpH | HttpHT | HttpHTT | HttpHTTP
    | FirstMajorDigit | MajorDigit | FirstMinorDigit | MinorDigit
    | AlmostDone | Done

  const GET: nat := 1
  const HEAD: nat := 2
  const POST: nat := 3

  /** One more than the largest uint. */
  const UINT: nat := 0x1_0000_0000

  // What the parser captures. Pointers are offsets from the start of the buffer.

  datatype MethodPart = MethodPart(start: Ptr, methodEnd: Ptr, verb: nat)

  datatype AuthorityPart =
    AuthorityPart(schemaStart: Ptr, schemaEnd: Ptr, hostStart: Ptr, hostEnd: Ptr, portEnd: Ptr)

  datatype TargetPart = TargetPart(start: Ptr, end: Ptr, args: Ptr, ext: Ptr, complex: bool)

  datatype EndPart = EndPart(major: nat, minor: nat, at: Ptr)

  datatype Marks = Marks(req: MethodPart, auth: AuthorityPart, uri: TargetPart, end: EndPart)

  const NO_MARKS := Marks(MethodPart(NULL, NULL, 0), AuthorityPart(NULL, NULL, NULL, NULL, NULL),
                          TargetPart(NULL, NULL, NULL, NULL, false), EndPart(0, 0, NULL))

  datatype Code = Ok | Again | InvalidMethod | InvalidRequest | Invalid09Method | InvalidHeader | HeaderDone

  predicate IsError(c: Code) { c.InvalidMethod? || c.InvalidRequest? }

  datatype Turn = Go(q: LineState, m: Marks) | Fail(code: Code, m: Marks)

  /** More: all bytes read, parse again later. Finished: the line ended just before index k. */
  datatype LineResult = More(q: LineState, m: Marks) | Finished(m: Marks, k: nat) | Bad(code: Code, m: Marks)

  predicate IsHostByte(b: byte) { IsAlpha(b) || IsDigit(b) || b == DOT || b == DASH }

  /** The method code of the word s[a..b]; 0 for a word the server does not know. */
  function MethodCode(s: bytes, a: nat, b: nat): nat
    requires a <= b <= |s|
  {
    if b - a == 3 && s[a] == 71 && s[a + 1] == 69 && s[a + 2] == 84 then GET          // GET
    else if b - a == 4 && s[a] == 80 && s[a + 1] == 79 && s[a + 2] == 84 && s[a + 3] == 84 then POST  // POTT
    else if b - a == 4 && s[a] == 72 && s[a + 1] == 69 && s[a + 2] == 65 && s[a + 3] == 68 then HEAD  // HEAD
    else 0
  }

  /** A state may be resumed at i: a method being read has its start behind it. */
  predicate Resumable(q: LineState, m: Marks, i: nat) {
    q.Method? ==> 0 <= m.req.start <= i
  }

  /** The end of the target: the same three bytes in all three target states. */
  function AfterTarget(m: Marks, b: byte, i: nat): Turn {
    if b == CR then Go(AlmostDone, m.(uri := m.uri.(end := i), end := m.end.(minor := 9)))
    else if b == LF then Go(Done, m.(uri := m.uri.(end := i), end := m.end.(minor := 9)))
    else Go(Http09, m.(uri := m.uri.(end := i)))
  }

  predicate EndsTarget(b: byte) { b == CR || b == LF || b == SP }

  function Expect(b: byte, want: byte, q: LineState, m: Marks): Turn {
    if b == want then Go(q, m) else Fail(InvalidRequest, m)
  }

  /** One turn of the switch, on the byte at i. */
  function Step(q: LineState, m: Marks, s: bytes, i: nat): (r: Turn)
    requires i < |s| && Resumable(q, m, i)
    ensures r.Go? ==> Resumable(r.q, r.m, i + 1)
    ensures r.Fail? ==> IsError(r.code)
  {
    var b := s[i];
    match q
    case Start =>
      var m' := m.(req := m.req.(start := i));
      if b == CR || b == LF then Go(Start, m')
      else if !IsUpper(b) then Fail(InvalidMethod, m')
      else Go(Method, m')
    case Method =>
      if b == SP then
        var code := MethodCode(s, m.req.start, i);
        Go(SpacesBeforeUri, m.(req := m.req.(methodEnd := i, verb := if code == 0 then m.req.verb else code)))
      else if !IsUpper(b) then Fail(InvalidMethod, m)
      else Go(Method, m)
    case SpaceAfterMethod =>
      if b == SP then Go(SpacesBeforeUri, m) else Fail(InvalidMethod, m)
    case SpacesBeforeUri =>
      if b == SLASH then Go(AfterSlashInUri, m.(uri := m.uri.(start := i)))
      else if b == SP then Go(SpacesBeforeUri, m)
      else if IsAlpha(b) then Go(Schema, m.(auth := m.auth.(schemaStart := i)))
      else Fail(InvalidRequest, m)
    case Schema =>
      if b == COLON then Go(SchemaSlash, m.(auth := m.auth.(schemaEnd := i)))
      else if IsAlpha(b) then Go(Schema, m)
      else Fail(InvalidRequest, m)
    case SchemaSlash => Expect(b, SLASH, SchemaSlashSlash, m)
    case SchemaSlashSlash => Expect(b, SLASH, Host, if b == SLASH then m.(auth := m.auth.(hostStart := i)) else m)
    case Host =>
      if b == COLON then Go(Port, m.(auth := m.auth.(hostEnd := i)))
      else if b == SLASH then Go(AfterSlashInUri, m.(auth := m.auth.(hostEnd := i), uri := m.uri.(start := i)))
      else if IsHostByte(b) then Go(Host, m)
      else Fail(InvalidRequest, m)
    case Port =>
      if b == SLASH then Go(AfterSlashInUri, m.(auth := m.auth.(portEnd := i), uri := m.uri.(start := i)))
      else Go(Port, m)
    case AfterSlashInUri =>
      if EndsTarget(b) then AfterTarget(m, b, i)
      else if b == DOT || b == PERCENT then Go(Uri, m.(uri := m.uri.(complex := true)))
      else if b == SLASH then Go(AfterSlashInUri, m.(uri := m.uri.(complex := true)))
      else if b == QUESTION then Go(Uri, m.(uri := m.uri.(args := i + 1)))
      else Go(CheckUri, m)
    case CheckUri =>
      if EndsTarget(b) then AfterTarget(m, b, i)
      else if b == DOT then Go(CheckUri, m.(uri := m.uri.(ext := i + 1)))
      else if b == SLASH then Go(AfterSlashInUri, m.(uri := m.uri.(ext := NULL)))
      else if b == PERCENT then Go(Uri, m.(uri := m.uri.(complex := true)))
      else if b == QUESTION then Go(Uri, m.(uri := m.uri.(args := i + 1)))
      else Go(CheckUri, m)
    case Uri =>
      if EndsTarget(b) then AfterTarget(m, b, i) else Go(Uri, m)
    case Http09 =>
      if b == SP then Go(Http09, m)
      else if b == CR then Go(AlmostDone, m.(end := m.end.(minor := 9)))
      else if b == LF then Go(Done, m.(end := m.end.(minor := 9)))
      else Expect(b, 72, HttpH, m)
    case HttpH => Expect(b, 84, HttpHT, m)
    case HttpHT => Expect(b, 84, HttpHTT, m)
    case HttpHTT => Expect(b, 80, HttpHTTP, m)
    case HttpHTTP => Expect(b, SLASH, FirstMajorDigit, m)
    case FirstMajorDigit =>
      if !IsDigit(b) || b == ZERO then Fail(InvalidRequest, m)
      else Go(MajorDigit, m.(end := m.end.(major := b - ZERO)))
    case MajorDigit =>
      if b == DOT then Go(FirstMinorDigit, m)
      else if !IsDigit(b) then Fail(InvalidRequest, m)
      else Go(MajorDigit, m.(end := m.end.(major := (m.end.major * 10 + b - ZERO) % UINT)))
    case FirstMinorDigit =>
      if !IsDigit(b) then Fail(InvalidRequest, m)
      else Go(MinorDigit, m.(end := m.end.(minor := b - ZERO)))
    case MinorDigit =>
      if b == CR then Go(AlmostDone, m)
      else if b == LF then Go(Done, m)
      else if !IsDigit(b) then Fail(InvalidRequest, m)
      else Go(MinorDigit, m.(end := m.end.(minor := (m.end.minor * 10 + b - ZERO) % UINT)))
    case AlmostDone => Expect(b, LF, Done, m.(end := m.end.(at := i - 1)))
    case Done => Go(Done, m)
  }

  /** The parser's loop, from index i to the end of s or of the line. */
  function Run(q: LineState, m: Marks, s: bytes, i: nat): (r: LineResult)
    requires i <= |s| && Resumable(q, m, i)
    ensures r.More? ==> Resumable(r.q, r.m, |s|)
    ensures r.Finished? ==> i <= r.k <= |s|
    ensures r.Bad? ==> IsError(r.code)
    decreases |s| - i
  {
    if q.Done? then Finished(if m.end.at == NULL then m.(end := m.end.(at := i - 1)) else m, i)
    else if i == |s| then More(q, m)
    else
      match Step(q, m, s, i)
      case Fail(code, m') => Bad(code, m')
      case Go(q', m') => Run(q', m', s, i + 1)
  }

  lemma RunTurn(q: LineState, m: Marks, s: bytes, i: nat)
    requires i < |s| && !q.Done? && Resumable(q, m, i)
    ensures Run(q, m, s, i) == match Step(q, m, s, i)
                               case Fail(code, m') => Bad(code, m')
                               case Go(q', m') => Run(q', m', s, i + 1)
  {
  }

  lemma RunEnd(q: LineState, m: Marks, s: bytes, i: nat)
    requires i <= |s| && Resumable(q, m, i) && (q.Done? || i == |s|)
    ensures Run(q, m, s, i)
         == if q.Done? then Finished(if m.end.at == NULL then m.(end := m.end.(at := i - 1)) else m, i)
            else More(q, m)
  {
  }

  /** One request line, from the first byte of a request. */
  function ParseLine(s: bytes, start: nat): LineResult
    requires start <= |s|
  {
    Run(Start, NO_MARKS, s, start)
  }

  /** http_version as the code computes it: major counted twice, minor not at all. */
  function Version(m: Marks): nat {
    (m.end.major * 1000 + m.end.major) % UINT
  }

  /** The result code of a finished line. */
  function FinalCode(m: Marks): Code {
    if Version(m) == 9 && m.req.verb != GET then Invalid09Method else Ok
  }

  // ----- the split law

  lemma StepPrefix(q: LineState, m: Marks, s: bytes, t: bytes, i: nat)
    requires i < |s| && Resumable(q, m, i)
    ensures Step(q, m, s + t, i) == Step(q, m, s, i)
  {
    assert forall j | 0 <= j < |s| :: (s + t)[j] == s[j];
  }

  /**
   Where the input was cut does not matter: stopping at the cut and resuming from the saved
   state is the same as never having stopped, and a line that ended before the cut is unaffected.
   */
  lemma {:induction false} Split(q: LineState, m: Marks, s: bytes, t: bytes, i: nat)
    requires i <= |s| && Resumable(q, m, i)
    ensures var r := Run(q, m, s, i);
      Run(q, m, s + t, i) == if r.More? then Run(r.q, r.m, s + t, |s|) else r
    decreases |s| - i
  {
    if !q.Done? && i < |s| {
      StepPrefix(q, m, s, t, i);
      if Step(q, m, s, i).Go? {
        Split(Step(q, m, s, i).q, Step(q, m, s, i).m, s, t, i + 1);
      }
    }
  }

  // ----- the 0.9 method check

  /** The one major version whose thousand-and-first multiple wraps round to 9. */
  const WRAPPED_MAJOR: nat := 1724852001

  /**
   A finished line is refused by the 0.9 check exactly when its method is not GET and its major
   version, as a uint, is WRAPPED_MAJOR. In particular no real 0.9 request is refused.
   */
  lemma RefusedBy09Check(m: Marks)
    requires m.end.major < UINT
    ensures FinalCode(m) == Invalid09Method <==> m.req.verb != GET && m.end.major == WRAPPED_MAJOR
  {
    var t := m.end.major * 1001 / UINT;
    var z := m.end.major - 4290676 * t;
    if Version(m) == 9 {
      // 2^32 is 4290676 * 1001 + 620, and 289 is the inverse of 620 modulo 1001
      assert 1001 * z == 620 * t + 9;
      assert t + 9 * 289 == 1001 * (289 * z - 179 * t);
    }
  }
}
