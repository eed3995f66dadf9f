/**
 The grammar that the request-line parser accepts, written on positions of the text, and the
 proof that the parser finishes a line with given marks exactly when the grammar assigns them.
 */
module RequestLineGrammar {
  import opened Bytes
  import opened RequestLine

  // ----- the grammar

  /** The value of the digits s[a..b], as a uint. */
  function Number(s: bytes, a: nat, b: nat): (r: nat)
    requires b <= |s| && forall j | a <= j < b :: IsDigit(s[j])
    ensures r < UINT
  {
    if b <= a then 0 else (Number(s, a, b - 1) * 10 + s[b - 1] - ZERO) % UINT
  }

  /** A line break at e, CRLF or bare LF, ending just before k. */
  predicate LineBreak(s: bytes, e: int, k: nat) {
    && 0 <= e < k <= |s|
    && ((s[e] == LF && k == e + 1) || (s[e] == CR && k == e + 2 && s[e + 1] == LF))
  }

  ghost predicate Spaces(s: bytes, a: nat, b: nat) {
    a <= b <= |s| && forall j | a <= j < b :: s[j] == SP
  }

  /** HTTP/major.minor from v to e, with the dot at d. */
  ghost predicate HttpVersion(s: bytes, v: nat, d: nat, e: nat, major: nat, minor: nat) {
    && v + 5 < d && d + 1 < e <= |s|
    && s[v] == 72 && s[v + 1] == 84 && s[v + 2] == 84 && s[v + 3] == 80 && s[v + 4] == SLASH
    && (forall j | v + 5 <= j < d :: IsDigit(s[j])) && s[v + 5] != ZERO
    && s[d] == DOT
    && (forall j | d + 1 <= j < e :: IsDigit(s[j]))
    && major == Number(s, v + 5, d) && minor == Number(s, d + 1, e)
  }

  /** What may stand between the target's end u and the line break at e. */
  ghost predicate Suffix(s: bytes, u: int, e: int, major: nat, minor: nat) {
    && 0 <= u <= e <= |s|
    && if u == e then major == 0 && minor == 9
       else
         || (Spaces(s, u, e) && major == 0 && minor == 9)
         || exists v: nat, d: nat :: u < v && Spaces(s, u, v) && HttpVersion(s, v, d, e, major, minor)
  }

  /** Where the scan for a query or a reason to rewrite the path stops. */
  predicate Stops(s: bytes, j: nat)
    requires 0 < j < |s|
  {
    s[j] == QUESTION || s[j] == PERCENT || (s[j] == DOT && s[j - 1] == SLASH)
  }

  function ScanEnd(s: bytes, i: nat, e: nat): (x: nat)
    requires 0 < i <= e <= |s|
    ensures i <= x <= e
    ensures forall j | i <= j < x :: !Stops(s, j)
    ensures x < e ==> Stops(s, x)
    decreases e - i
  {
    if i == e || Stops(s, i) then i else ScanEnd(s, i + 1, e)
  }

  /** Two slashes in a row somewhere in s[u..x]. */
  predicate DoubleSlash(s: bytes, u: nat, x: nat)
    requires x <= |s|
  {
    exists j | u < j < x :: s[j - 1] == SLASH && s[j] == SLASH
  }

  /** Just after the last dot of the last segment of s[u..x], or NULL. */
  function ExtMark(s: bytes, u: nat, x: nat): (r: Ptr)
    requires x <= |s|
    ensures r != NULL ==> u < r <= x && s[r - 1] == DOT
  {
    if x <= u || s[x - 1] == SLASH then NULL
    else if s[x - 1] == DOT then x
    else ExtMark(s, u, x - 1)
  }

  /** The target s[u..e] and the three marks it determines. */
  ghost predicate Target(m: Marks, s: bytes, u: int, e: int) {
    && 0 <= u < e <= |s| && s[u] == SLASH
    && (forall j | u <= j < e :: !EndsTarget(s[j]))
    && var x := ScanEnd(s, u + 1, e);
    && m.uri.args == (if x < e && s[x] == QUESTION then x + 1 else NULL)
    && m.uri.complex == (DoubleSlash(s, u, x) || (x < e && s[x] != QUESTION))
    && m.uri.ext == ExtMark(s, u, x)
  }

  /** scheme, "://", host and optional port, from t to the target. */
  ghost predicate Authority(m: Marks, s: bytes, t: int) {
    && 0 <= t < m.auth.schemaEnd && m.auth.schemaEnd + 2 < |s| && m.auth.schemaStart == t
    && (forall j | t <= j < m.auth.schemaEnd :: IsAlpha(s[j]))
    && s[m.auth.schemaEnd] == COLON && s[m.auth.schemaEnd + 1] == SLASH && s[m.auth.schemaEnd + 2] == SLASH
    && m.auth.hostStart == m.auth.schemaEnd + 2
    && m.auth.hostStart < m.auth.hostEnd < |s|
    && (forall j | m.auth.hostStart < j < m.auth.hostEnd :: IsHostByte(s[j]))
    && if m.auth.portEnd == NULL then m.uri.start == m.auth.hostEnd
       else
         && s[m.auth.hostEnd] == COLON && m.auth.hostEnd < m.auth.portEnd < |s|
         && (forall j | m.auth.hostEnd < j < m.auth.portEnd :: s[j] != SLASH)
         && m.uri.start == m.auth.portEnd
  }

  /** The method code of a word. The third word is what the code compares POST with. */
  function Verb(word: bytes): nat {
    if word == Ascii("GET") then GET
    else if word == Ascii("HEAD") then HEAD
    else if word == Ascii("POTT") then POST
    else 0
  }

  ghost predicate Front(m: Marks, s: bytes, start: nat) {
    && start <= m.req.start < m.req.methodEnd < |s|
    && (forall j | start <= j < m.req.start :: s[j] == CR || s[j] == LF)
    && (forall j | m.req.start <= j < m.req.methodEnd :: IsUpper(s[j]))
    && s[m.req.methodEnd] == SP
    && m.req.verb == Verb(s[m.req.start..m.req.methodEnd])
  }

  /** Everything before the target: leading line breaks, method, spaces, and an optional authority. */
  ghost predicate BeforeTarget(m: Marks, s: bytes, start: nat) {
    && Front(m, s, start)
    && var t := if m.auth.schemaStart == NULL then m.uri.start else m.auth.schemaStart;
    && m.req.methodEnd < t && t <= |s| && Spaces(s, m.req.methodEnd, t)
    && 0 <= m.uri.start < |s| && s[m.uri.start] == SLASH
    && if m.auth.schemaStart == NULL then
         m.auth.schemaEnd == NULL && m.auth.hostStart == NULL && m.auth.hostEnd == NULL && m.auth.portEnd == NULL
       else Authority(m, s, t)
  }

  /** The bytes s[start..k] are a request line and m marks its parts. */
  ghost predicate Line(m: Marks, s: bytes, start: nat, k: nat) {
    && BeforeTarget(m, s, start)
    && Target(m, s, m.uri.start, m.uri.end)
    && Suffix(s, m.uri.end, m.end.at, m.end.major, m.end.minor)
    && LineBreak(s, m.end.at, k)
  }

  // ----- one turn at a time

  lemma Take(q: LineState, m: Marks, s: bytes, i: nat, q': LineState, m': Marks)
    requires i < |s| && !q.Done? && Resumable(q, m, i) && Step(q, m, s, i) == Go(q', m')
    ensures Run(q, m, s, i) == Run(q', m', s, i + 1)
  {
  }

  lemma Taken(q: LineState, m0: Marks, s: bytes, i: nat, m: Marks, k: nat)
    requires i <= |s| && !q.Done? && Resumable(q, m0, i) && Run(q, m0, s, i) == Finished(m, k)
    ensures i < |s| && Step(q, m0, s, i).Go?
    ensures var r := Step(q, m0, s, i); Run(r.q, r.m, s, i + 1) == Finished(m, k)
  {
  }

  // ----- runs that stay in one state

  /** The bytes that leave a state and its marks as they are. */
  predicate Stays(q: LineState, b: byte) {
    match q
    case Method => IsUpper(b)
    case SpacesBeforeUri => b == SP
    case Schema => IsAlpha(b)
    case Host => IsHostByte(b)
    case Port => b != SLASH
    case Uri => !EndsTarget(b)
    case Http09 => b == SP
    case _ => false
  }

  lemma StayingStep(q: LineState, m: Marks, s: bytes, i: nat)
    requires i < |s| && Resumable(q, m, i) && Stays(q, s[i])
    ensures !q.Done? && Step(q, m, s, i) == Go(q, m)
  {
  }

  lemma {:induction false} Stay(q: LineState, m: Marks, s: bytes, i: nat, j: nat)
    requires i <= j <= |s| && Resumable(q, m, i)
    requires forall t | i <= t < j :: Stays(q, s[t])
    ensures Resumable(q, m, j) && Run(q, m, s, i) == Run(q, m, s, j)
    decreases j - i
  {
    hide Step, Run, Stays;
    if i < j {
      StayingStep(q, m, s, i);
      Take(q, m, s, i, q, m);
      Stay(q, m, s, i + 1, j);
    }
  }

  /** The first index from i on whose byte leaves state q. */
  function Exit(q: LineState, s: bytes, i: nat): (j: nat)
    requires i <= |s|
    ensures i <= j <= |s|
    ensures forall t | i <= t < j :: Stays(q, s[t])
    ensures j < |s| ==> !Stays(q, s[j])
    decreases |s| - i
  {
    if i == |s| || !Stays(q, s[i]) then i else Exit(q, s, i + 1)
  }

  // ----- leading line breaks

  lemma {:induction false} Lead(m: Marks, s: bytes, i: nat, j: nat)
    requires i <= j < |s| && IsUpper(s[j])
    requires forall t | i <= t < j :: s[t] == CR || s[t] == LF
    ensures Run(Start, m, s, i) == Run(Method, m.(req := m.req.(start := j)), s, j + 1)
    decreases j - i
  {
    if i < j {
      Lead(m.(req := m.req.(start := i)), s, i + 1, j);
    }
  }

  function LeadEnd(s: bytes, i: nat): (j: nat)
    requires i <= |s|
    ensures i <= j <= |s|
    ensures forall t | i <= t < j :: s[t] == CR || s[t] == LF
    ensures j < |s| ==> s[j] != CR && s[j] != LF
    decreases |s| - i
  {
    if i == |s| || (s[i] != CR && s[i] != LF) then i else LeadEnd(s, i + 1)
  }

  lemma {:induction false} LeadNeedsMethod(m: Marks, s: bytes, i: nat)
    requires i <= |s| && Run(Start, m, s, i).Finished?
    ensures LeadEnd(s, i) < |s| && IsUpper(s[LeadEnd(s, i)])
    decreases |s| - i
  {
    if i < |s| && (s[i] == CR || s[i] == LF) {
      LeadNeedsMethod(m.(req := m.req.(start := i)), s, i + 1);
    }
  }

  // ----- digits

  function MajorIs(m: Marks, v: nat): Marks { m.(end := m.end.(major := v)) }

  function MinorIs(m: Marks, v: nat): Marks { m.(end := m.end.(minor := v)) }

  function EndIs(m: Marks, major: nat, minor: nat, e: Ptr): Marks { m.(end := EndPart(major, minor, e)) }

  lemma OneDigit(s: bytes, a: nat)
    requires a < |s| && IsDigit(s[a])
    ensures Number(s, a, a + 1) == s[a] - ZERO
  {
    assert Number(s, a, a) == 0;
  }

  lemma {:induction false} Major(m: Marks, s: bytes, a: nat, i: nat, d: nat)
    requires a < i <= d <= |s| && forall j | a <= j < d :: IsDigit(s[j])
    requires m.end.major == Number(s, a, i)
    ensures Run(MajorDigit, m, s, i) == Run(MajorDigit, MajorIs(m, Number(s, a, d)), s, d)
    decreases d - i
  {
    if i < d {
      Major(MajorIs(m, Number(s, a, i + 1)), s, a, i + 1, d);
    }
  }

  lemma {:induction false} Minor(m: Marks, s: bytes, a: nat, i: nat, e: nat)
    requires a < i <= e <= |s| && forall j | a <= j < e :: IsDigit(s[j])
    requires m.end.minor == Number(s, a, i)
    ensures Run(MinorDigit, m, s, i) == Run(MinorDigit, MinorIs(m, Number(s, a, e)), s, e)
    decreases e - i
  {
    if i < e {
      Minor(MinorIs(m, Number(s, a, i + 1)), s, a, i + 1, e);
    }
  }

  function DigitsEnd(s: bytes, i: nat): (j: nat)
    requires i <= |s|
    ensures i <= j <= |s|
    ensures forall t | i <= t < j :: IsDigit(s[t])
    ensures j < |s| ==> !IsDigit(s[j])
    decreases |s| - i
  {
    if i == |s| || !IsDigit(s[i]) then i else DigitsEnd(s, i + 1)
  }

  // ----- the target scan

  /** The state and marks of the scan when s[u..i] has been read. */
  function ScanState(s: bytes, i: nat): LineState
    requires 0 < i <= |s|
  {
    if s[i - 1] == SLASH then AfterSlashInUri else CheckUri
  }

  function ScanMarks(m: Marks, s: bytes, u: nat, i: nat): Marks
    requires i <= |s|
  {
    m.(uri := m.uri.(complex := DoubleSlash(s, u, i), ext := ExtMark(s, u, i)))
  }

  lemma ScanStep(m: Marks, s: bytes, u: nat, i: nat)
    requires u < i < |s| && s[u] == SLASH
    requires !EndsTarget(s[i]) && !Stops(s, i)
    ensures Step(ScanState(s, i), ScanMarks(m, s, u, i), s, i) == Go(ScanState(s, i + 1), ScanMarks(m, s, u, i + 1))
  {
    assert DoubleSlash(s, u, i + 1) == (DoubleSlash(s, u, i) || s[i - 1] == SLASH == s[i]);
  }

  lemma ScanTurn(m: Marks, s: bytes, u: nat, i: nat)
    requires u < i < |s| && s[u] == SLASH
    requires !EndsTarget(s[i]) && !Stops(s, i)
    ensures Run(ScanState(s, i), ScanMarks(m, s, u, i), s, i)
         == Run(ScanState(s, i + 1), ScanMarks(m, s, u, i + 1), s, i + 1)
  {
    ScanStep(m, s, u, i);
    Take(ScanState(s, i), ScanMarks(m, s, u, i), s, i, ScanState(s, i + 1), ScanMarks(m, s, u, i + 1));
  }

  lemma {:induction false} Scan(m: Marks, s: bytes, u: nat, i: nat, x: nat)
    requires u < i <= x <= |s| && s[u] == SLASH
    requires forall j | i <= j < x :: !EndsTarget(s[j]) && !Stops(s, j)
    ensures Run(ScanState(s, i), ScanMarks(m, s, u, i), s, i) == Run(ScanState(s, x), ScanMarks(m, s, u, x), s, x)
    decreases x - i
  {
    hide Step, Run, ScanState, ScanMarks;
    if i < x {
      ScanTurn(m, s, u, i);
      Scan(m, s, u, i + 1, x);
    }
  }

  /** The marks a target s[u..e] leaves on m. */
  function TargetMarks(m: Marks, s: bytes, u: nat, e: nat): Marks
    requires u < e <= |s|
  {
    var x := ScanEnd(s, u + 1, e);
    m.(uri := m.uri.(args := if x < e && s[x] == QUESTION then x + 1 else NULL,
                     complex := DoubleSlash(s, u, x) || (x < e && s[x] != QUESTION),
                     ext := ExtMark(s, u, x)))
  }

  lemma ScanStop(m: Marks, s: bytes, u: nat, e: nat, x: nat)
    requires u < e <= |s| && x == ScanEnd(s, u + 1, e) < e && !EndsTarget(s[x])
    requires m.uri.args == NULL
    ensures Step(ScanState(s, x), ScanMarks(m, s, u, x), s, x) == Go(Uri, TargetMarks(m, s, u, e))
  {
  }

  predicate InTarget(q: LineState) { q.AfterSlashInUri? || q.CheckUri? || q.Uri? }

  /** A fresh target read up to its delimiter, or up to the end of what has arrived. */
  lemma ReadTarget(m: Marks, s: bytes, u: nat, e: nat) returns (q: LineState)
    requires u < e <= |s| && s[u] == SLASH && forall j | u <= j < e :: !EndsTarget(s[j])
    requires m.uri.args == NULL && m.uri.ext == NULL && !m.uri.complex
    ensures InTarget(q)
    ensures Run(AfterSlashInUri, m, s, u + 1) == Run(q, TargetMarks(m, s, u, e), s, e)
  {
    hide Run;
    var x := ScanEnd(s, u + 1, e);
    assert ScanMarks(m, s, u, u + 1) == m;
    Scan(m, s, u, u + 1, x);
    if x == e {
      q := ScanState(s, e);
    } else {
      q := Uri;
      ScanStop(m, s, u, e, x);
      Take(ScanState(s, x), ScanMarks(m, s, u, x), s, x, Uri, TargetMarks(m, s, u, e));
      Stay(Uri, TargetMarks(m, s, u, e), s, x + 1, e);
    }
  }

  // ----- the grammar is accepted

  predicate BeforeBreak(q: LineState) { q.Http09? || q.MinorDigit? || InTarget(q) }

  /** The marks once a line break at e has been seen from q. */
  function BreakMarks(q: LineState, m: Marks, e: nat): Marks {
    if q.MinorDigit? then m
    else if q.Http09? then MinorIs(m, 9)
    else m.(uri := m.uri.(end := e), end := m.end.(minor := 9))
  }

  lemma Break(q: LineState, m: Marks, s: bytes, e: nat, k: nat)
    requires BeforeBreak(q) && m.end.at == NULL && LineBreak(s, e, k)
    ensures Run(q, m, s, e) == Finished(BreakMarks(q, m, e).(end := BreakMarks(q, m, e).end.(at := e)), k)
  {
    var m' := BreakMarks(q, m, e);
    if s[e] == LF {
      Take(q, m, s, e, Done, m');
    } else {
      Take(q, m, s, e, AlmostDone, m');
      Take(AlmostDone, m', s, e + 1, Done, m'.(end := m'.end.(at := e)));
    }
  }

  lemma AcceptLiteral(m: Marks, s: bytes, v: nat)
    requires v + 5 <= |s|
    requires s[v] == 72 && s[v + 1] == 84 && s[v + 2] == 84 && s[v + 3] == 80 && s[v + 4] == SLASH
    ensures Run(Http09, m, s, v) == Run(FirstMajorDigit, m, s, v + 5)
  {
    hide Run;
    Take(Http09, m, s, v, HttpH, m);
    Take(HttpH, m, s, v + 1, HttpHT, m);
    Take(HttpHT, m, s, v + 2, HttpHTT, m);
    Take(HttpHTT, m, s, v + 3, HttpHTTP, m);
    Take(HttpHTTP, m, s, v + 4, FirstMajorDigit, m);
  }

  lemma AcceptMajor(m: Marks, s: bytes, a: nat, d: nat)
    requires a < d < |s| && (forall j | a <= j < d :: IsDigit(s[j])) && s[a] != ZERO && s[d] == DOT
    ensures Run(FirstMajorDigit, m, s, a) == Run(FirstMinorDigit, MajorIs(m, Number(s, a, d)), s, d + 1)
  {
    hide Run;
    OneDigit(s, a);
    var m1 := MajorIs(m, Number(s, a, a + 1));
    Take(FirstMajorDigit, m, s, a, MajorDigit, m1);
    Major(m1, s, a, a + 1, d);
    var m2 := MajorIs(m, Number(s, a, d));
    Take(MajorDigit, m2, s, d, FirstMinorDigit, m2);
  }

  lemma AcceptMinor(m: Marks, s: bytes, a: nat, e: nat, k: nat)
    requires a < e <= |s| && (forall j | a <= j < e :: IsDigit(s[j]))
    requires m.end.at == NULL && LineBreak(s, e, k)
    ensures Run(FirstMinorDigit, m, s, a) == Finished(EndIs(m, m.end.major, Number(s, a, e), e), k)
  {
    hide Run;
    OneDigit(s, a);
    Take(FirstMinorDigit, m, s, a, MinorDigit, MinorIs(m, s[a] - ZERO));
    Minor(MinorIs(m, s[a] - ZERO), s, a, a + 1, e);
    Break(MinorDigit, MinorIs(m, Number(s, a, e)), s, e, k);
  }

  lemma AcceptVersion(m: Marks, s: bytes, v: nat, d: nat, e: nat, k: nat, major: nat, minor: nat)
    requires m.end.at == NULL && LineBreak(s, e, k) && HttpVersion(s, v, d, e, major, minor)
    ensures Run(Http09, m, s, v) == Finished(EndIs(m, major, minor, e), k)
  {
    hide Step, Run, Number;
    AcceptLiteral(m, s, v);
    AcceptMajor(m, s, v + 5, d);
    AcceptMinor(MajorIs(m, major), s, d + 1, e, k);
  }

  lemma AcceptSpaces(q: LineState, m: Marks, s: bytes, u: nat, v: nat)
    requires InTarget(q) && u < v && Spaces(s, u, v)
    ensures Run(q, m, s, u) == Run(Http09, m.(uri := m.uri.(end := u)), s, v)
  {
    Take(q, m, s, u, Http09, m.(uri := m.uri.(end := u)));
    Stay(Http09, m.(uri := m.uri.(end := u)), s, u + 1, v);
  }

  lemma AcceptEnding(q: LineState, m: Marks, s: bytes, u: nat, e: nat, k: nat, major: nat, minor: nat)
    requires InTarget(q) && m.end.at == NULL && m.end.major == 0
    requires Suffix(s, u, e, major, minor) && LineBreak(s, e, k)
    ensures Run(q, m, s, u)
         == Finished(m.(uri := m.uri.(end := u), end := m.end.(major := major, minor := minor, at := e)), k)
  {
    hide Run;
    if u == e {
      Break(q, m, s, e, k);
    } else if Spaces(s, u, e) && major == 0 && minor == 9 {
      AcceptSpaces(q, m, s, u, e);
      Break(Http09, m.(uri := m.uri.(end := u)), s, e, k);
    } else {
      var v: nat, d: nat :| u < v && Spaces(s, u, v) && HttpVersion(s, v, d, e, major, minor);
      AcceptSpaces(q, m, s, u, v);
      AcceptVersion(m.(uri := m.uri.(end := u)), s, v, d, e, k, major, minor);
    }
  }

  function FrontMarks(m: Marks): Marks {
    NO_MARKS.(req := NO_MARKS.req.(start := m.req.start, methodEnd := m.req.methodEnd, verb := m.req.verb))
  }

  lemma ThreeBytes(w: bytes, a: byte, b: byte, c: byte)
    ensures w == [a, b, c] <==> |w| == 3 && w[0] == a && w[1] == b && w[2] == c
  {
  }

  lemma FourBytes(w: bytes, a: byte, b: byte, c: byte, d: byte)
    ensures w == [a, b, c, d] <==> |w| == 4 && w[0] == a && w[1] == b && w[2] == c && w[3] == d
  {
  }

  /** What the code finds out byte by byte is the method code of the whole word. */
  lemma MethodCodeIsVerb(s: bytes, a: nat, b: nat)
    requires a <= b <= |s|
    ensures MethodCode(s, a, b) == Verb(s[a..b])
  {
    var w := s[a..b];
    assert Ascii("GET") == [71, 69, 84] && Ascii("HEAD") == [72, 69, 65, 68] && Ascii("POTT") == [80, 79, 84, 84];
    ThreeBytes(w, 71, 69, 84);
    FourBytes(w, 72, 69, 65, 68);
    FourBytes(w, 80, 79, 84, 84);
    if b - a >= 3 {
      assert w[0] == s[a] && w[1] == s[a + 1] && w[2] == s[a + 2];
    }
    if b - a == 4 {
      assert w[3] == s[a + 3];
    }
  }

  lemma MethodEnds(m: Marks, s: bytes)
    requires 0 <= m.req.start < m.req.methodEnd < |s| && s[m.req.methodEnd] == SP
    requires m.req.verb == Verb(s[m.req.start..m.req.methodEnd])
    ensures var m1 := NO_MARKS.(req := NO_MARKS.req.(start := m.req.start));
      Run(Method, m1, s, m.req.methodEnd) == Run(SpacesBeforeUri, FrontMarks(m), s, m.req.methodEnd + 1)
  {
    var m1 := NO_MARKS.(req := NO_MARKS.req.(start := m.req.start));
    MethodCodeIsVerb(s, m.req.start, m.req.methodEnd);
    Take(Method, m1, s, m.req.methodEnd, SpacesBeforeUri, FrontMarks(m));
  }

  lemma AcceptFront(m: Marks, s: bytes, start: nat, t: nat)
    requires Front(m, s, start) && m.req.methodEnd < t <= |s| && Spaces(s, m.req.methodEnd, t)
    ensures ParseLine(s, start) == Run(SpacesBeforeUri, FrontMarks(m), s, t)
  {
    hide Step, Run;
    Lead(NO_MARKS, s, start, m.req.start);
    var m1 := NO_MARKS.(req := NO_MARKS.req.(start := m.req.start));
    Stay(Method, m1, s, m.req.start + 1, m.req.methodEnd);
    MethodEnds(m, s);
    Stay(SpacesBeforeUri, FrontMarks(m), s, m.req.methodEnd + 1, t);
  }

  function AuthorityMarks(m0: Marks, m: Marks): Marks {
    m0.(auth := m0.auth.(schemaStart := m.auth.schemaStart, schemaEnd := m.auth.schemaEnd,
                         hostStart := m.auth.hostStart, hostEnd := m.auth.hostEnd, portEnd := m.auth.portEnd),
        uri := m0.uri.(start := m.uri.start))
  }

  lemma AcceptScheme(m0: Marks, s: bytes, t: nat, c: nat)
    requires t < c && c + 2 < |s| && (forall j | t <= j < c :: IsAlpha(s[j]))
    requires s[c] == COLON && s[c + 1] == SLASH && s[c + 2] == SLASH
    ensures Run(SpacesBeforeUri, m0, s, t)
         == Run(Host, m0.(auth := m0.auth.(schemaStart := t, schemaEnd := c, hostStart := c + 2)), s, c + 3)
  {
    hide Run;
    var m1 := m0.(auth := m0.auth.(schemaStart := t));
    Take(SpacesBeforeUri, m0, s, t, Schema, m1);
    Stay(Schema, m1, s, t + 1, c);
    var m2 := m1.(auth := m1.auth.(schemaEnd := c));
    Take(Schema, m1, s, c, SchemaSlash, m2);
    Take(SchemaSlash, m2, s, c + 1, SchemaSlashSlash, m2);
    Take(SchemaSlashSlash, m2, s, c + 2, Host, m2.(auth := m2.auth.(hostStart := c + 2)));
  }

  lemma AcceptPort(m0: Marks, s: bytes, h: nat, x: nat)
    requires h < x < |s| && s[h] == COLON && (forall j | h < j < x :: s[j] != SLASH) && s[x] == SLASH
    ensures Run(Host, m0, s, h)
         == Run(AfterSlashInUri,
                m0.(auth := m0.auth.(hostEnd := h, portEnd := x), uri := m0.uri.(start := x)), s, x + 1)
  {
    hide Run;
    var m1 := m0.(auth := m0.auth.(hostEnd := h));
    Take(Host, m0, s, h, Port, m1);
    Stay(Port, m1, s, h + 1, x);
    Take(Port, m1, s, x, AfterSlashInUri, m1.(auth := m1.auth.(portEnd := x), uri := m1.uri.(start := x)));
  }

  lemma AcceptHost(m0: Marks, s: bytes, i: nat, h: nat, x: Ptr, u: nat)
    requires i <= h < |s| && (forall j | i <= j < h :: IsHostByte(s[j])) && m0.auth.portEnd == NULL
    requires u < |s| && s[u] == SLASH
    requires if x == NULL then u == h
             else s[h] == COLON && h < x == u && forall j | h < j < x :: s[j] != SLASH
    ensures Run(Host, m0, s, i)
         == Run(AfterSlashInUri,
                m0.(auth := m0.auth.(hostEnd := h, portEnd := x), uri := m0.uri.(start := u)), s, u + 1)
  {
    hide Run;
    Stay(Host, m0, s, i, h);
    if x == NULL {
      Take(Host, m0, s, h, AfterSlashInUri, m0.(auth := m0.auth.(hostEnd := h), uri := m0.uri.(start := u)));
    } else {
      AcceptPort(m0, s, h, x);
    }
  }

  lemma AcceptAuthority(m0: Marks, m: Marks, s: bytes, t: nat)
    requires Authority(m, s, t) && m.uri.start < |s| && s[m.uri.start] == SLASH && m0.auth.portEnd == NULL
    ensures Run(SpacesBeforeUri, m0, s, t) == Run(AfterSlashInUri, AuthorityMarks(m0, m), s, m.uri.start + 1)
  {
    hide Step, Run;
    AcceptScheme(m0, s, t, m.auth.schemaEnd);
    var m2 := m0.(auth := m0.auth.(schemaStart := t, schemaEnd := m.auth.schemaEnd, hostStart := m.auth.hostStart));
    AcceptHost(m2, s, m.auth.hostStart + 1, m.auth.hostEnd, m.auth.portEnd, m.uri.start);
  }

  lemma AcceptBeforeTarget(m: Marks, s: bytes, start: nat)
    requires BeforeTarget(m, s, start)
    ensures ParseLine(s, start) == Run(AfterSlashInUri, AuthorityMarks(FrontMarks(m), m), s, m.uri.start + 1)
  {
    var m1 := FrontMarks(m);
    if m.auth.schemaStart != NULL {
      AcceptFront(m, s, start, m.auth.schemaStart);
      AcceptAuthority(m1, m, s, m.auth.schemaStart);
    } else {
      AcceptFront(m, s, start, m.uri.start);
      Take(SpacesBeforeUri, m1, s, m.uri.start, AfterSlashInUri, AuthorityMarks(m1, m));
    }
  }

  /** Every text that matches the grammar is accepted, with exactly the marks the grammar gives. */
  lemma Accepts(m: Marks, s: bytes, start: nat, k: nat)
    requires start <= |s| && Line(m, s, start, k)
    ensures ParseLine(s, start) == Finished(m, k)
  {
    hide Step, Run;
    AcceptBeforeTarget(m, s, start);
    var m2 := AuthorityMarks(FrontMarks(m), m);
    var q := ReadTarget(m2, s, m.uri.start, m.uri.end);
    AcceptEnding(q, TargetMarks(m2, s, m.uri.start, m.uri.end), s, m.uri.end, m.end.at, k, m.end.major, m.end.minor);
  }

  // ----- only the grammar is accepted

  lemma FoundBreak(q: LineState, m0: Marks, s: bytes, e: nat, m: Marks, k: nat)
    requires BeforeBreak(q)
    requires e < |s| && (s[e] == CR || s[e] == LF) && m0.end.at == NULL
    requires Run(q, m0, s, e) == Finished(m, k)
    ensures LineBreak(s, e, k) && m == BreakMarks(q, m0, e).(end := BreakMarks(q, m0, e).end.(at := e))
  {
    var m1 := BreakMarks(q, m0, e);
    if s[e] == LF {
      Take(q, m0, s, e, Done, m1);
    } else {
      Take(q, m0, s, e, AlmostDone, m1);
      Taken(AlmostDone, m1, s, e + 1, m, k);
    }
  }

  lemma FoundLiteral(m0: Marks, s: bytes, v: nat, m: Marks, k: nat)
    requires v < |s| && s[v] != SP && s[v] != CR && s[v] != LF
    requires Run(Http09, m0, s, v) == Finished(m, k)
    ensures v + 5 <= |s| && s[v] == 72 && s[v + 1] == 84 && s[v + 2] == 84 && s[v + 3] == 80 && s[v + 4] == SLASH
    ensures Run(FirstMajorDigit, m0, s, v + 5) == Finished(m, k)
  {
    hide Run;
    Taken(Http09, m0, s, v, m, k);
    Taken(HttpH, m0, s, v + 1, m, k);
    Taken(HttpHT, m0, s, v + 2, m, k);
    Taken(HttpHTT, m0, s, v + 3, m, k);
    Taken(HttpHTTP, m0, s, v + 4, m, k);
  }

  lemma FoundMajor(m0: Marks, s: bytes, a: nat, m: Marks, k: nat) returns (d: nat)
    requires a <= |s| && Run(FirstMajorDigit, m0, s, a) == Finished(m, k)
    ensures a < d < |s| && (forall j | a <= j < d :: IsDigit(s[j])) && s[a] != ZERO && s[d] == DOT
    ensures Run(FirstMinorDigit, MajorIs(m0, Number(s, a, d)), s, d + 1) == Finished(m, k)
  {
    Taken(FirstMajorDigit, m0, s, a, m, k);
    OneDigit(s, a);
    d := DigitsEnd(s, a + 1);
    Major(MajorIs(m0, s[a] - ZERO), s, a, a + 1, d);
    Taken(MajorDigit, MajorIs(m0, Number(s, a, d)), s, d, m, k);
  }

  lemma FoundMinor(m0: Marks, s: bytes, a: nat, m: Marks, k: nat) returns (e: nat)
    requires a <= |s| && Run(FirstMinorDigit, m0, s, a) == Finished(m, k) && m0.end.at == NULL
    ensures a < e < |s| && (forall j | a <= j < e :: IsDigit(s[j])) && LineBreak(s, e, k)
    ensures m == EndIs(m0, m0.end.major, Number(s, a, e), e)
  {
    hide Run;
    Taken(FirstMinorDigit, m0, s, a, m, k);
    OneDigit(s, a);
    e := DigitsEnd(s, a + 1);
    Minor(MinorIs(m0, s[a] - ZERO), s, a, a + 1, e);
    var m1 := MinorIs(m0, Number(s, a, e));
    Taken(MinorDigit, m1, s, e, m, k);
    FoundBreak(MinorDigit, m1, s, e, m, k);
  }

  lemma FoundVersion(m0: Marks, s: bytes, v: nat, m: Marks, k: nat) returns (d: nat, e: nat)
    requires v < |s| && s[v] != SP && s[v] != CR && s[v] != LF && m0.end.at == NULL
    requires Run(Http09, m0, s, v) == Finished(m, k)
    ensures LineBreak(s, e, k) && HttpVersion(s, v, d, e, m.end.major, m.end.minor)
    ensures m == EndIs(m0, m.end.major, m.end.minor, e)
  {
    hide Step, Run, Number;
    FoundLiteral(m0, s, v, m, k);
    d := FoundMajor(m0, s, v + 5, m, k);
    e := FoundMinor(MajorIs(m0, Number(s, v + 5, d)), s, d + 1, m, k);
  }

  lemma SpaceEndsTarget(q: LineState, m: Marks, s: bytes, u: nat)
    requires u < |s| && InTarget(q) && s[u] == SP
    ensures Run(q, m, s, u) == Run(Http09, m.(uri := m.uri.(end := u)), s, u + 1)
  {
    Take(q, m, s, u, Http09, m.(uri := m.uri.(end := u)));
  }

  lemma FoundEnding(q: LineState, m0: Marks, s: bytes, u: nat, m: Marks, k: nat)
    requires u < |s| && InTarget(q) && EndsTarget(s[u]) && m0.end.at == NULL && m0.end.major == 0
    requires Run(q, m0, s, u) == Finished(m, k)
    ensures m == m0.(uri := m0.uri.(end := u),
                     end := m0.end.(major := m.end.major, minor := m.end.minor, at := m.end.at))
    ensures Suffix(s, u, m.end.at, m.end.major, m.end.minor) && LineBreak(s, m.end.at, k)
  {
    hide Run, Step;
    if s[u] != SP {
      FoundBreak(q, m0, s, u, m, k);
    } else {
      var m1 := m0.(uri := m0.uri.(end := u));
      SpaceEndsTarget(q, m0, s, u);
      var v := Exit(Http09, s, u + 1);
      Stay(Http09, m1, s, u + 1, v);
      Taken(Http09, m1, s, v, m, k);
      if s[v] == CR || s[v] == LF {
        FoundBreak(Http09, m1, s, v, m, k);
      } else {
        var d, e := FoundVersion(m1, s, v, m, k);
      }
    }
  }

  lemma FoundMethod(s: bytes, start: nat, m: Marks, k: nat) returns (m1: Marks)
    requires start <= |s| && ParseLine(s, start) == Finished(m, k)
    ensures m1 == FrontMarks(m1) && Front(m1, s, start)
    ensures Run(SpacesBeforeUri, m1, s, m1.req.methodEnd + 1) == Finished(m, k)
  {
    hide Run;
    var j := LeadEnd(s, start);
    LeadNeedsMethod(NO_MARKS, s, start);
    Lead(NO_MARKS, s, start, j);
    var m0 := NO_MARKS.(req := NO_MARKS.req.(start := j));
    var x := Exit(Method, s, j + 1);
    Stay(Method, m0, s, j + 1, x);
    Taken(Method, m0, s, x, m, k);
    MethodCodeIsVerb(s, j, x);
    m1 := m0.(req := m0.req.(methodEnd := x, verb := MethodCode(s, j, x)));
  }

  lemma FoundFront(s: bytes, start: nat, m: Marks, k: nat) returns (m1: Marks, t: nat)
    requires start <= |s| && ParseLine(s, start) == Finished(m, k)
    ensures m1 == FrontMarks(m1)
    ensures Front(m1, s, start) && m1.req.methodEnd < t < |s| && Spaces(s, m1.req.methodEnd, t) && s[t] != SP
    ensures Run(SpacesBeforeUri, m1, s, t) == Finished(m, k)
  {
    hide Run;
    m1 := FoundMethod(s, start, m, k);
    t := Exit(SpacesBeforeUri, s, m1.req.methodEnd + 1);
    Stay(SpacesBeforeUri, m1, s, m1.req.methodEnd + 1, t);
    Taken(SpacesBeforeUri, m1, s, t, m, k);
  }

  lemma FoundColon(m0: Marks, s: bytes, c: nat, m: Marks, k: nat)
    requires c <= |s| && (c < |s| ==> !IsAlpha(s[c])) && Run(Schema, m0, s, c) == Finished(m, k)
    ensures c + 2 < |s| && s[c] == COLON && s[c + 1] == SLASH && s[c + 2] == SLASH
  {
    Taken(Schema, m0, s, c, m, k);
    var m1 := m0.(auth := m0.auth.(schemaEnd := c));
    Taken(SchemaSlash, m1, s, c + 1, m, k);
    Taken(SchemaSlashSlash, m1, s, c + 2, m, k);
  }

  lemma FoundScheme(m0: Marks, s: bytes, t: nat, m: Marks, k: nat) returns (c: nat)
    requires t < |s| && IsAlpha(s[t])
    requires Run(SpacesBeforeUri, m0, s, t) == Finished(m, k)
    ensures t < c && c + 2 < |s| && (forall j | t <= j < c :: IsAlpha(s[j]))
    ensures s[c] == COLON && s[c + 1] == SLASH && s[c + 2] == SLASH
  {
    var m1 := m0.(auth := m0.auth.(schemaStart := t));
    Take(SpacesBeforeUri, m0, s, t, Schema, m1);
    c := Exit(Schema, s, t + 1);
    Stay(Schema, m1, s, t + 1, c);
    FoundColon(m1, s, c, m, k);
  }

  lemma FoundHost(m0: Marks, s: bytes, i: nat, m: Marks, k: nat) returns (h: nat, x: Ptr, u: nat)
    requires i <= |s| && Run(Host, m0, s, i) == Finished(m, k) && m0.auth.portEnd == NULL
    ensures i <= h < |s| && (forall j | i <= j < h :: IsHostByte(s[j]))
    ensures u < |s| && s[u] == SLASH
    ensures if x == NULL then u == h
             else s[h] == COLON && h < x == u && forall j | h < j < x :: s[j] != SLASH
  {
    h := Exit(Host, s, i);
    Stay(Host, m0, s, i, h);
    Taken(Host, m0, s, h, m, k);
    if s[h] == SLASH {
      x, u := NULL, h;
    } else {
      u := Exit(Port, s, h + 1);
      x := u;
      Stay(Port, m0.(auth := m0.auth.(hostEnd := h)), s, h + 1, u);
      Taken(Port, m0.(auth := m0.auth.(hostEnd := h)), s, u, m, k);
    }
  }

  lemma FoundAuthority(m1: Marks, s: bytes, t: nat, m: Marks, k: nat) returns (m2: Marks)
    requires t < |s| && IsAlpha(s[t]) && m1.auth.portEnd == NULL
    requires Run(SpacesBeforeUri, m1, s, t) == Finished(m, k)
    ensures m2 == AuthorityMarks(m1, m2)
    ensures Authority(m2, s, t) && 0 <= m2.uri.start < |s| && s[m2.uri.start] == SLASH
    ensures Run(AfterSlashInUri, m2, s, m2.uri.start + 1) == Finished(m, k)
  {
    hide Step, Run;
    var c := FoundScheme(m1, s, t, m, k);
    AcceptScheme(m1, s, t, c);
    var m3 := m1.(auth := m1.auth.(schemaStart := t, schemaEnd := c, hostStart := c + 2));
    var h, x, u := FoundHost(m3, s, c + 3, m, k);
    AcceptHost(m3, s, c + 3, h, x, u);
    m2 := m3.(auth := m3.auth.(hostEnd := h, portEnd := x), uri := m3.uri.(start := u));
  }

  function TargetEnd(s: bytes, i: nat): (e: nat)
    requires i <= |s|
    ensures i <= e <= |s|
    ensures forall j | i <= j < e :: !EndsTarget(s[j])
    ensures e < |s| ==> EndsTarget(s[e])
    decreases |s| - i
  {
    if i == |s| || EndsTarget(s[i]) then i else TargetEnd(s, i + 1)
  }

  lemma FoundTarget(m2: Marks, s: bytes, m: Marks, k: nat)
    requires 0 <= m2.uri.start < |s| && s[m2.uri.start] == SLASH && m2 == AuthorityMarks(FrontMarks(m2), m2)
    requires Run(AfterSlashInUri, m2, s, m2.uri.start + 1) == Finished(m, k)
    ensures FrontMarks(m) == FrontMarks(m2) && AuthorityMarks(FrontMarks(m), m) == m2
    ensures Target(m, s, m.uri.start, m.uri.end)
    ensures Suffix(s, m.uri.end, m.end.at, m.end.major, m.end.minor) && LineBreak(s, m.end.at, k)
  {
    hide Step, Run;
    var u := m2.uri.start;
    var e := TargetEnd(s, u + 1);
    var q := ReadTarget(m2, s, u, e);
    Taken(q, TargetMarks(m2, s, u, e), s, e, m, k);
    FoundEnding(q, TargetMarks(m2, s, u, e), s, e, m, k);
  }

  lemma FoundFrontAndAuthority(s: bytes, start: nat, m: Marks, k: nat) returns (m2: Marks)
    requires start <= |s| && ParseLine(s, start) == Finished(m, k)
    ensures m2 == AuthorityMarks(FrontMarks(m2), m2) && BeforeTarget(m2, s, start)
    ensures Run(AfterSlashInUri, m2, s, m2.uri.start + 1) == Finished(m, k)
  {
    hide Run;
    var m1, t := FoundFront(s, start, m, k);
    if s[t] == SLASH {
      m2 := m1.(uri := m1.uri.(start := t));
      Take(SpacesBeforeUri, m1, s, t, AfterSlashInUri, m2);
    } else {
      Taken(SpacesBeforeUri, m1, s, t, m, k);
      m2 := FoundAuthority(m1, s, t, m, k);
    }
  }

  /** Everything the parser accepts matches the grammar, and its marks are the ones the grammar gives. */
  lemma OnlyAccepts(m: Marks, s: bytes, start: nat, k: nat)
    requires start <= |s| && ParseLine(s, start) == Finished(m, k)
    ensures Line(m, s, start, k)
  {
    hide Step, Run;
    var m2 := FoundFrontAndAuthority(s, start, m, k);
    FoundTarget(m2, s, m, k);
    assert BeforeTarget(m, s, start);
  }

  /** The parser accepts exactly the grammar, and nothing about the result is left open. */
  lemma ParseLineIsGrammar(m: Marks, s: bytes, start: nat, k: nat)
    requires start <= |s|
    ensures ParseLine(s, start) == Finished(m, k) <==> Line(m, s, start, k)
  {
    if ParseLine(s, start) == Finished(m, k) {
      OnlyAccepts(m, s, start, k);
    }
    if Line(m, s, start, k) {
      Accepts(m, s, start, k);
    }
  }

  /** Which method code a finished line gets: that of its whole method word, and none for any other word. */
  lemma VerbIsTheWord(s: bytes, start: nat, m: Marks, k: nat)
    requires start <= |s| && ParseLine(s, start) == Finished(m, k)
    ensures start <= m.req.start < m.req.methodEnd < |s| && s[m.req.methodEnd] == ' ' as int
    ensures var word := s[m.req.start..m.req.methodEnd];
      && (m.req.verb == 1 <==> word == Ascii("GET"))
      && (m.req.verb == 2 <==> word == Ascii("HEAD"))
      && (m.req.verb == 3 <==> word == Ascii("POTT"))
      && (m.req.verb == 0 <==> word !in {Ascii("GET"), Ascii("HEAD"), Ascii("POTT")})
  {
    hide Run, Step;
    ParseLineIsGrammar(m, s, start, k);
    var word := s[m.req.start..m.req.methodEnd];
    assert |Ascii("GET")| == 3 && |Ascii("HEAD")| == 4 == |Ascii("POTT")|;
    assert Ascii("HEAD")[0] != Ascii("POTT")[0];
  }
}
