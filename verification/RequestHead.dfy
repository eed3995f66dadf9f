/**
 The reference: what one request head is, parsed in one shot from its text, and what sequence
 of requests a byte stream holds when every head must fit in the input buffer.
 */
module RequestHead {
  import opened Bytes
  import opened UriSpec
  import opened UriNormaliser
  import opened UriProperties
  import opened CopyString
  import opened RequestLine
  import opened RequestLineGrammar
  import H = HeaderLine
  import B = HeaderBlock
  import opened Framing

  /** EHD_DEFAULT_BUF_SIZE: the budget of one request head. */
  const BUDGET: nat := 4096

  // ----- the strings a request line yields

  /** s[a..b], or nothing when that is no span of s. */
  function Span(s: bytes, a: int, b: int): bytes {
    if 0 <= a <= b <= |s| then s[a..b] else []
  }

  /** Where the path ends: before the question mark if the scan saw one, else at the target's end. */
  function PathEnd(m: Marks): Ptr {
    if m.uri.args != NULL then m.uri.args - 1 else m.uri.end
  }

  function Path(m: Marks, s: bytes): bytes {
    Span(s, m.uri.start, PathEnd(m))
  }

  /**
   One parsed request. The path and its extension are given as the C strings the handler sees,
   with the length the code records for the path.
   */
  datatype Head = Head(
    marks: Marks, unparsedUri: bytes, uriLen: nat, uri: bytes, exten: Option<bytes>, headers: seq<(bytes, bytes)>)

  /** The strings made from a finished line, by the general route; None when the path is refused. */
  function LineStrings(m: Marks, s: bytes): Option<(bytes, nat, bytes, Option<bytes>)> {
    var path := Path(m, s);
    var n := Normalise(path);
    if n.None? then None
    else
      var e := Extension(FinalSegment(PercentDecode(path).value));
      Some((CString(Span(s, m.uri.start, m.uri.end)), |n.value|, CString(n.value),
            if e.None? then None else Some(CString(e.value))))
  }

  function FieldAt(s: bytes, f: H.FieldMarks): (bytes, bytes) {
    (Span(s, f.nameStart, f.nameEnd), Span(s, f.start, f.end))
  }

  function FieldsAt(s: bytes, fields: seq<H.FieldMarks>): (r: seq<(bytes, bytes)>)
    ensures |r| == |fields| && forall i | 0 <= i < |r| :: r[i] == FieldAt(s, fields[i])
  {
    if fields == [] then [] else FieldsAt(s, fields[..|fields| - 1]) + [FieldAt(s, fields[|fields| - 1])]
  }

  // ----- one head

  type HeadResult = Frame<Head>

  function AfterLine(m: Marks, s: bytes, k: nat): (r: HeadResult)
    requires k <= |s|
    ensures r.Whole? ==> k < r.k <= |s|
  {
    var strings := LineStrings(m, s);
    if FinalCode(m) != Ok || strings.None? then Refused
    else
      match B.ReadBlock(H.Start, H.NO_FIELD, s, k, [])
      case Reading(_, _, _) => Incomplete
      case Broken => Refused
      case Complete(fields, k') =>
        var (u, n, uri, e) := strings.value;
        Whole(Head(m, u, n, uri, e, FieldsAt(s, fields)), k')
  }

  /** The head at the start of s, in one shot. */
  function ParseHead(s: bytes): (r: HeadResult)
    ensures r.Whole? ==> 0 < r.k <= |s|
  {
    match ParseLine(s, 0)
    case More(_, _) => Incomplete
    case Bad(_, _) => Refused
    case Finished(m, k) => AfterLine(m, s, k)
  }

  /** The part of a stream that one head may use. */
  function Budgeted(s: bytes): bytes {
    if |s| <= BUDGET then s else s[..BUDGET]
  }

  /** The next request of a stream, within its budget. */
  function NextHead(s: bytes): HeadResult {
    ParseHead(Budgeted(s))
  }

  // ----- more input never changes what has been decided

  lemma SpanPrefix(s: bytes, t: bytes, a: int, b: int)
    requires b <= |s|
    ensures Span(s + t, a, b) == Span(s, a, b)
  {
    if 0 <= a <= b {
      assert (s + t)[a..b] == s[a..b];
    }
  }

  lemma {:induction false} FieldsPrefix(s: bytes, t: bytes, fields: seq<H.FieldMarks>)
    requires forall f | f in fields :: f.nameEnd <= |s| && f.end <= |s|
    ensures FieldsAt(s + t, fields) == FieldsAt(s, fields)
  {
    if fields != [] {
      var f := fields[|fields| - 1];
      FieldsPrefix(s, t, fields[..|fields| - 1]);
      SpanPrefix(s, t, f.nameStart, f.nameEnd);
      SpanPrefix(s, t, f.start, f.end);
    }
  }

  /** One field per line, in order, each inside its own line s[i..k]. */
  ghost predicate InLine(f: H.FieldMarks, i: int, k: int) {
    i <= f.nameStart < f.nameEnd < f.start <= f.end < k
  }

  /** The marks of a header block that was read from i on: in order and in bounds, up to k. */
  ghost predicate Ordered(fields: seq<H.FieldMarks>, i: int, k: int) {
    && (forall j | 0 <= j < |fields| :: InLine(fields[j], i, k))
    && (forall j, l | 0 <= j < l < |fields| :: fields[j].end < fields[l].nameStart)
  }

  lemma {:induction false} BlockIsOrdered(q: H.HeaderState, m: H.FieldMarks, s: bytes, i: nat,
                                          fields: seq<H.FieldMarks>, i0: nat)
    requires i <= |s| && !H.Ended(q) && i0 <= i && q.Start? && Ordered(fields, i0, i)
    ensures var r := B.ReadBlock(q, m, s, i, fields);
      && (r.Reading? ==> Ordered(r.fields, i0, |s|))
      && (r.Complete? ==> Ordered(r.fields, i0, r.k))
    decreases |s| - i
  {
    B.RunAdvances(q, m, s, i);
    B.RunStops(q, m, s, i);
    match H.Run(q, m, s, i)
    case More(_, _) =>
    case Field(m', k) =>
      H.FieldIsGrammar(m, m', s, i, k);
      assert InLine(m', i0, k);
      BlockIsOrdered(H.Start, m', s, k, fields + [m'], i0);
    case End(_, _) =>
    case Bad(_) =>
  }

  lemma LineInBounds(m: Marks, s: bytes, k: nat)
    requires ParseLine(s, 0) == Finished(m, k)
    ensures 0 <= m.req.start < m.req.methodEnd < m.uri.start < m.uri.end <= m.end.at < k <= |s|
    ensures s[m.uri.start] == SLASH && m.uri.start < PathEnd(m) <= m.uri.end
    ensures m.uri.ext != NULL ==> m.uri.start < m.uri.ext <= PathEnd(m)
  {
    ParseLineIsGrammar(m, s, 0, k);
  }

  lemma AfterLinePrefix(m: Marks, s: bytes, t: bytes, k: nat)
    requires ParseLine(s, 0) == Finished(m, k)
    requires AfterLine(m, s, k) != Incomplete
    ensures AfterLine(m, s + t, k) == AfterLine(m, s, k)
  {
    LineInBounds(m, s, k);
    SpanPrefix(s, t, m.uri.start, PathEnd(m));
    SpanPrefix(s, t, m.uri.start, m.uri.end);
    B.SplitBlock(H.Start, H.NO_FIELD, s, t, k, []);
    BlockIsOrdered(H.Start, H.NO_FIELD, s, k, [], k);
    var r := B.ReadBlock(H.Start, H.NO_FIELD, s, k, []);
    if r.Complete? {
      FieldsPrefix(s, t, r.fields);
    }
  }

  /** A head that is complete or refused stays so, whatever bytes follow. */
  lemma HeadPrefix(s: bytes, t: bytes)
    requires ParseHead(s) != Incomplete
    ensures ParseHead(s + t) == ParseHead(s)
  {
    Split(Start, NO_MARKS, s, t, 0);
    if ParseLine(s, 0).Finished? {
      AfterLinePrefix(ParseLine(s, 0).m, s, t, ParseLine(s, 0).k);
    }
  }

  lemma BudgetedCut(s: bytes, t: bytes) returns (more: bytes)
    ensures Budgeted(s + t) == if |s| >= BUDGET then Budgeted(s) else s + more
  {
    more := [];
    if |s| < BUDGET {
      more := Budgeted(s + t)[|s|..];
      assert Budgeted(s + t)[..|s|] == s;
    }
  }

  lemma NextHeadStands(s: bytes, t: bytes)
    ensures Stands(NextHead, BUDGET, s, t)
  {
    var more := BudgetedCut(s, t);
    if |s| < BUDGET && !ParseHead(s).Incomplete? {
      HeadPrefix(s, more);
    }
  }

  /** The head parser cuts streams into requests. */
  lemma NextHeadIsDecisive()
    ensures Advances(NextHead) && Decisive(NextHead, BUDGET)
  {
    forall s: bytes, t: bytes
      ensures Stands(NextHead, BUDGET, s, t)
    {
      NextHeadStands(s, t);
    }
  }

  /** All requests at the front of a stream, one after another. */
  ghost function Requests(s: bytes): seq<Head> {
    NextHeadIsDecisive();
    Frames(NextHead, s)
  }

  /** How much of the stream those requests use. */
  ghost function Consumed(s: bytes): nat {
    NextHeadIsDecisive();
    Used(NextHead, s)
  }

  /** The requests of a longer stream begin with the requests of the shorter one. */
  lemma RequestsGrow(s: bytes, t: bytes)
    ensures Requests(s) <= Requests(s + t)
  {
    NextHeadIsDecisive();
    FramesGrow(NextHead, BUDGET, s, t);
  }

  // ----- the fast path

  lemma PlainBeforeStop(s: bytes, u: nat, x: nat)
    requires u + 1 <= x <= |s| && s[u] == SLASH && forall j | u < j < x :: !Stops(s, j)
    requires !DoubleSlash(s, u, x)
    ensures Plain(s[u..x])
  {
    var d := s[u..x];
    forall j | 0 < j < |d|
      ensures d[j] != PERCENT && (d[j - 1] == SLASH ==> d[j] != SLASH && d[j] != DOT)
    {
      assert d[j] == s[u + j] && d[j - 1] == s[u + j - 1] && !Stops(s, u + j);
    }
  }

  lemma ExtensionSnoc(g: bytes, c: byte)
    requires g != [] || c != DOT
    requires g != [] ==> g[0] != DOT
    ensures Extension(g + [c]) == if c == DOT then Some([])
                                  else if Extension(g).None? then None else Some(Extension(g).value + [c])
  {
    hide ExtensionDot;
    ExtensionDotSnoc(g, c);
    var e := ExtensionDot(g);
    if c == DOT {
      assert (g + [c])[|g| + 1..] == [];
    } else if e >= 0 {
      TailSnoc(g, e + 1, c);
    }
  }

  lemma TailSnoc(g: bytes, e: nat, c: byte)
    requires e <= |g|
    ensures (g + [c])[e..] == g[e..] + [c]
  {
  }

  lemma NoExtension()
    ensures Extension([]) == None
  {
  }

  lemma SpanSnoc(s: bytes, e: nat, x: nat)
    requires e < x <= |s|
    ensures s[e..x] == s[e..x - 1] + [s[x - 1]]
  {
  }

  lemma PlainPrefix(init: bytes, c: byte)
    requires Plain(init + [c])
    ensures init == [] ==> c == SLASH
    ensures init != [] ==> Plain(init) && (init[|init| - 1] == SLASH ==> c != SLASH && c != DOT)
  {
    var d := init + [c];
    assert forall j | 0 <= j < |init| :: init[j] == d[j];
    assert d[|init|] == c;
  }

  /** The mark set during the scan is the mark the normaliser would set. */
  lemma {:induction false} ExtMarkIsExtension(s: bytes, u: nat, x: nat)
    requires u < x <= |s| && Plain(s[u..x])
    ensures Extension(FinalSegment(s[u..x]))
         == if ExtMark(s, u, x) == NULL then None else Some(s[ExtMark(s, u, x)..x])
    decreases x
  {
    hide Extension, ExtensionDot, FinalSegment, Segments, Resolve, Plain;
    var init, c := s[u..x - 1], s[x - 1];
    assert s[u..x] == init + [c];
    PlainPrefix(init, c);
    SegmentsSnoc(init, c);
    if c == SLASH {
      NoExtension();
    } else {
      PlainResolves(init);
      ExtMarkIsExtension(s, u, x - 1);
      ExtensionSnoc(FinalSegment(init), c);
      var e := ExtMark(s, u, x - 1);
      if c == DOT {
        assert s[x..x] == [];
      } else if e != NULL {
        SpanSnoc(s, e, x);
      }
    }
  }

  /**
   Fast path refines slow path: for a finished line that was not marked complex, the path is
   its own normal form, and the extension the scan marked is the one the normaliser would find.
   */
  lemma FastPath(m: Marks, s: bytes, k: nat)
    requires ParseLine(s, 0) == Finished(m, k) && !m.uri.complex
    ensures var path := Path(m, s);
      && Normalise(path) == Some(path)
      && PercentDecode(path) == Some(path)
      && Extension(FinalSegment(path)) == if m.uri.ext == NULL then None else Some(Span(s, m.uri.ext, PathEnd(m)))
  {
    var x := FastPathIsPlain(m, s, k);
    var d := Path(m, s);
    PlainIsFixed(d);
    assert d[0..] == d;
    DecodeWithoutPercent(d, 0);
    ExtMarkIsExtension(s, m.uri.start, x);
  }

  lemma FastPathIsPlain(m: Marks, s: bytes, k: nat) returns (x: nat)
    requires ParseLine(s, 0) == Finished(m, k) && !m.uri.complex
    ensures 0 <= m.uri.start < x == PathEnd(m) <= |s| && m.uri.ext == ExtMark(s, m.uri.start, x)
    ensures Path(m, s) == s[m.uri.start..x] && Plain(Path(m, s))
  {
    ParseLineIsGrammar(m, s, 0, k);
    x := ScanEnd(s, m.uri.start + 1, m.uri.end);
    PlainBeforeStop(s, m.uri.start, x);
  }
}
