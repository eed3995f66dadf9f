/**
 How far one request head has been parsed, as pure facts about the text received for it: what
 each answer of the parsers means for the reference, and what more input leaves unchanged.
 */
module Progress {
  import opened Bytes
  import opened RequestHead
  import opened Framing
  import opened Terminated
  import L = RequestLine
  import H = HeaderLine
  import B = HeaderBlock

  type Strings = (bytes, nat, bytes, Option<bytes>)

  // ----- in the request line

  /** The line has been read up to pos and can be resumed there in state q with marks m. */
  ghost predicate InLinePhase(w: bytes, q: L.LineState, m: L.Marks, pos: nat) {
    && pos <= |w| && !q.Done? && L.Resumable(q, m, pos)
    && L.Run(q, m, w, pos) == L.ParseLine(w, 0)
  }

  lemma {:induction false} MoreIsNotDone(q: L.LineState, m: L.Marks, w: bytes, i: nat)
    requires i <= |w| && L.Resumable(q, m, i)
    ensures L.Run(q, m, w, i).More? ==> !L.Run(q, m, w, i).q.Done?
    decreases |w| - i
  {
    if !q.Done? && i < |w| && L.Step(q, m, w, i).Go? {
      L.RunTurn(q, m, w, i);
      MoreIsNotDone(L.Step(q, m, w, i).q, L.Step(q, m, w, i).m, w, i + 1);
    }
  }

  lemma LineGrows(w: bytes, t: bytes, q: L.LineState, m: L.Marks, pos: nat)
    requires InLinePhase(w, q, m, pos)
    ensures InLinePhase(w + t, q, m, pos)
  {
    L.Split(q, m, w, t, pos);
    L.Split(L.Start, L.NO_MARKS, w, t, 0);
  }

  lemma LineMore(w: bytes, q: L.LineState, m: L.Marks, pos: nat)
    requires InLinePhase(w, q, m, pos) && L.Run(q, m, w, pos).More?
    ensures var r := L.Run(q, m, w, pos); InLinePhase(w, r.q, r.m, |w|)
  {
    MoreIsNotDone(q, m, w, pos);
    var r := L.Run(q, m, w, pos);
    L.RunEnd(r.q, r.m, w, |w|);
  }

  lemma LineWaits(w: bytes, q: L.LineState, m: L.Marks)
    requires InLinePhase(w, q, m, |w|)
    ensures ParseHead(w).Incomplete?
  {
    L.RunEnd(q, m, w, |w|);
  }

  /** A parse error, the 0.9 check or a refused path: the reference refuses the head as well. */
  lemma LineRefused(w: bytes)
    requires var r := L.ParseLine(w, 0);
      r.Bad? || (r.Finished? && (L.FinalCode(r.m) != L.Ok || LineStrings(r.m, w).None?))
    ensures ParseHead(w).Refused?
  {
  }

  /** What each answer of the request-line parser means. */
  lemma LineAnswer(w: bytes, q: L.LineState, m: L.Marks, pos: nat)
    requires InLinePhase(w, q, m, pos)
    ensures match L.Run(q, m, w, pos)
      case More(q', m') => InLinePhase(w, q', m', |w|)
      case Finished(m', k) =>
        && L.ParseLine(w, 0) == L.Finished(m', k)
        && (L.FinalCode(m') != L.Ok ==> ParseHead(w).Refused?)
      case Bad(_, _) => ParseHead(w).Refused?
  {
    match L.Run(q, m, w, pos)
    case More(_, _) => LineMore(w, q, m, pos);
    case Finished(m', _) => if L.FinalCode(m') != L.Ok { LineRefused(w); }
    case Bad(_, _) => LineRefused(w);
  }

  // ----- in the header block

  /**
   The line of w is finished at lineK with marks m; the headers before lo are `fields`; the
   current header line is read up to pos and can be resumed there.
   */
  ghost predicate InHeaderPhase(w: bytes, m: L.Marks, strings: Strings, lineK: nat, fields: seq<H.FieldMarks>,
                                lo: nat, q: H.HeaderState, f: H.FieldMarks, pos: nat) {
    && L.ParseLine(w, 0) == L.Finished(m, lineK)
    && L.FinalCode(m) == L.Ok && LineStrings(m, w) == Some(strings)
    && InBlock(w, m, lineK, fields, lo, q, f, pos)
  }

  ghost predicate InBlock(w: bytes, m: L.Marks, lineK: nat, fields: seq<H.FieldMarks>,
                          lo: nat, q: H.HeaderState, f: H.FieldMarks, pos: nat) {
    && 0 <= m.end.at < lineK <= lo <= pos <= |w|
    && !H.Ended(q) && Sane(q, f, lo, pos) && Ordered(fields, lineK, lo)
    && B.ReadBlock(q, f, w, pos, fields) == B.ReadBlock(H.Start, H.NO_FIELD, w, lineK, [])
  }

  lemma HeadersBegin(w: bytes, m: L.Marks, strings: Strings, lineK: nat)
    requires L.ParseLine(w, 0) == L.Finished(m, lineK)
    requires L.FinalCode(m) == L.Ok && LineStrings(m, w) == Some(strings)
    ensures InHeaderPhase(w, m, strings, lineK, [], lineK, H.Start, H.NO_FIELD, lineK)
  {
    LineInBounds(m, w, lineK);
  }

  lemma HeadersInside(w: bytes, m: L.Marks, strings: Strings, lineK: nat, fields: seq<H.FieldMarks>,
                      lo: nat, q: H.HeaderState, f: H.FieldMarks, pos: nat)
    requires InHeaderPhase(w, m, strings, lineK, fields, lo, q, f, pos)
    ensures 0 <= m.end.at < lineK <= lo <= pos <= |w| && Ordered(fields, lineK, lo) && !H.Ended(q)
  {
  }

  lemma BlockGrows(w: bytes, t: bytes, m: L.Marks, lineK: nat, fields: seq<H.FieldMarks>,
                   lo: nat, q: H.HeaderState, f: H.FieldMarks, pos: nat)
    requires InBlock(w, m, lineK, fields, lo, q, f, pos)
    ensures InBlock(w + t, m, lineK, fields, lo, q, f, pos)
  {
    B.SplitBlock(q, f, w, t, pos, fields);
    B.SplitBlock(H.Start, H.NO_FIELD, w, t, lineK, []);
  }

  lemma HeadersGrow(w: bytes, t: bytes, m: L.Marks, strings: Strings, lineK: nat, fields: seq<H.FieldMarks>,
                    lo: nat, q: H.HeaderState, f: H.FieldMarks, pos: nat)
    requires InHeaderPhase(w, m, strings, lineK, fields, lo, q, f, pos)
    ensures InHeaderPhase(w + t, m, strings, lineK, fields, lo, q, f, pos)
  {
    L.Split(L.Start, L.NO_MARKS, w, t, 0);
    LineInBounds(m, w, lineK);
    SpanPrefix(w, t, m.uri.start, PathEnd(m));
    SpanPrefix(w, t, m.uri.start, m.uri.end);
    BlockGrows(w, t, m, lineK, fields, lo, q, f, pos);
  }

  lemma BlockMore(w: bytes, m: L.Marks, lineK: nat, fields: seq<H.FieldMarks>,
                  lo: nat, q: H.HeaderState, f: H.FieldMarks, pos: nat)
    requires InBlock(w, m, lineK, fields, lo, q, f, pos) && H.Run(q, f, w, pos).More?
    ensures var r := H.Run(q, f, w, pos); InBlock(w, m, lineK, fields, lo, r.q, r.m, |w|)
  {
    RunStaysSane(q, f, w, pos, lo);
    B.RunStops(q, f, w, pos);
    var r := H.Run(q, f, w, pos);
    B.ReadNothing(r.q, r.m, w, fields);
  }

  lemma BlockField(w: bytes, m: L.Marks, lineK: nat, fields: seq<H.FieldMarks>,
                   lo: nat, q: H.HeaderState, f: H.FieldMarks, pos: nat)
    requires InBlock(w, m, lineK, fields, lo, q, f, pos) && H.Run(q, f, w, pos).Field?
    ensures var r := H.Run(q, f, w, pos);
      && pos < r.k && InLine(r.m, lo, r.k)
      && InBlock(w, m, lineK, fields + [r.m], r.k, H.Start, r.m, r.k)
  {
    RunStaysSane(q, f, w, pos, lo);
    B.RunAdvances(q, f, w, pos);
    var r := H.Run(q, f, w, pos);
    OrderedSnoc(fields, r.m, lineK, lo, r.k);
  }

  lemma HeadersEnd(w: bytes, m: L.Marks, strings: Strings, lineK: nat, fields: seq<H.FieldMarks>,
                   lo: nat, q: H.HeaderState, f: H.FieldMarks, pos: nat)
    requires InHeaderPhase(w, m, strings, lineK, fields, lo, q, f, pos) && H.Run(q, f, w, pos).End?
    ensures ParseHead(w) == Whole(Head(m, strings.0, strings.1, strings.2, strings.3, FieldsAt(w, fields)),
                                  H.Run(q, f, w, pos).k)
  {
  }

  lemma HeadersRefused(w: bytes, m: L.Marks, strings: Strings, lineK: nat, fields: seq<H.FieldMarks>,
                       lo: nat, q: H.HeaderState, f: H.FieldMarks, pos: nat)
    requires InHeaderPhase(w, m, strings, lineK, fields, lo, q, f, pos) && H.Run(q, f, w, pos).Bad?
    ensures ParseHead(w).Refused?
  {
  }

  lemma HeadersWait(w: bytes, m: L.Marks, strings: Strings, lineK: nat, fields: seq<H.FieldMarks>,
                    lo: nat, q: H.HeaderState, f: H.FieldMarks)
    requires InHeaderPhase(w, m, strings, lineK, fields, lo, q, f, |w|)
    ensures ParseHead(w).Incomplete?
  {
    B.ReadNothing(q, f, w, fields);
  }

  /** The header parser sees the text as it was received, although NULs have been written behind it. */
  lemma RunOverNuls(w: bytes, m: L.Marks, lineK: nat, fields: seq<H.FieldMarks>,
                    lo: nat, q: H.HeaderState, f: H.FieldMarks, pos: nat)
    requires InBlock(w, m, lineK, fields, lo, q, f, pos)
    ensures H.Run(q, f, WithNuls(w, m.end.at, fields), pos) == H.Run(q, f, w, pos)
  {
    OrderedWiden(fields, lineK, lo, pos);
    NothingAhead(w, m.end.at, fields, lineK, pos);
    H.ReadsOnlyAhead(q, f, w, WithNuls(w, m.end.at, fields), pos);
  }

  lemma OrderedWiden(fields: seq<H.FieldMarks>, i: int, lo: int, hi: int)
    requires Ordered(fields, i, lo) && lo <= hi
    ensures Ordered(fields, i, hi)
  {
    forall j | 0 <= j < |fields| ensures InLine(fields[j], i, hi) {
      assert InLine(fields[j], i, lo);
    }
  }

  // ----- the stream

  lemma WithinBudget(w: bytes)
    requires |w| <= BUDGET
    ensures NextHead(w) == ParseHead(w)
  {
  }

  /** While the head is incomplete the stream holds no request beyond those already parsed. */
  lemma NoRequestWithheld(past: bytes, w: bytes)
    requires Consumed(past) == |past| && |w| <= BUDGET && ParseHead(w).Incomplete?
    ensures Requests(past + w) == Requests(past)
  {
    NextHeadIsDecisive();
    FramesAppend(NextHead, BUDGET, past, w);
    WithinBudget(w);
    assert Frames(NextHead, w) == [];
    assert Requests(past) + [] == Requests(past);
  }

  /** A refused head, or one that fills the buffer without ending, is the end of the requests. */
  lemma NothingFollows(past: bytes, w: bytes, t: bytes)
    requires Consumed(past) == |past| && |w| <= BUDGET
    requires ParseHead(w).Refused? || (ParseHead(w).Incomplete? && |w| == BUDGET)
    ensures Requests(past + w + t) == Requests(past)
  {
    NextHeadIsDecisive();
    WithinBudget(w);
    FramesStop(NextHead, BUDGET, past, w, t);
  }

  /** A complete head is the next request of the stream. */
  lemma RequestFollows(past: bytes, w: bytes)
    requires Consumed(past) == |past| && |w| <= BUDGET && ParseHead(w).Whole?
    ensures var k := ParseHead(w).k;
      && Requests(past + w[..k]) == Requests(past) + [ParseHead(w).head]
      && Consumed(past + w[..k]) == |past + w[..k]|
      && forall t: bytes :: Requests(past) + [ParseHead(w).head] <= Requests(past + w + t)
  {
    var r := ParseHead(w);
    NextHeadIsDecisive();
    HeadAlone(w);
    FrameFollows(NextHead, BUDGET, past, w, r.head, r.k);
  }

  /** A complete head does not need the bytes that follow it. */
  lemma HeadAlone(w: bytes)
    requires |w| <= BUDGET && ParseHead(w).Whole?
    ensures NextHead(w[..ParseHead(w).k]) == ParseHead(w) && NextHead([]).Incomplete?
  {
    var r := ParseHead(w);
    var s, t := w[..r.k], w[r.k..];
    assert s + t == w;
    TruncatedHead(s, t);
  }

  lemma TruncatedHead(s: bytes, t: bytes)
    requires |s + t| <= BUDGET && ParseHead(s + t).Whole? && ParseHead(s + t).k == |s|
    ensures ParseHead(s) == ParseHead(s + t)
  {
    if !ParseHead(s).Incomplete? {
      HeadPrefix(s, t);
    } else {
      HeadNeedsMore(s, t);
    }
  }

  /** A head that is incomplete in s uses bytes beyond s. */
  lemma HeadNeedsMore(s: bytes, t: bytes)
    requires ParseHead(s).Incomplete?
    ensures ParseHead(s + t).Whole? ==> ParseHead(s + t).k > |s|
  {
    L.Split(L.Start, L.NO_MARKS, s, t, 0);
    var r := L.ParseLine(s, 0);
    if r.Finished? {
      B.SplitBlock(H.Start, H.NO_FIELD, s, t, r.k, []);
    }
  }

  /** The name of every header of a list. */
  function NamesAt(w: bytes, fields: seq<H.FieldMarks>): (r: seq<bytes>)
    ensures |r| == |fields|
  {
    seq(|fields|, i requires 0 <= i < |fields| => FieldAt(w, fields[i]).0)
  }

  /** The names of a list of headers. */
  function HeaderNames(hs: seq<(bytes, bytes)>): (r: seq<bytes>)
    ensures |r| == |hs|
  {
    seq(|hs|, i requires 0 <= i < |hs| => hs[i].0)
  }

  lemma NamesOfFields(w: bytes, fields: seq<H.FieldMarks>)
    ensures HeaderNames(FieldsAt(w, fields)) == NamesAt(w, fields)
  {
  }

  lemma NamesSnoc(w: bytes, fields: seq<H.FieldMarks>, f: H.FieldMarks)
    ensures NamesAt(w, fields + [f]) == NamesAt(w, fields) + [FieldAt(w, f).0]
  {
  }

  lemma NamesGrow(w: bytes, t: bytes, fields: seq<H.FieldMarks>)
    requires forall f :: f in fields ==> f.nameEnd <= |w|
    ensures NamesAt(w + t, fields) == NamesAt(w, fields)
  {
    forall i | 0 <= i < |fields|
      ensures FieldAt(w + t, fields[i]).0 == FieldAt(w, fields[i]).0
    {
      assert fields[i] in fields;
      SpanPrefix(w, t, fields[i].nameStart, fields[i].nameEnd);
    }
  }

  lemma NothingYet()
    ensures Requests([]) == [] && Consumed([]) == 0
  {
    NextHeadIsDecisive();
    assert ParseHead([]).Incomplete?;
  }
}
