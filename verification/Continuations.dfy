/**
 When the parsers give up: an error is reported exactly when no continuation of the input could
 still be accepted, neither later than that nor earlier.
 */
module Continuations {
  import opened Bytes
  import L = RequestLine
  import G = RequestLineGrammar
  import H = HeaderLine
  import B = HeaderBlock

  // ----- the request line

  /** The shortest text that ends a line from each state. */
  function LineRest(q: L.LineState): bytes {
    match q
    case Start => [65, SP, SLASH, LF]
    case Method => [SP, SLASH, LF]
    case SpaceAfterMethod => [SP, SLASH, LF]
    case SpacesBeforeUri => [SLASH, LF]
    case Schema => [COLON, SLASH, SLASH, SLASH, LF]
    case SchemaSlash => [SLASH, SLASH, SLASH, LF]
    case SchemaSlashSlash => [SLASH, SLASH, LF]
    case Host => [SLASH, LF]
    case Port => [SLASH, LF]
    case HttpH => [84, 84, 80, SLASH, 49, DOT, 49, LF]
    case HttpHT => [84, 80, SLASH, 49, DOT, 49, LF]
    case HttpHTT => [80, SLASH, 49, DOT, 49, LF]
    case HttpHTTP => [SLASH, 49, DOT, 49, LF]
    case FirstMajorDigit => [49, DOT, 49, LF]
    case MajorDigit => [DOT, 49, LF]
    case FirstMinorDigit => [49, LF]
    case Done => []
    case _ => [LF]
  }

  lemma LineRestStep(q: L.LineState, m: L.Marks, s: bytes, i: nat)
    requires i < |s| && !q.Done? && L.Resumable(q, m, i) && s[i] == LineRest(q)[0]
    ensures L.Step(q, m, s, i).Go? && LineRest(L.Step(q, m, s, i).q) == LineRest(q)[1..]
  {
  }

  lemma {:induction false} LineCanEnd(q: L.LineState, m: L.Marks, s: bytes, i: nat)
    requires i <= |s| && L.Resumable(q, m, i) && s[i..] == LineRest(q)
    ensures L.Run(q, m, s, i).Finished?
    decreases |s| - i
  {
    hide L.Step, LineRest;
    LineRestEmpty(q);
    if !q.Done? {
      assert s[i] == s[i..][0] && s[i + 1..] == s[i..][1..];
      LineRestStep(q, m, s, i);
      L.RunTurn(q, m, s, i);
      LineCanEnd(L.Step(q, m, s, i).q, L.Step(q, m, s, i).m, s, i + 1);
    }
  }

  lemma LineRestEmpty(q: L.LineState)
    ensures LineRest(q) == [] <==> q.Done?
  {
  }

  /** The line parser reports an error exactly when no continuation of the input is accepted. */
  lemma LineErrorsAreExact(s: bytes, start: nat)
    requires start <= |s|
    ensures L.ParseLine(s, start).Bad? <==> forall t: bytes :: !L.ParseLine(s + t, start).Finished?
  {
    hide L.Step, L.Run, LineRest;
    var r := L.ParseLine(s, start);
    forall t: bytes
      ensures r.Bad? ==> !L.ParseLine(s + t, start).Finished?
    {
      L.Split(L.Start, L.NO_MARKS, s, t, start);
    }
    if r.Finished? {
      assert s + [] == s;
      assert L.ParseLine(s + [], start).Finished?;
    } else if r.More? {
      var t := LineRest(r.q);
      L.Split(L.Start, L.NO_MARKS, s, t, start);
      assert (s + t)[|s|..] == t;
      LineCanEnd(r.q, r.m, s + t, |s|);
      assert L.ParseLine(s + t, start).Finished?;
    }
  }

  /** In terms of the grammar: an error means that the input begins no request line. */
  lemma LineErrorsByGrammar(s: bytes, start: nat)
    requires start <= |s|
    ensures L.ParseLine(s, start).Bad?
            <==> forall t: bytes, m: L.Marks, k: nat :: !G.Line(m, s + t, start, k)
  {
    hide L.Run, L.Step, G.Line;
    LineErrorsAreExact(s, start);
    if L.ParseLine(s, start).Bad? {
      forall t: bytes, m: L.Marks, k: nat
        ensures !G.Line(m, s + t, start, k)
      {
        assert !L.ParseLine(s + t, start).Finished?;
        G.ParseLineIsGrammar(m, s + t, start, k);
      }
    } else {
      var t: bytes :| L.ParseLine(s + t, start).Finished?;
      var r := L.ParseLine(s + t, start);
      assert r == L.Finished(r.m, r.k);
      G.ParseLineIsGrammar(r.m, s + t, start, r.k);
      assert G.Line(r.m, s + t, start, r.k);
    }
  }

  // ----- which error

  /**
   The method word of s is at fault: behind line breaks, s[j..t] are its capital letters, and what
   comes next is neither a letter nor, behind at least one of them, a space.
   */
  ghost predicate BadMethod(s: bytes, start: nat, j: nat, t: nat) {
    && start <= j <= t < |s|
    && (forall i | start <= i < j :: s[i] == '\r' as int || s[i] == '\n' as int)
    && (forall i | j <= i < t :: IsUpper(s[i])) && !IsUpper(s[t])
    && if j == t then s[t] != '\r' as int && s[t] != '\n' as int else s[t] != ' ' as int
  }

  lemma {:induction false} SkipBreaks(m: L.Marks, s: bytes, i: nat, j: nat) returns (m': L.Marks)
    requires i <= j <= |s| && forall t | i <= t < j :: s[t] == CR || s[t] == LF
    ensures L.Run(L.Start, m, s, i) == L.Run(L.Start, m', s, j)
    decreases j - i
  {
    m' := m;
    if i < j {
      m' := SkipBreaks(m.(req := m.req.(start := i)), s, i + 1, j);
    }
  }

  /** Behind the method every error is an invalid request. */
  lemma {:induction false} LaterErrors(q: L.LineState, m: L.Marks, s: bytes, i: nat)
    requires i <= |s| && q !in {L.Start, L.Method, L.SpaceAfterMethod}
    ensures L.Run(q, m, s, i).Bad? ==> L.Run(q, m, s, i).code == L.InvalidRequest
    decreases |s| - i
  {
    if !q.Done? && i < |s| {
      L.RunTurn(q, m, s, i);
      LaterStep(q, m, s, i);
      var r := L.Step(q, m, s, i);
      if r.Go? {
        LaterErrors(r.q, r.m, s, i + 1);
      }
    }
  }

  lemma LaterStep(q: L.LineState, m: L.Marks, s: bytes, i: nat)
    requires i < |s| && q !in {L.Start, L.Method, L.SpaceAfterMethod}
    ensures var r := L.Step(q, m, s, i);
      if r.Go? then r.q !in {L.Start, L.Method, L.SpaceAfterMethod} else r.code == L.InvalidRequest
  {
  }

  lemma BadMethodIsReported(s: bytes, start: nat, j: nat, t: nat)
    requires BadMethod(s, start, j, t)
    ensures var r := L.ParseLine(s, start); r.Bad? && r.code == L.InvalidMethod
  {
    var m := SkipBreaks(L.NO_MARKS, s, start, j);
    if j < t {
      G.Lead(m, s, j, j);
      var m1 := m.(req := m.req.(start := j));
      G.Stay(L.Method, m1, s, j + 1, t);
    }
  }

  /** The error is an invalid method exactly when the method word is at fault. */
  lemma WhichError(s: bytes, start: nat)
    requires start <= |s| && L.ParseLine(s, start).Bad?
    ensures L.ParseLine(s, start).code == L.InvalidMethod <==> exists j: nat, t: nat :: BadMethod(s, start, j, t)
    ensures L.ParseLine(s, start).code in {L.InvalidMethod, L.InvalidRequest}
  {
    var j := G.LeadEnd(s, start);
    var m := SkipBreaks(L.NO_MARKS, s, start, j);
    if j < |s| && IsUpper(s[j]) {
      G.Lead(m, s, j, j);
      var m1, t := m.(req := m.req.(start := j)), G.Exit(L.Method, s, j + 1);
      G.Stay(L.Method, m1, s, j + 1, t);
      if s[t] == SP {
        L.RunTurn(L.Method, m1, s, t);
        var r := L.Step(L.Method, m1, s, t);
        LaterErrors(r.q, r.m, s, t + 1);
      } else {
        assert BadMethod(s, start, j, t);
      }
    } else {
      assert BadMethod(s, start, j, j);
    }
    if j': nat, t': nat :| BadMethod(s, start, j', t') {
      BadMethodIsReported(s, start, j', t');
    }
  }

  // ----- header lines and blocks

  /** The shortest text that ends a header line, or the block, from each state. */
  function HeaderRest(q: H.HeaderState): bytes {
    match q
    case Name => [COLON, LF]
    case Done => []
    case HeaderDone => []
    case _ => [LF]
  }

  lemma {:induction false} HeaderCanEnd(q: H.HeaderState, m: H.FieldMarks, s: bytes, i: nat)
    requires i <= |s| && s[i..] == HeaderRest(q)
    ensures H.Run(q, m, s, i).Field? || H.Run(q, m, s, i).End?
    ensures H.Run(q, m, s, i).k == |s|
    decreases |s| - i
  {
    if !H.Ended(q) {
      assert s[i] == s[i..][0] && s[i + 1..] == s[i..][1..];
      var t := H.Step(q, m, s[i], i);
      H.Take(q, m, s, i, t.q, t.m);
      HeaderCanEnd(t.q, t.m, s, i + 1);
    }
  }

  /** What is missing from a block that is still being read. */
  function BlockRest(q: H.HeaderState): bytes {
    if q.Start? || q.HeaderAlmostDone? then [LF] else HeaderRest(q) + [LF]
  }

  lemma LastByte(s: bytes, i: nat, rest: bytes)
    requires i <= |s| && s[i..] == rest + [LF]
    ensures |s| > i && s[..|s| - 1] + [LF] == s && s[..|s| - 1][i..] == rest
  {
    assert s[|s| - 1] == s[i..][|s| - 1 - i] == LF;
    assert s[..|s| - 1][i..] == s[i..][..|s| - 1 - i] == rest;
  }

  lemma BlockCanEnd(q: H.HeaderState, m: H.FieldMarks, s: bytes, i: nat, fields: seq<H.FieldMarks>)
    requires i <= |s| && !H.Ended(q) && s[i..] == BlockRest(q)
    ensures B.ReadBlock(q, m, s, i, fields).Complete?
  {
    var s' := s[..|s| - 1];
    if q.Start? || q.HeaderAlmostDone? {
      assert s[i] == s[i..][0];
      H.Take(q, m, s, i, H.HeaderDone, H.Step(q, m, s[i], i).m);
    } else {
      LastByte(s, i, HeaderRest(q));
      HeaderCanEnd(q, m, s', i);
      H.Split(q, m, s', [LF], i);
      EndsInField(q, m, s', i);
      var r := H.Run(q, m, s, i);
      H.EndIsBlankLine(r.m, s, r.k, |s|);
      B.RunAdvances(q, m, s, i);
    }
  }

  lemma {:induction false} EndsInField(q: H.HeaderState, m: H.FieldMarks, s: bytes, i: nat)
    requires i <= |s| && !q.Start? && !q.HeaderAlmostDone? && !H.Ended(q)
    ensures !H.Run(q, m, s, i).End?
  {
    H.NeverEnds(q, m, s, i);
  }

  /** A header block is refused exactly when no continuation of it is complete. */
  lemma BlockErrorsAreExact(q: H.HeaderState, m: H.FieldMarks, s: bytes, i: nat, fields: seq<H.FieldMarks>)
    requires i <= |s| && !H.Ended(q)
    ensures B.ReadBlock(q, m, s, i, fields).Broken?
            <==> forall t: bytes :: !B.ReadBlock(q, m, s + t, i, fields).Complete?
  {
    hide H.Run, H.Step, B.ReadBlock, BlockRest;
    var r := B.ReadBlock(q, m, s, i, fields);
    forall t: bytes
      ensures r.Broken? ==> !B.ReadBlock(q, m, s + t, i, fields).Complete?
    {
      B.SplitBlock(q, m, s, t, i, fields);
    }
    if r.Complete? {
      assert s + [] == s;
      assert B.ReadBlock(q, m, s + [], i, fields).Complete?;
    } else if r.Reading? {
      var t := BlockRest(r.q);
      B.SplitBlock(q, m, s, t, i, fields);
      assert (s + t)[|s|..] == t;
      BlockCanEnd(r.q, r.m, s + t, |s|, r.fields);
      assert B.ReadBlock(q, m, s + t, i, fields).Complete?;
    }
  }
}
