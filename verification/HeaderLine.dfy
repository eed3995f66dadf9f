/**
 The resumable header-line parser as a fold over bytes, the grammar of one header line, and the
 proof that the two agree.
 */
module HeaderLine {
  import opened Bytes
  import opened RequestLineGrammar

  datatype HeaderState =
    | Start | Name | SpaceBeforeValue | Value | SpaceAfterValue
    | AlmostDone | HeaderAlmostDone | Done | HeaderDone

  /** The span of the name and the span of the value, as offsets into the buffer. */
  datatype FieldMarks = FieldMarks(nameStart: Ptr, nameEnd: Ptr, start: Ptr, end: Ptr)

  const NO_FIELD := FieldMarks(NULL, NULL, NULL, NULL)

  datatype Turn = Go(q: HeaderState, m: FieldMarks) | Fail(m: FieldMarks)

  /** More: parse again later. Field: one header ended just before k. End: the blank line did. */
  datatype HeaderResult =
    | More(q: HeaderState, m: FieldMarks)
    | Field(m: FieldMarks, k: nat)
    | End(m: FieldMarks, k: nat)
    | Bad(m: FieldMarks)

  predicate IsNameByte(b: byte) {
    97 <= Or20(b) <= 122 || b == DASH || b == UNDERSCORE || b == TILDE || b == DOT || IsDigit(b)
  }

  predicate Ended(q: HeaderState) { q.Done? || q.HeaderDone? }

  /** One turn of the switch, on byte b at index i. */
  function Step(q: HeaderState, m: FieldMarks, b: byte, i: nat): Turn {
    match q
    case Start =>
      if b == CR then Go(HeaderAlmostDone, m.(end := i))
      else if b == LF then Go(HeaderDone, m.(end := i))
      else if IsNameByte(b) then Go(Name, m.(nameStart := i))
      else Fail(m.(nameStart := i))
    case Name =>
      if b == COLON then Go(SpaceBeforeValue, m.(nameEnd := i))
      else if IsNameByte(b) then Go(Name, m)
      else Fail(m)
    case SpaceBeforeValue =>
      if b == SP then Go(SpaceBeforeValue, m)
      else if b == CR then Go(AlmostDone, m.(start := i, end := i))
      else if b == LF then Go(Done, m.(start := i, end := i))
      else Go(Value, m.(start := i))
    case Value =>
      if b == SP then Go(SpaceAfterValue, m.(end := i))
      else if b == CR then Go(AlmostDone, m.(end := i))
      else if b == LF then Go(Done, m.(end := i))
      else Go(Value, m)
    case SpaceAfterValue =>
      if b == SP then Go(SpaceAfterValue, m)
      else if b == CR then Go(AlmostDone, m)
      else if b == LF then Go(Done, m)
      else Go(Value, m)
    case AlmostDone => if b == LF then Go(Done, m) else Fail(m)
    case HeaderAlmostDone => if b == LF then Go(HeaderDone, m) else Fail(m)
    case _ => Go(q, m)
  }

  /** The parser's loop, from index i to the end of s, of the line or of the header block. */
  function Run(q: HeaderState, m: FieldMarks, s: bytes, i: nat): (r: HeaderResult)
    requires i <= |s|
    ensures r.Field? || r.End? ==> i <= r.k <= |s|
    decreases |s| - i
  {
    if q.Done? then Field(m, i)
    else if q.HeaderDone? then End(m, i)
    else if i == |s| then More(q, m)
    else
      match Step(q, m, s[i], i)
      case Fail(m') => Bad(m')
      case Go(q', m') => Run(q', m', s, i + 1)
  }

  // ----- the split law, and what a run depends on

  /** Stopping at a cut and resuming is the same as never having stopped. */
  lemma {:induction false} Split(q: HeaderState, m: FieldMarks, s: bytes, t: bytes, i: nat)
    requires i <= |s|
    ensures var r := Run(q, m, s, i);
      Run(q, m, s + t, i) == if r.More? then Run(r.q, r.m, s + t, |s|) else r
    decreases |s| - i
  {
    if !Ended(q) && i < |s| {
      assert (s + t)[i] == s[i];
      match Step(q, m, s[i], i)
      case Fail(_) =>
      case Go(q', m') => Split(q', m', s, t, i + 1);
    }
  }

  /** A run reads nothing before its start, so the NULs written there do not matter. */
  lemma {:induction false} ReadsOnlyAhead(q: HeaderState, m: FieldMarks, s: bytes, s': bytes, i: nat)
    requires i <= |s| == |s'| && s[i..] == s'[i..]
    ensures Run(q, m, s, i) == Run(q, m, s', i)
    decreases |s| - i
  {
    if !Ended(q) && i < |s| {
      assert s[i] == s[i..][0] == s'[i..][0] == s'[i];
      assert s[i + 1..] == s[i..][1..] == s'[i + 1..];
      match Step(q, m, s[i], i)
      case Fail(_) =>
      case Go(q', m') => ReadsOnlyAhead(q', m', s, s', i + 1);
    }
  }

  // ----- the grammar

  /** The value s[a..e] without its trailing spaces ends here. */
  function Trimmed(s: bytes, a: nat, e: nat): (r: nat)
    requires a <= e <= |s|
    ensures a <= r <= e && (forall j | r <= j < e :: s[j] == SP)
    ensures r > a ==> s[r - 1] != SP
  {
    if e == a || s[e - 1] != SP then e else Trimmed(s, a, e - 1)
  }

  /**
   The bytes s[i..k] are one header line and m marks its name and value: the value starts and
   ends at a byte that is no space, or is empty and sits at the line break e.
   */
  ghost predicate FieldLine(m: FieldMarks, s: bytes, i: nat, k: nat) {
    && m.nameStart == i < m.nameEnd < |s| && (forall j | i <= j < m.nameEnd :: IsNameByte(s[j]))
    && s[m.nameEnd] == COLON
    && m.nameEnd < m.start <= |s| && Spaces(s, m.nameEnd + 1, m.start)
    && exists e: nat ::
         && LineBreak(s, e, k) && m.start <= m.end <= e
         && (forall j | m.start <= j < e :: s[j] != CR && s[j] != LF)
         && if m.start == e then m.end == e
            else s[m.start] != SP && m.start < m.end && s[m.end - 1] != SP && Spaces(s, m.end, e)
  }

  // ----- one turn at a time

  lemma Take(q: HeaderState, m: FieldMarks, s: bytes, i: nat, q': HeaderState, m': FieldMarks)
    requires i < |s| && !Ended(q) && Step(q, m, s[i], i) == Go(q', m')
    ensures Run(q, m, s, i) == Run(q', m', s, i + 1)
  {
  }

  lemma {:induction false} StayInName(m: FieldMarks, s: bytes, i: nat, j: nat)
    requires i <= j <= |s| && forall t | i <= t < j :: IsNameByte(s[t])
    ensures Run(Name, m, s, i) == Run(Name, m, s, j)
    decreases j - i
  {
    if i < j {
      Take(Name, m, s, i, Name, m);
      StayInName(m, s, i + 1, j);
    }
  }

  lemma {:induction false} SkipSpaces(m: FieldMarks, s: bytes, i: nat, j: nat)
    requires Spaces(s, i, j)
    ensures Run(SpaceBeforeValue, m, s, i) == Run(SpaceBeforeValue, m, s, j)
    decreases j - i
  {
    if i < j {
      Take(SpaceBeforeValue, m, s, i, SpaceBeforeValue, m);
      SkipSpaces(m, s, i + 1, j);
    }
  }

  /** The value from a has been read up to i: in SpaceAfterValue its end is marked already. */
  ghost predicate InValue(q: HeaderState, m: FieldMarks, s: bytes, a: nat, i: nat) {
    && a < i <= |s|
    && if s[i - 1] == SP then q.SpaceAfterValue? && m.end == Trimmed(s, a, i) else q.Value?
  }

  lemma {:induction false} ReadValue(q: HeaderState, m: FieldMarks, s: bytes, a: nat, i: nat, e: nat)
    returns (q': HeaderState, m': FieldMarks)
    requires InValue(q, m, s, a, i) && i <= e <= |s| && s[a] != SP
    requires forall j | i <= j < e :: s[j] != CR && s[j] != LF
    ensures InValue(q', m', s, a, e) && m' == m.(end := m'.end)
    ensures Run(q, m, s, i) == Run(q', m', s, e)
    decreases e - i
  {
    q', m' := q, m;
    if i < e {
      var t := Step(q, m, s[i], i);
      assert q.Value? ==> Trimmed(s, a, i) == i;
      Take(q, m, s, i, t.q, t.m);
      q', m' := ReadValue(t.q, t.m, s, a, i + 1, e);
    }
  }

  lemma BreakValue(q: HeaderState, m: FieldMarks, s: bytes, a: nat, e: nat, k: nat)
    requires InValue(q, m, s, a, e) && LineBreak(s, e, k)
    ensures Run(q, m, s, e) == Field(m.(end := Trimmed(s, a, e)), k)
  {
    var m' := m.(end := Trimmed(s, a, e));
    if s[e] == LF {
      Take(q, m, s, e, Done, m');
    } else {
      Take(q, m, s, e, AlmostDone, m');
      Take(AlmostDone, m', s, e + 1, Done, m');
    }
  }

  function LineEnd(s: bytes, i: nat): (e: nat)
    requires i <= |s|
    ensures i <= e <= |s|
    ensures forall j | i <= j < e :: s[j] != CR && s[j] != LF
    ensures e < |s| ==> s[e] == CR || s[e] == LF
    decreases |s| - i
  {
    if i == |s| || s[i] == CR || s[i] == LF then i else LineEnd(s, i + 1)
  }

  // ----- the grammar is accepted

  lemma AcceptName(m0: FieldMarks, s: bytes, i: nat, c: nat, a: nat)
    requires i < c < |s| && (forall j | i <= j < c :: IsNameByte(s[j])) && s[c] == COLON
    requires Spaces(s, c + 1, a)
    ensures Run(Start, m0, s, i) == Run(SpaceBeforeValue, m0.(nameStart := i, nameEnd := c), s, a)
  {
    var m1 := m0.(nameStart := i);
    Take(Start, m0, s, i, Name, m1);
    StayInName(m1, s, i + 1, c);
    Take(Name, m1, s, c, SpaceBeforeValue, m1.(nameEnd := c));
    SkipSpaces(m1.(nameEnd := c), s, c + 1, a);
  }

  lemma AcceptValue(m0: FieldMarks, s: bytes, a: nat, e: nat, k: nat)
    requires a <= e && LineBreak(s, e, k) && (a < e ==> s[a] != SP)
    requires forall j | a <= j < e :: s[j] != CR && s[j] != LF
    ensures Run(SpaceBeforeValue, m0, s, a) == Field(m0.(start := a, end := Trimmed(s, a, e)), k)
  {
    if a == e {
      var m1 := m0.(start := a, end := a);
      if s[e] == LF {
        Take(SpaceBeforeValue, m0, s, a, Done, m1);
      } else {
        Take(SpaceBeforeValue, m0, s, a, AlmostDone, m1);
        Take(AlmostDone, m1, s, e + 1, Done, m1);
      }
    } else {
      var m1 := m0.(start := a);
      Take(SpaceBeforeValue, m0, s, a, Value, m1);
      var q', m' := ReadValue(Value, m1, s, a, a + 1, e);
      BreakValue(q', m', s, a, e, k);
    }
  }

  lemma {:induction false} TrimmedIs(s: bytes, a: nat, r: nat, e: nat)
    requires a <= r <= e <= |s| && Spaces(s, r, e) && (r > a ==> s[r - 1] != SP) && (r == a ==> e == a)
    ensures Trimmed(s, a, e) == r
    decreases e
  {
    if r < e {
      TrimmedIs(s, a, r, e - 1);
    }
  }

  lemma Accepts(m0: FieldMarks, m: FieldMarks, s: bytes, i: nat, k: nat)
    requires i <= |s| && FieldLine(m, s, i, k)
    ensures Run(Start, m0, s, i) == Field(m, k)
  {
    var e: nat :|
      && LineBreak(s, e, k) && m.start <= m.end <= e
      && (forall j | m.start <= j < e :: s[j] != CR && s[j] != LF)
      && if m.start == e then m.end == e
         else s[m.start] != SP && m.start < m.end && s[m.end - 1] != SP && Spaces(s, m.end, e);
    AcceptName(m0, s, i, m.nameEnd, m.start);
    AcceptValue(m0.(nameStart := i, nameEnd := m.nameEnd), s, m.start, e, k);
    TrimmedIs(s, m.start, m.end, e);
  }

  // ----- only the grammar is accepted

  function NameEnd(s: bytes, i: nat): (j: nat)
    requires i <= |s|
    ensures i <= j <= |s|
    ensures forall t | i <= t < j :: IsNameByte(s[t])
    ensures j < |s| ==> !IsNameByte(s[j])
    decreases |s| - i
  {
    if i == |s| || !IsNameByte(s[i]) then i else NameEnd(s, i + 1)
  }

  function SpacesEnd(s: bytes, i: nat): (j: nat)
    requires i <= |s|
    ensures i <= j <= |s| && Spaces(s, i, j)
    ensures j < |s| ==> s[j] != SP
    decreases |s| - i
  {
    if i == |s| || s[i] != SP then i else SpacesEnd(s, i + 1)
  }

  lemma FoundName(m0: FieldMarks, s: bytes, i: nat, m: FieldMarks, k: nat) returns (c: nat, a: nat)
    requires i <= |s| && Run(Start, m0, s, i) == Field(m, k)
    ensures i < c < |s| && (forall j | i <= j < c :: IsNameByte(s[j])) && s[c] == COLON
    ensures Spaces(s, c + 1, a) && (a < |s| ==> s[a] != SP)
  {
    assert i < |s| && IsNameByte(s[i]) by {
      if i < |s| && s[i] == CR {
        Take(Start, m0, s, i, HeaderAlmostDone, m0.(end := i));
      }
    }
    Take(Start, m0, s, i, Name, m0.(nameStart := i));
    c := NameEnd(s, i + 1);
    StayInName(m0.(nameStart := i), s, i + 1, c);
    a := SpacesEnd(s, c + 1);
  }

  lemma FoundValue(m0: FieldMarks, s: bytes, a: nat, m: FieldMarks, k: nat) returns (e: nat)
    requires a <= |s| && (a < |s| ==> s[a] != SP) && Run(SpaceBeforeValue, m0, s, a) == Field(m, k)
    ensures a <= e && LineBreak(s, e, k) && forall j | a <= j < e :: s[j] != CR && s[j] != LF
  {
    e := LineEnd(s, a);
    if a == e {
      if a < |s| && s[a] == CR {
        var m1 := m0.(start := a, end := a);
        Take(SpaceBeforeValue, m0, s, a, AlmostDone, m1);
        assert Run(AlmostDone, m1, s, a + 1) == Field(m, k);
      }
    } else {
      Take(SpaceBeforeValue, m0, s, a, Value, m0.(start := a));
      var q', m' := ReadValue(Value, m0.(start := a), s, a, a + 1, e);
      FoundBreak(q', m', s, a, e, m, k);
    }
  }

  lemma FoundBreak(q: HeaderState, m0: FieldMarks, s: bytes, a: nat, e: nat, m: FieldMarks, k: nat)
    requires InValue(q, m0, s, a, e) && (e < |s| ==> s[e] == CR || s[e] == LF)
    requires Run(q, m0, s, e) == Field(m, k)
    ensures LineBreak(s, e, k)
  {
    assert e < |s|;
    var t := Step(q, m0, s[e], e);
    Take(q, m0, s, e, t.q, t.m);
  }

  /** A header line is parsed, with these marks, exactly when the grammar gives these marks. */
  lemma FieldIsGrammar(m0: FieldMarks, m: FieldMarks, s: bytes, i: nat, k: nat)
    requires i <= |s|
    ensures Run(Start, m0, s, i) == Field(m, k) <==> FieldLine(m, s, i, k)
  {
    if Run(Start, m0, s, i) == Field(m, k) {
      var c, a := FoundName(m0, s, i, m, k);
      AcceptName(m0, s, i, c, a);
      var m1 := m0.(nameStart := i, nameEnd := c);
      var e := FoundValue(m1, s, a, m, k);
      AcceptValue(m1, s, a, e, k);
      assert Spaces(s, m.end, e);
    }
    if FieldLine(m, s, i, k) {
      Accepts(m0, m, s, i, k);
    }
  }

  /** The header block ends exactly at a line break that starts the line. */
  lemma EndIsBlankLine(m0: FieldMarks, s: bytes, i: nat, k: nat)
    requires i <= |s|
    ensures Run(Start, m0, s, i) == End(m0.(end := i), k) <==> LineBreak(s, i, k)
  {
    if i < |s| && s[i] == CR {
      Take(Start, m0, s, i, HeaderAlmostDone, m0.(end := i));
    }
    if LineBreak(s, i, k) && s[i] == CR {
      Take(HeaderAlmostDone, m0.(end := i), s, i + 1, HeaderDone, m0.(end := i));
    }
    if i < |s| && s[i] != CR && s[i] != LF {
      NeverEnds(Name, m0.(nameStart := i), s, i + 1);
    }
  }

  /** Once a name has begun the line cannot end the header block. */
  lemma {:induction false} NeverEnds(q: HeaderState, m: FieldMarks, s: bytes, i: nat)
    requires i <= |s| && !q.Start? && !q.HeaderAlmostDone? && !q.HeaderDone?
    ensures !Run(q, m, s, i).End?
    decreases |s| - i
  {
    if !q.Done? && i < |s| && Step(q, m, s[i], i).Go? {
      NeverEnds(Step(q, m, s[i], i).q, Step(q, m, s[i], i).m, s, i + 1);
    }
  }
}
