/** Requests on which the code does not do what one would expect of it. */
module Surprises {
  import opened Bytes
  import opened RequestLine
  import opened RequestLineGrammar
  import opened RequestHead
  import opened UriSpec
  import opened CopyString
  import opened Framing
  import H = HeaderLine
  import B = HeaderBlock

  /** The major version of a finished line is a uint. */
  lemma MajorIsUint(s: bytes, start: nat, m: Marks, k: nat)
    requires start <= |s| && ParseLine(s, start) == Finished(m, k)
    ensures m.end.major < UINT
  {
    ParseLineIsGrammar(m, s, start, k);
  }

  /** Which finished lines the 0.9 check refuses. */
  lemma LineRefusedBy09Check(s: bytes, start: nat, m: Marks, k: nat)
    requires start <= |s| && ParseLine(s, start) == Finished(m, k)
    ensures FinalCode(m) == Invalid09Method <==> m.req.verb != GET && m.end.major == WRAPPED_MAJOR
  {
    MajorIsUint(s, start, m, k);
    RefusedBy09Check(m);
  }

  /** The marks of a line with this method, path and version, and no authority. */
  function SimpleMarks(verb: nat, methodEnd: nat, uriEnd: nat, major: nat, minor: nat, at: nat): Marks {
    Marks(MethodPart(0, methodEnd, verb), NO_MARKS.auth, TargetPart(methodEnd + 1, uriEnd, NULL, NULL, false),
          EndPart(major, minor, at))
  }

  /** HEAD, a path and a line feed. */
  const HEAD_09: bytes := [72, 69, 65, 68, SP, SLASH, LF]

  /** HEAD / HTTP/1724852001.0 and a line feed. */
  const HEAD_WRAPPED: bytes :=
    [72, 69, 65, 68, SP, SLASH, SP, 72, 84, 84, 80, SLASH, 49, 55, 50, 52, 56, 53, 50, 48, 48, 49, DOT, ZERO, LF]

  /** GET /a, a NUL, b and a line feed. */
  const GET_NUL: bytes := [71, 69, 84, SP, SLASH, 97, NUL, 98, LF]

  /** No version and not GET, and accepted all the same. */
  lemma Head09IsAccepted()
    ensures ParseLine(HEAD_09, 0) == Finished(SimpleMarks(HEAD, 4, 6, 0, 9, 6), 7)
    ensures FinalCode(SimpleMarks(HEAD, 4, 6, 0, 9, 6)) == Ok
  {
    var m := SimpleMarks(HEAD, 4, 6, 0, 9, 6);
    MethodCodeIsVerb(HEAD_09, 0, 4);
    assert ExtMark(HEAD_09, 5, 5) == NULL;
    Accepts(m, HEAD_09, 0, 7);
  }

  /** With a second line feed it is a complete head, without headers, of a request for "/". */
  lemma Head09IsAHead()
    ensures ParseHead(HEAD_09 + [LF])
         == Whole(Head(SimpleMarks(HEAD, 4, 6, 0, 9, 6), [SLASH], 1, [SLASH], None, []), 8)
  {
    hide Run, Step, Normalise, Extension, FinalSegment, PercentDecode;
    var s, m := HEAD_09 + [LF], SimpleMarks(HEAD, 4, 6, 0, 9, 6);
    Head09IsAccepted();
    Split(Start, NO_MARKS, HEAD_09, [LF], 0);
    FastPath(m, s, 7);
    var path := [SLASH];
    assert Path(m, s) == path == Span(s, m.uri.start, m.uri.end);
    CStringAt(path, 1);
    assert path[..1] == path;
    assert ParseLine(s, 0) == Finished(m, 7);
    assert LineStrings(m, s) == Some((path, 1, path, None));
    H.EndIsBlankLine(H.NO_FIELD, s, 7, 8);
    assert B.ReadBlock(H.Start, H.NO_FIELD, s, 7, []) == B.Complete([], 8);
  }

  /** And the one request of the stream that consists of these bytes. */
  lemma Head09IsARequest()
    ensures Requests(HEAD_09 + [LF]) == [Head(SimpleMarks(HEAD, 4, 6, 0, 9, 6), [SLASH], 1, [SLASH], None, [])]
    ensures Consumed(HEAD_09 + [LF]) == 8
  {
    hide ParseHead;
    var s := HEAD_09 + [LF];
    Head09IsAHead();
    NothingIsIncomplete();
    NextHeadIsDecisive();
    FirstFrame(NextHead, s);
    FirstFrame(NextHead, []);
    assert s[8..] == [];
  }

  lemma NothingIsIncomplete()
    ensures ParseHead([]).Incomplete?
  {
  }

  lemma NoDigit(s: bytes, a: nat)
    requires a <= |s|
    ensures Number(s, a, a) == 0
  {
  }

  lemma NextDigit(s: bytes, a: nat, b: nat, v: nat)
    requires a <= b < |s| && (forall j | a <= j <= b :: IsDigit(s[j]))
    requires Number(s, a, b) == v && v * 10 + 9 < UINT
    ensures Number(s, a, b + 1) == v * 10 + (s[b] - ZERO)
  {
  }

  lemma WrappedNumber()
    ensures Number(HEAD_WRAPPED, 12, 22) == WRAPPED_MAJOR && Number(HEAD_WRAPPED, 23, 24) == 0
  {
    hide Number;
    var s := HEAD_WRAPPED;
    assert forall j | 12 <= j < 22 || j == 23 :: IsDigit(s[j]);
    NoDigit(s, 12);
    NextDigit(s, 12, 12, 0);
    NextDigit(s, 12, 13, 1);
    NextDigit(s, 12, 14, 17);
    NextDigit(s, 12, 15, 172);
    NextDigit(s, 12, 16, 1724);
    NextDigit(s, 12, 17, 17248);
    NextDigit(s, 12, 18, 172485);
    NextDigit(s, 12, 19, 1724852);
    NextDigit(s, 12, 20, 17248520);
    NextDigit(s, 12, 21, 172485200);
    NoDigit(s, 23);
    NextDigit(s, 23, 23, 0);
  }

  lemma WrappedVersionIsALine()
    ensures Line(SimpleMarks(HEAD, 4, 6, WRAPPED_MAJOR, 0, 24), HEAD_WRAPPED, 0, 25)
  {
    hide Number;
    WrappedNumber();
    MethodCodeIsVerb(HEAD_WRAPPED, 0, 4);
    assert ExtMark(HEAD_WRAPPED, 5, 5) == NULL;
    assert HttpVersion(HEAD_WRAPPED, 7, 22, 24, WRAPPED_MAJOR, 0);
  }

  /** The version wraps round to 9, and the line is refused. */
  lemma WrappedVersionIsRefused()
    ensures ParseLine(HEAD_WRAPPED, 0) == Finished(SimpleMarks(HEAD, 4, 6, WRAPPED_MAJOR, 0, 24), 25)
    ensures FinalCode(SimpleMarks(HEAD, 4, 6, WRAPPED_MAJOR, 0, 24)) == Invalid09Method
  {
    hide Line, ParseLine;
    WrappedVersionIsALine();
    Accepts(SimpleMarks(HEAD, 4, 6, WRAPPED_MAJOR, 0, 24), HEAD_WRAPPED, 0, 25);
    RefusedBy09Check(SimpleMarks(HEAD, 4, 6, WRAPPED_MAJOR, 0, 24));
  }

  lemma NulInPathIsALine()
    ensures ParseLine(GET_NUL, 0) == Finished(SimpleMarks(GET, 3, 8, 0, 9, 8), 9)
  {
    hide Run, Step;
    var s, m := GET_NUL, SimpleMarks(GET, 3, 8, 0, 9, 8);
    MethodCodeIsVerb(s, 0, 3);
    assert ScanEnd(s, 8, 8) == 8 && ScanEnd(s, 7, 8) == 8 && ScanEnd(s, 6, 8) == 8 && ScanEnd(s, 5, 8) == 8;
    assert ExtMark(s, 4, 5) == NULL && ExtMark(s, 4, 6) == NULL && ExtMark(s, 4, 7) == NULL;
    Accepts(m, s, 0, 9);
  }

  /**
   A path with a NUL in the middle is accepted on the fast route, with a recorded length of 4 and a
   string that ends after 2 bytes.
   */
  lemma NulInPathIsAccepted()
    ensures var m := SimpleMarks(GET, 3, 8, 0, 9, 8);
      && ParseLine(GET_NUL, 0) == Finished(m, 9) && FinalCode(m) == Ok && !m.uri.complex
      && Path(m, GET_NUL) == [SLASH, 97, NUL, 98]
      && LineStrings(m, GET_NUL) == Some(([SLASH, 97], 4, [SLASH, 97], None))
  {
    hide ParseLine, Extension, FinalSegment, PercentDecode, Normalise;
    var m := SimpleMarks(GET, 3, 8, 0, 9, 8);
    NulInPathIsALine();
    FastPath(m, GET_NUL, 9);
    var path := [SLASH, 97, NUL, 98];
    assert Path(m, GET_NUL) == path == Span(GET_NUL, m.uri.start, m.uri.end);
    CStringAt(path, 2);
    assert path[..2] == [SLASH, 97];
  }

  /** The method code of POST is given to the word POTT, and none to the word POST. */
  lemma PostIsPott()
    ensures MethodCode([80, 79, 84, 84], 0, 4) == POST && MethodCode([80, 79, 83, 84], 0, 4) == 0
  {
  }

  /** GET http://h:x/ HTTP/1.1 and a line feed. */
  const GET_ABSOLUTE: bytes :=
    [71, 69, 84, SP, 104, 116, 116, 112, COLON, SLASH, SLASH, 104, COLON, 120, SLASH, SP, 72, 84, 84, 80, SLASH, 49,
     DOT, 49, LF]

  const ABSOLUTE_MARKS :=
    Marks(MethodPart(0, 3, GET), AuthorityPart(4, 8, 10, 12, 14),
          TargetPart(14, 15, NULL, NULL, false), EndPart(1, 1, 24))

  lemma AbsoluteFront()
    ensures BeforeTarget(ABSOLUTE_MARKS, GET_ABSOLUTE, 0)
  {
    hide Verb;
    MethodCodeIsVerb(GET_ABSOLUTE, 0, 3);
  }

  lemma AbsoluteEnding()
    ensures Target(ABSOLUTE_MARKS, GET_ABSOLUTE, 14, 15)
    ensures Suffix(GET_ABSOLUTE, 15, 24, 1, 1) && LineBreak(GET_ABSOLUTE, 24, 25)
  {
    hide Number;
    var s := GET_ABSOLUTE;
    NoDigit(s, 21);
    NextDigit(s, 21, 21, 0);
    NoDigit(s, 23);
    NextDigit(s, 23, 23, 0);
    assert ExtMark(s, 14, 14) == NULL;
    assert HttpVersion(s, 16, 22, 24, 1, 1);
  }

  /** The host is marked from the second slash on, and the port may be any bytes. */
  lemma AbsoluteFormIsAccepted()
    ensures ParseLine(GET_ABSOLUTE, 0) == Finished(ABSOLUTE_MARKS, 25)
  {
    hide ParseLine, BeforeTarget, Target, Suffix, LineBreak;
    AbsoluteFront();
    AbsoluteEnding();
    Accepts(ABSOLUTE_MARKS, GET_ABSOLUTE, 0, 25);
  }
}
