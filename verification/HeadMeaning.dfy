/**
 What a parsed head says of its text, in terms of the text alone: where its target ends, what its
 path is, and which header lines it consists of.
 */
module HeadMeaning {
  import opened Bytes
  import opened Framing
  import opened RequestHead
  import opened RequestStrings
  import opened UriSpec
  import G = RequestLineGrammar
  import L = RequestLine
  import H = HeaderLine
  import B = HeaderBlock

  /** What a whole head was made of. */
  lemma MadeOf(s: bytes, h: Head, k: nat) returns (lineK: nat)
    requires ParseHead(s) == Whole(h, k)
    ensures L.ParseLine(s, 0) == L.Finished(h.marks, lineK) && lineK <= k <= |s|
    ensures LineStrings(h.marks, s) == Some((h.unparsedUri, h.uriLen, h.uri, h.exten))
    ensures var r := B.ReadBlock(H.Start, H.NO_FIELD, s, lineK, []);
      r.Complete? && r.k == k && h.headers == FieldsAt(s, r.fields)
  {
    lineK := L.ParseLine(s, 0).k;
    B.RunAdvances(H.Start, H.NO_FIELD, s, lineK);
  }

  // ----- the target

  /** The bytes that end a target. */
  predicate Ends(b: byte) { b == ' ' as int || b == '\r' as int || b == '\n' as int }

  /** The unparsed URI is all of the target: from its slash to the first space or line break. */
  lemma UnparsedUri(s: bytes, h: Head, k: nat)
    requires ParseHead(s) == Whole(h, k)
    ensures var u, e := h.marks.uri.start, h.marks.uri.end;
      && 0 <= u < e < k <= |s| && s[u] == '/' as int && (forall j | u <= j < e :: !Ends(s[j])) && Ends(s[e])
      && h.unparsedUri == CString(s[u..e])
  {
    hide L.Run, L.Step, ParseHead;
    var lineK := MadeOf(s, h, k);
    G.ParseLineIsGrammar(h.marks, s, 0, lineK);
    LineInBounds(h.marks, s, lineK);
    TargetIsFollowed(h.marks, s, lineK);
  }

  lemma TargetIsFollowed(m: L.Marks, s: bytes, k: nat)
    requires G.Line(m, s, 0, k)
    ensures 0 <= m.uri.end < |s| && Ends(s[m.uri.end])
  {
    var e := m.uri.end;
    if e != m.end.at {
      if !(G.Spaces(s, e, m.end.at) && m.end.major == 0 && m.end.minor == 9) {
        var v: nat, d: nat :| e < v && G.Spaces(s, e, v) && G.HttpVersion(s, v, d, m.end.at, m.end.major, m.end.minor);
        assert s[e] == SP;
      }
    }
  }

  /** The arguments of the target s[u..e] start behind j. */
  ghost predicate StartsArguments(s: bytes, u: int, e: int, j: int) {
    && 0 <= u < j < e <= |s| && s[j] == '?' as int
    && forall i | u < i < j ::
         s[i] != '?' as int && s[i] != '%' as int && !(s[i] == '.' as int && s[i - 1] == '/' as int)
  }

  lemma ArgumentsOfTarget(m: L.Marks, s: bytes, u: int, e: int)
    requires G.Target(m, s, u, e)
    ensures m.uri.args == NULL <==> forall j :: !StartsArguments(s, u, e, j)
    ensures m.uri.args != NULL ==> StartsArguments(s, u, e, m.uri.args - 1)
  {
    var x := G.ScanEnd(s, u + 1, e);
    forall j | StartsArguments(s, u, e, j) ensures j == x {
      assert forall i | u < i < j :: !G.Stops(s, i);
      assert G.Stops(s, j);
    }
    if x < e && s[x] == QUESTION {
      forall i | u < i < x
        ensures s[i] != '?' as int && s[i] != '%' as int && !(s[i] == '.' as int && s[i - 1] == '/' as int)
      {
        assert !G.Stops(s, i);
      }
      assert StartsArguments(s, u, e, x);
    }
  }

  /** Where the arguments start, if they do. */
  lemma Arguments(s: bytes, h: Head, k: nat)
    requires ParseHead(s) == Whole(h, k)
    ensures var m := h.marks.uri;
      && (m.args == NULL <==> forall j :: !StartsArguments(s, m.start, m.end, j))
      && (m.args != NULL ==> StartsArguments(s, m.start, m.end, m.args - 1))
  {
    hide L.Run, L.Step, ParseHead, LineStrings, StartsArguments, G.Target;
    var lineK := MadeOf(s, h, k);
    G.ParseLineIsGrammar(h.marks, s, 0, lineK);
    ArgumentsOfTarget(h.marks, s, h.marks.uri.start, h.marks.uri.end);
  }

  ghost predicate IsPathOf(h: Head, path: bytes) {
    var n, d := Normalise(path), PercentDecode(path);
    && n.Some? && d.Some?
    && h.uriLen == |n.value| && h.uri == CString(n.value)
    && h.exten == CopiedString(Extension(FinalSegment(d.value)))
  }

  /**
   The path is the target up to the arguments. The recorded URI is its normal form, and the
   extension is that of the decoded path's final segment.
   */
  lemma UriIsNormalForm(s: bytes, h: Head, k: nat)
    requires ParseHead(s) == Whole(h, k)
    ensures var m := h.marks.uri; var end := if m.args == NULL then m.end else m.args - 1;
      0 <= m.start < end <= |s| && IsPathOf(h, s[m.start..end])
  {
    hide L.Run, L.Step, ParseHead, Normalise, PercentDecode, FinalSegment, Extension;
    var lineK := MadeOf(s, h, k);
    LineInBounds(h.marks, s, lineK);
    NormaliseDecodes(Path(h.marks, s));
  }

  lemma NormaliseDecodes(path: bytes)
    ensures Normalise(path).Some? ==> PercentDecode(path).Some?
  {
  }

  // ----- the header lines

  function Blanks(n: nat): bytes { seq(n, _ => ' ' as int) }

  predicate IsNewline(t: bytes) { t == ['\r' as int, '\n' as int] || t == ['\n' as int] }

  /** The text of one header: name, colon, blanks, value, blanks, line break. */
  ghost predicate LineText(line: bytes, name: bytes, value: bytes) {
    && name != [] && (forall b | b in name :: H.IsNameByte(b))
    && (forall b | b in value :: b != '\r' as int && b != '\n' as int)
    && (value != [] ==> value[0] != ' ' as int && value[|value| - 1] != ' ' as int)
    && exists a: nat, b: nat, nl: bytes :: IsLine(line, name, a, value, b, nl)
  }

  ghost predicate IsLine(line: bytes, name: bytes, a: nat, value: bytes, b: nat, nl: bytes) {
    IsNewline(nl) && line == name + [':' as int] + Blanks(a) + value + Blanks(b) + nl
  }

  /** The text of some headers, one line each, and the blank line. */
  ghost predicate BlockText(t: bytes, hs: seq<(bytes, bytes)>)
    decreases |hs|
  {
    if hs == [] then IsNewline(t)
    else exists n :: 0 <= n <= |t| && LineText(t[..n], hs[0].0, hs[0].1) && BlockText(t[n..], hs[1..])
  }

  lemma Join(s: bytes, a: nat, b: nat, c: nat)
    requires a <= b <= c <= |s|
    ensures s[a..c] == s[a..b] + s[b..c]
  {
  }

  lemma SixPieces(s: bytes, i: nat, c: nat, a: nat, v: nat, e: nat, k: nat)
    requires i <= c < a <= v <= e <= k <= |s| && s[c] == COLON
    ensures s[i..k] == s[i..c] + [COLON] + s[c + 1..a] + s[a..v] + s[v..e] + s[e..k]
  {
    assert s[c..c + 1] == [COLON];
    Join(s, i, c, c + 1);
    Join(s, i, c + 1, a);
    Join(s, i, a, v);
    Join(s, i, v, e);
    Join(s, i, e, k);
  }

  lemma BlanksAre(s: bytes, a: nat, b: nat)
    requires G.Spaces(s, a, b)
    ensures s[a..b] == Blanks(b - a)
  {
  }

  lemma NewlineAt(s: bytes, e: nat, k: nat)
    requires G.LineBreak(s, e, k)
    ensures e < k <= |s| && IsNewline(s[e..k])
  {
  }

  lemma ValueIs(s: bytes, a: nat, b: nat)
    requires a <= b <= |s| && (forall j | a <= j < b :: s[j] != CR && s[j] != LF)
    requires a < b ==> s[a] != SP && s[b - 1] != SP
    ensures var value := s[a..b];
      && (forall x | x in value :: x != '\r' as int && x != '\n' as int)
      && (value != [] ==> value[0] != ' ' as int && value[|value| - 1] != ' ' as int)
  {
  }

  lemma NameIs(s: bytes, a: nat, b: nat)
    requires a < b <= |s| && (forall j | a <= j < b :: H.IsNameByte(s[j]))
    ensures s[a..b] != [] && (forall x | x in s[a..b] :: H.IsNameByte(x))
  {
  }

  /** A header line of the grammar is the text of its name and its value. */
  lemma FieldIsText(m: H.FieldMarks, s: bytes, i: nat, k: nat)
    requires H.FieldLine(m, s, i, k)
    ensures i < k <= |s| && LineText(s[i..k], FieldAt(s, m).0, FieldAt(s, m).1)
  {
    hide H.IsNameByte;
    var e: nat :|
      && G.LineBreak(s, e, k) && m.start <= m.end <= e
      && (forall j | m.start <= j < e :: s[j] != CR && s[j] != LF)
      && if m.start == e then m.end == e
         else s[m.start] != SP && m.start < m.end && s[m.end - 1] != SP && G.Spaces(s, m.end, e);
    NewlineAt(s, e, k);
    NameIs(s, i, m.nameEnd);
    ValueIs(s, m.start, m.end);
    BlanksAre(s, m.nameEnd + 1, m.start);
    BlanksAre(s, m.end, e);
    PiecesAreLine(s, i, m.nameEnd, m.start, m.end, e, k);
  }

  lemma PiecesAreLine(s: bytes, i: nat, c: nat, a: nat, v: nat, e: nat, k: nat)
    requires i <= c < a <= v <= e <= k <= |s| && s[c] == COLON && IsNewline(s[e..k])
    requires s[c + 1..a] == Blanks(a - c - 1) && s[v..e] == Blanks(e - v)
    ensures IsLine(s[i..k], s[i..c], a - c - 1, s[a..v], e - v, s[e..k])
  {
    SixPieces(s, i, c, a, v, e, k);
  }

  lemma EndMeans(m0: H.FieldMarks, s: bytes, i: nat)
    requires i <= |s| && H.Run(H.Start, m0, s, i).End?
    ensures G.LineBreak(s, i, H.Run(H.Start, m0, s, i).k)
  {
    if s[i] == CR {
      H.Take(H.Start, m0, s, i, H.HeaderAlmostDone, m0.(end := i));
    } else if s[i] != LF && H.Step(H.Start, m0, s[i], i).Go? {
      H.NeverEnds(H.Name, m0.(nameStart := i), s, i + 1);
    }
  }

  lemma BlockEnd(s: bytes, t: bytes)
    requires IsNewline(t)
    ensures BlockText(t, FieldsAt(s, []))
  {
  }

  lemma BlockCons(t: bytes, n: nat, h: (bytes, bytes), rest: seq<(bytes, bytes)>)
    requires n <= |t| && LineText(t[..n], h.0, h.1) && BlockText(t[n..], rest)
    ensures BlockText(t, [h] + rest)
  {
    hide LineText;
    assert ([h] + rest)[1..] == rest;
  }

  /** What is parsed as a block of headers is the text of exactly these headers. */
  lemma {:induction false} BlockIsText(m0: H.FieldMarks, s: bytes, i: nat, before: seq<H.FieldMarks>)
    requires i <= |s| && B.ReadBlock(H.Start, m0, s, i, before).Complete?
    ensures var r := B.ReadBlock(H.Start, m0, s, i, before);
      && i <= r.k <= |s| && before <= r.fields
      && BlockText(s[i..r.k], FieldsAt(s, r.fields[|before|..]))
    decreases |s| - i
  {
    hide H.Run, LineText, BlockText, FieldsAt, FieldAt;
    B.RunAdvances(H.Start, m0, s, i);
    B.RunStops(H.Start, m0, s, i);
    var r, b := H.Run(H.Start, m0, s, i), B.ReadBlock(H.Start, m0, s, i, before);
    if r.End? {
      EndMeans(m0, s, i);
      assert b.fields[|before|..] == [];
      BlockEnd(s, s[i..b.k]);
    } else {
      H.FieldIsGrammar(m0, r.m, s, i, r.k);
      FieldIsText(r.m, s, i, r.k);
      BlockIsText(r.m, s, r.k, before + [r.m]);
      var rest := b.fields[|before| + 1..];
      assert b.fields[|before|..] == [r.m] + rest;
      FieldsCons(s, r.m, rest);
      var t, n := s[i..b.k], r.k - i;
      assert t[..n] == s[i..r.k] && t[n..] == s[r.k..b.k];
      BlockCons(t, n, FieldAt(s, r.m), FieldsAt(s, rest));
    }
  }

  // ----- and every such text is read

  lemma Peel(s: bytes, i: nat, k: nat, p: bytes, q: bytes)
    requires i <= k <= |s| && s[i..k] == p + q
    ensures i + |p| <= k && s[i..i + |p|] == p && s[i + |p|..k] == q
  {
    var t := s[i..k];
    assert t[..|p|] == s[i..i + |p|] && t[|p|..] == s[i + |p|..k];
    assert (p + q)[..|p|] == p && (p + q)[|p|..] == q;
  }

  /** A text in six pieces is taken apart from the left. */
  lemma Apart(name: bytes, a: nat, value: bytes, b: nat, nl: bytes)
    ensures name + [':' as int] + Blanks(a) + value + Blanks(b) + nl
         == name + ([':' as int] + (Blanks(a) + (value + (Blanks(b) + nl))))
  {
  }

  lemma LineApart(s: bytes, i: nat, k: nat, name: bytes, a: nat, value: bytes, b: nat, nl: bytes)
    requires i <= k <= |s| && IsLine(s[i..k], name, a, value, b, nl)
    ensures var c := i + |name|; var x := c + 1 + a; var v := x + |value|; var e := v + b;
      && s[i..c] == name && s[c..c + 1] == [COLON] && s[c + 1..x] == Blanks(a)
      && s[x..v] == value && s[v..e] == Blanks(b) && s[e..k] == nl && e < k
  {
    hide Blanks;
    BlanksLength(a);
    BlanksLength(b);
    var c := i + |name|;
    Apart(name, a, value, b, nl);
    Peel(s, i, k, name, [':' as int] + (Blanks(a) + (value + (Blanks(b) + nl))));
    Peel(s, c, k, [':' as int], Blanks(a) + (value + (Blanks(b) + nl)));
    Peel(s, c + 1, k, Blanks(a), value + (Blanks(b) + nl));
    Peel(s, c + 1 + a, k, value, Blanks(b) + nl);
    Peel(s, c + 1 + a + |value|, k, Blanks(b), nl);
  }

  lemma BlanksLength(n: nat)
    ensures |Blanks(n)| == n
  {
  }

  lemma BlanksAt(s: bytes, a: nat, b: nat)
    requires a <= b <= |s| && s[a..b] == Blanks(b - a)
    ensures G.Spaces(s, a, b)
  {
    assert forall j | a <= j < b :: s[j] == s[a..b][j - a];
  }

  lemma NewlineIs(s: bytes, e: nat, k: nat)
    requires e <= k <= |s| && IsNewline(s[e..k])
    ensures G.LineBreak(s, e, k)
  {
    assert s[e] == s[e..k][0] && (k == e + 2 ==> s[e + 1] == s[e..k][1]);
  }

  lemma SliceBytes(s: bytes, a: nat, b: nat, x: bytes)
    requires a <= b <= |s| && s[a..b] == x
    ensures forall j | a <= j < b :: s[j] in x
    ensures a < b ==> s[a] == x[0] && s[b - 1] == x[|x| - 1]
  {
    forall j | a <= j < b ensures s[j] in x {
      assert s[j] == x[j - a];
    }
  }

  /** The text of one header is a header line of the grammar. */
  lemma TextIsField(s: bytes, i: nat, k: nat, name: bytes, value: bytes) returns (m: H.FieldMarks)
    requires i <= k <= |s| && LineText(s[i..k], name, value)
    ensures H.FieldLine(m, s, i, k) && FieldAt(s, m) == (name, value)
  {
    hide H.IsNameByte, IsLine, Blanks;
    var a: nat, b: nat, nl: bytes :| IsLine(s[i..k], name, a, value, b, nl);
    IsLineEnds(s[i..k], name, a, value, b, nl);
    LineApart(s, i, k, name, a, value, b, nl);
    var c := i + |name|;
    var x := c + 1 + a;
    var v := x + |value|;
    var e := v + b;
    NewlineIs(s, e, k);
    BlanksAt(s, c + 1, x);
    BlanksAt(s, v, e);
    SliceBytes(s, i, c, name);
    SliceBytes(s, x, v, value);
    assert s[c] == s[c..c + 1][0];
    hide IsNewline, LineText;
    m := if value == [] then H.FieldMarks(i, c, e, e) else H.FieldMarks(i, c, x, v);
    PiecesAreField(m, s, i, c, x, v, e, k);
    assert s[e..e] == [];
  }

  lemma PiecesAreField(m: H.FieldMarks, s: bytes, i: nat, c: nat, x: nat, v: nat, e: nat, k: nat)
    requires i < c < x <= v <= e < k <= |s| && (forall j | i <= j < c :: H.IsNameByte(s[j])) && s[c] == COLON
    requires G.Spaces(s, c + 1, x) && G.Spaces(s, v, e) && G.LineBreak(s, e, k)
    requires forall j | x <= j < v :: s[j] != CR && s[j] != LF
    requires x < v ==> s[x] != SP && s[v - 1] != SP
    requires m == if x == v then H.FieldMarks(i, c, e, e) else H.FieldMarks(i, c, x, v)
    ensures H.FieldLine(m, s, i, k)
    ensures FieldAt(s, m) == (s[i..c], if x == v then s[e..e] else s[x..v])
  {
    hide H.IsNameByte;
    assert forall j | x <= j < e :: s[j] != CR && s[j] != LF;
    if x == v {
      assert G.Spaces(s, c + 1, e);
    }
  }

  lemma IsLineEnds(line: bytes, name: bytes, a: nat, value: bytes, b: nat, nl: bytes)
    requires IsLine(line, name, a, value, b, nl)
    ensures IsNewline(nl)
  {
  }

  /** The text of some headers is read as exactly these headers. */
  lemma {:induction false} TextIsBlock(m0: H.FieldMarks, s: bytes, i: nat, k: nat, hs: seq<(bytes, bytes)>,
                                       before: seq<H.FieldMarks>)
    requires i <= k <= |s| && BlockText(s[i..k], hs)
    ensures var r := B.ReadBlock(H.Start, m0, s, i, before);
      && r.Complete? && r.k == k && before <= r.fields && FieldsAt(s, r.fields[|before|..]) == hs
    decreases |hs|
  {
    if hs == [] {
      TextIsEnd(m0, s, i, k, before);
    } else {
      hide H.Run, LineText, FieldsAt, FieldAt, B.ReadBlock, BlockText;
      var n := CutBlock(s[i..k], hs);
      assert s[i..k][..n] == s[i..i + n] && s[i..k][n..] == s[i + n..k];
      var m := TextIsField(s, i, i + n, hs[0].0, hs[0].1);
      H.FieldIsGrammar(m0, m, s, i, i + n);
      B.ReadOneField(m0, s, i, before, m, i + n);
      TextIsBlock(m, s, i + n, k, hs[1..], before + [m]);
      FieldsTail(s, before, m, B.ReadBlock(H.Start, m0, s, i, before).fields, hs);
    }
  }

  lemma TextIsEnd(m0: H.FieldMarks, s: bytes, i: nat, k: nat, before: seq<H.FieldMarks>)
    requires i <= k <= |s| && IsNewline(s[i..k])
    ensures B.ReadBlock(H.Start, m0, s, i, before) == B.Complete(before, k)
    ensures FieldsAt(s, before[|before|..]) == []
  {
    NewlineIs(s, i, k);
    H.EndIsBlankLine(m0, s, i, k);
  }

  lemma FieldsTail(s: bytes, before: seq<H.FieldMarks>, m: H.FieldMarks, all: seq<H.FieldMarks>,
                   hs: seq<(bytes, bytes)>)
    requires before + [m] <= all && hs != [] && FieldAt(s, m) == hs[0]
    requires FieldsAt(s, all[|before + [m]|..]) == hs[1..]
    ensures before <= all && FieldsAt(s, all[|before|..]) == hs
  {
    hide FieldAt, FieldsAt;
    var rest := all[|before + [m]|..];
    assert all[|before|..] == [m] + rest;
    FieldsCons(s, m, rest);
    assert [hs[0]] + hs[1..] == hs;
  }

  lemma CutBlock(t: bytes, hs: seq<(bytes, bytes)>) returns (n: nat)
    requires hs != [] && BlockText(t, hs)
    ensures n <= |t| && LineText(t[..n], hs[0].0, hs[0].1) && BlockText(t[n..], hs[1..])
  {
    hide LineText;
    n :| 0 <= n <= |t| && LineText(t[..n], hs[0].0, hs[0].1) && BlockText(t[n..], hs[1..]);
  }

  /** A block is parsed to some headers exactly when it is their text. */
  lemma BlockIffText(m0: H.FieldMarks, s: bytes, i: nat, k: nat, hs: seq<(bytes, bytes)>)
    requires i <= |s|
    ensures (exists fields :: B.ReadBlock(H.Start, m0, s, i, []) == B.Complete(fields, k) && FieldsAt(s, fields) == hs)
            <==> i <= k <= |s| && BlockText(s[i..k], hs)
  {
    hide B.ReadBlock, BlockText, FieldsAt;
    var r := B.ReadBlock(H.Start, m0, s, i, []);
    if r.Complete? {
      BlockIsText(m0, s, i, []);
      assert r.fields[0..] == r.fields;
    }
    if i <= k <= |s| && BlockText(s[i..k], hs) {
      TextIsBlock(m0, s, i, k, hs, []);
      assert r.fields[0..] == r.fields;
    }
  }

  lemma FieldsCons(s: bytes, m: H.FieldMarks, rest: seq<H.FieldMarks>)
    ensures FieldsAt(s, [m] + rest) == [FieldAt(s, m)] + FieldsAt(s, rest)
  {
  }

  /** A head ends with the text of its headers. */
  lemma HeadersAreText(s: bytes, h: Head, k: nat) returns (lineK: nat)
    requires ParseHead(s) == Whole(h, k)
    ensures L.ParseLine(s, 0) == L.Finished(h.marks, lineK) && lineK <= k <= |s|
    ensures BlockText(s[lineK..k], h.headers)
  {
    hide ParseHead, LineStrings, BlockText;
    lineK := MadeOf(s, h, k);
    BlockIsText(H.NO_FIELD, s, lineK, []);
    var fields := B.ReadBlock(H.Start, H.NO_FIELD, s, lineK, []).fields;
    assert fields[0..] == fields;
  }
}
