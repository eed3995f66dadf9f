/**
 A request line as a text in pieces, one behind the other, and the proof that the lines the parser
 accepts are exactly these texts.
 */
module RequestText {
  import opened Bytes
  import opened HeadMeaning
  import L = RequestLine
  import G = RequestLineGrammar

  /** Line breaks, method, blanks, scheme and host if there are any, target, and the rest of the line. */
  datatype Parts = Parts(breaks: bytes, word: bytes, gap: nat, authority: bytes, target: bytes, ending: bytes)

  ghost predicate IsRequest(p: Parts, t: bytes) {
    ProperWords(p) && ProperRest(p) && t == p.breaks + p.word + Blanks(p.gap) + p.authority + p.target + p.ending
  }

  ghost predicate ProperWords(p: Parts) {
    && (forall b | b in p.breaks :: b == '\r' as int || b == '\n' as int)
    && p.word != [] && (forall b | b in p.word :: IsUpper(b))
    && p.target != [] && p.target[0] == '/' as int && (forall b | b in p.target :: !Ends(b))
  }

  ghost predicate ProperRest(p: Parts) {
    p.gap > 0 && (p.authority == [] || AuthorityText(p.authority)) && EndingText(p.ending)
  }

  /** scheme, "://", host, and a port if there is one: a colon and any bytes but a slash. */
  ghost predicate AuthorityText(a: bytes) {
    exists scheme: bytes, host: bytes, port: bytes :: IsAuthority(a, scheme, host, port)
  }

  ghost predicate IsAuthority(a: bytes, scheme: bytes, host: bytes, port: bytes) {
    && scheme != [] && (forall b | b in scheme :: IsAlpha(b)) && (forall b | b in host :: L.IsHostByte(b))
    && (port == [] || (port[0] == ':' as int && '/' as int !in port))
    && a == scheme + Ascii("://") + host + port
  }

  /** Blanks, a version behind at least one of them if there is a version, and a line break. */
  ghost predicate EndingText(t: bytes) {
    exists gap: nat, version: bytes, nl: bytes :: IsEnding(t, gap, version, nl)
  }

  ghost predicate IsEnding(t: bytes, gap: nat, version: bytes, nl: bytes) {
    && IsNewline(nl) && (version == [] || (gap > 0 && VersionText(version)))
    && t == Blanks(gap) + version + nl
  }

  ghost predicate VersionText(v: bytes) {
    exists major: bytes, minor: bytes :: IsVersion(v, major, minor)
  }

  ghost predicate IsVersion(v: bytes, major: bytes, minor: bytes) {
    && major != [] && (forall b | b in major :: IsDigit(b)) && major[0] != '0' as int
    && minor != [] && (forall b | b in minor :: IsDigit(b))
    && v == Ascii("HTTP/") + major + ['.' as int] + minor
  }

  // ----- a line of the grammar is such a text

  lemma Slices(s: bytes, a: nat, b: nat, c: nat, d: nat, e: nat, f: nat, g: nat)
    requires a <= b <= c <= d <= e <= f <= g <= |s|
    ensures s[a..g] == s[a..b] + s[b..c] + s[c..d] + s[d..e] + s[e..f] + s[f..g]
  {
    Join(s, a, b, c);
    Join(s, a, c, d);
    Join(s, a, d, e);
    Join(s, a, e, f);
    Join(s, a, f, g);
  }

  lemma SliceHas(s: bytes, a: nat, b: nat, x: byte)
    requires a <= b <= |s| && x in s[a..b]
    ensures exists j :: a <= j < b && s[j] == x
  {
    var j :| 0 <= j < b - a && s[a..b][j] == x;
    assert s[a + j] == x;
  }

  lemma LettersIn(s: bytes, a: nat, b: nat)
    requires a <= b <= |s| && forall j | a <= j < b :: IsAlpha(s[j])
    ensures forall x | x in s[a..b] :: IsAlpha(x)
  {
    forall x | x in s[a..b] ensures IsAlpha(x) { SliceHas(s, a, b, x); }
  }

  lemma HostIn(s: bytes, a: nat, b: nat)
    requires a <= b <= |s| && forall j | a <= j < b :: L.IsHostByte(s[j])
    ensures forall x | x in s[a..b] :: L.IsHostByte(x)
  {
    forall x | x in s[a..b] ensures L.IsHostByte(x) { SliceHas(s, a, b, x); }
  }

  lemma DigitsIn(s: bytes, a: nat, b: nat)
    requires a <= b <= |s| && forall j | a <= j < b :: IsDigit(s[j])
    ensures forall x | x in s[a..b] :: IsDigit(x)
  {
    forall x | x in s[a..b] ensures IsDigit(x) { SliceHas(s, a, b, x); }
  }

  lemma PortIn(s: bytes, a: nat, b: nat)
    requires a < b <= |s| && s[a] == COLON && forall j | a < j < b :: s[j] != SLASH
    ensures s[a..b] != [] && s[a..b][0] == ':' as int && '/' as int !in s[a..b]
  {
    if '/' as int in s[a..b] {
      SliceHas(s, a, b, '/' as int);
    }
  }

  lemma SeparatorAt(s: bytes, c: nat)
    requires c + 3 <= |s| && s[c] == COLON && s[c + 1] == SLASH && s[c + 2] == SLASH
    ensures s[c..c + 3] == Ascii("://")
  {
    assert Ascii("://") == [COLON, SLASH, SLASH];
  }

  lemma AuthorityIsText(m: L.Marks, s: bytes, t: nat)
    requires G.Authority(m, s, t) && 0 <= m.uri.start < |s| && s[m.uri.start] == SLASH
    ensures t < m.uri.start && AuthorityText(s[t..m.uri.start])
  {
    hide L.IsHostByte, IsAlpha, Ascii;
    var c, h, u := m.auth.schemaEnd, m.auth.hostEnd, m.uri.start;
    LettersIn(s, t, c);
    HostIn(s, c + 3, h);
    SeparatorAt(s, c);
    if h < u {
      PortIn(s, h, u);
    }
    Join(s, t, c, c + 3);
    Join(s, t, c + 3, h);
    Join(s, t, h, u);
    assert IsAuthority(s[t..u], s[t..c], s[c + 3..h], s[h..u]);
  }

  lemma VersionIsText(s: bytes, v: nat, d: nat, e: nat, major: nat, minor: nat)
    requires G.HttpVersion(s, v, d, e, major, minor)
    ensures v < e <= |s| && VersionText(s[v..e])
  {
    hide IsDigit, G.Number;
    var word := Ascii("HTTP/");
    assert word == [72, 84, 84, 80, SLASH] == s[v..v + 5];
    DigitsIn(s, v + 5, d);
    DigitsIn(s, d + 1, e);
    assert s[d..d + 1] == ['.' as int];
    Join(s, v, v + 5, d);
    Join(s, v, d, d + 1);
    Join(s, v, d + 1, e);
    assert IsVersion(s[v..e], s[v + 5..d], s[d + 1..e]);
  }

  lemma EndingIsText(s: bytes, u: nat, e: nat, k: nat, major: nat, minor: nat)
    requires G.Suffix(s, u, e, major, minor) && G.LineBreak(s, e, k)
    ensures u <= k <= |s| && EndingText(s[u..k])
  {
    hide VersionText, Blanks;
    NewlineAt(s, e, k);
    var nl := s[e..k];
    if u == e || G.Spaces(s, u, e) {
      BlanksAre(s, u, e);
      assert s[u..k] == s[u..e] + [] + nl;
      assert IsEnding(s[u..k], e - u, [], nl);
    } else {
      var v: nat, d: nat :| u < v && G.Spaces(s, u, v) && G.HttpVersion(s, v, d, e, major, minor);
      VersionIsText(s, v, d, e, major, minor);
      BlanksAre(s, u, v);
      assert s[u..k] == s[u..v] + s[v..e] + nl;
      assert IsEnding(s[u..k], v - u, s[v..e], nl);
    }
  }

  lemma WordsAre(s: bytes, a: nat, rs: nat, me: nat, u: nat, e: nat, p: Parts)
    requires a <= rs < me <= u < e <= |s| && p.breaks == s[a..rs] && p.word == s[rs..me] && p.target == s[u..e]
    requires forall j | a <= j < rs :: s[j] == CR || s[j] == LF
    requires forall j | rs <= j < me :: IsUpper(s[j])
    requires s[u] == SLASH && forall j | u <= j < e :: !L.EndsTarget(s[j])
    ensures ProperWords(p)
  {
    forall b | b in p.breaks ensures b == '\r' as int || b == '\n' as int { SliceHas(s, a, rs, b); }
    forall b | b in p.word ensures IsUpper(b) { SliceHas(s, rs, me, b); }
    forall b | b in p.target ensures !Ends(b) { SliceHas(s, u, e, b); }
  }

  lemma LineIsText(m: L.Marks, s: bytes, start: nat, k: nat)
    requires G.Line(m, s, start, k)
    ensures start <= k <= |s| && exists p :: IsRequest(p, s[start..k])
  {
    hide AuthorityText, EndingText, Blanks, G.Verb, G.Suffix, G.Authority, ProperWords;
    var rs, me, u, e := m.req.start, m.req.methodEnd, m.uri.start, m.uri.end;
    var t := if m.auth.schemaStart == NULL then u else m.auth.schemaStart;
    EndingIsText(s, e, m.end.at, k, m.end.major, m.end.minor);
    if m.auth.schemaStart != NULL {
      AuthorityIsText(m, s, t);
    }
    BlanksAre(s, me, t);
    Slices(s, start, rs, me, t, u, e, k);
    var p := Parts(s[start..rs], s[rs..me], t - me, s[t..u], s[u..e], s[e..k]);
    WordsAre(s, start, rs, me, u, e, p);
    assert IsRequest(p, s[start..k]);
  }

  // ----- and every such text is a line of the grammar

  lemma Assoc4(a: bytes, b: bytes, c: bytes, d: bytes)
    ensures a + b + c + d == a + (b + (c + d))
  {
  }

  lemma Peel4(s: bytes, i: nat, k: nat, a: bytes, b: bytes, c: bytes, d: bytes)
    requires i <= k <= |s| && s[i..k] == a + b + c + d
    ensures var x := i + |a|; var y := x + |b|; var z := y + |c|;
      z <= k && s[i..x] == a && s[x..y] == b && s[y..z] == c && s[z..k] == d
  {
    Assoc4(a, b, c, d);
    Peel(s, i, k, a, b + (c + d));
    Peel(s, i + |a|, k, b, c + d);
    Peel(s, i + |a| + |b|, k, c, d);
  }

  lemma DigitsOf(s: bytes, a: nat, b: nat, x: bytes)
    requires a <= b <= |s| && s[a..b] == x && forall y | y in x :: IsDigit(y)
    ensures forall j | a <= j < b :: IsDigit(s[j])
  {
    SliceBytes(s, a, b, x);
  }

  lemma LettersOf(s: bytes, a: nat, b: nat, x: bytes)
    requires a <= b <= |s| && s[a..b] == x && forall y | y in x :: IsAlpha(y)
    ensures forall j | a <= j < b :: IsAlpha(s[j])
  {
    SliceBytes(s, a, b, x);
  }

  lemma CapitalsOf(s: bytes, a: nat, b: nat, x: bytes)
    requires a <= b <= |s| && s[a..b] == x && forall y | y in x :: IsUpper(y)
    ensures forall j | a <= j < b :: IsUpper(s[j])
  {
    SliceBytes(s, a, b, x);
  }

  lemma HostOf(s: bytes, a: nat, b: nat, x: bytes)
    requires a <= b <= |s| && s[a..b] == x && forall y | y in x :: L.IsHostByte(y)
    ensures forall j | a <= j < b :: L.IsHostByte(s[j])
  {
    SliceBytes(s, a, b, x);
  }

  lemma BreaksOf(s: bytes, a: nat, b: nat, x: bytes)
    requires a <= b <= |s| && s[a..b] == x && forall y | y in x :: y == '\r' as int || y == '\n' as int
    ensures forall j | a <= j < b :: s[j] == CR || s[j] == LF
  {
    SliceBytes(s, a, b, x);
  }

  lemma TargetOf(s: bytes, a: nat, b: nat, x: bytes)
    requires a <= b <= |s| && s[a..b] == x && forall y | y in x :: !Ends(y)
    ensures forall j | a <= j < b :: !L.EndsTarget(s[j])
  {
    SliceBytes(s, a, b, x);
  }

  lemma NoSlashIn(s: bytes, a: nat, b: nat, x: bytes)
    requires a <= b <= |s| && s[a..b] == x && forall y | y in x :: y != '/' as int
    ensures forall j | a <= j < b :: s[j] != SLASH
  {
    SliceBytes(s, a, b, x);
  }

  lemma FirstOf(s: bytes, a: nat, b: nat, x: bytes)
    requires a < b <= |s| && s[a..b] == x
    ensures s[a] == x[0]
  {
  }

  lemma PiecesAreAuthority(s: bytes, t: nat, c: nat, h: nat, u: nat, auth: L.AuthorityPart, m: L.Marks)
    requires t < c && c + 3 <= h <= u < |s| && s[u] == SLASH && (forall j | t <= j < c :: IsAlpha(s[j]))
    requires s[c..c + 3] == [COLON, SLASH, SLASH] && (forall j | c + 3 <= j < h :: L.IsHostByte(s[j]))
    requires h < u ==> s[h] == COLON && forall j | h <= j < u :: s[j] != SLASH
    requires auth == L.AuthorityPart(t, c, c + 2, h, if h == u then NULL else u)
    requires m.auth == auth && m.uri.start == u
    ensures G.Authority(m, s, t)
  {
    assert s[c] == s[c..c + 3][0] && s[c + 1] == s[c..c + 3][1] && s[c + 2] == s[c..c + 3][2];
  }

  lemma TextIsAuthority(s: bytes, t: nat, u: nat) returns (auth: L.AuthorityPart)
    requires t <= u < |s| && AuthorityText(s[t..u]) && s[u] == SLASH
    ensures forall m: L.Marks | m.auth == auth && m.uri.start == u :: G.Authority(m, s, t)
    ensures auth.schemaStart == t
  {
    hide G.Authority, L.IsHostByte;
    var scheme: bytes, host: bytes, port: bytes :| IsAuthority(s[t..u], scheme, host, port);
    var sep := Ascii("://");
    assert sep == [COLON, SLASH, SLASH];
    Peel4(s, t, u, scheme, sep, host, port);
    var c := t + |scheme|;
    var h := c + 3 + |host|;
    LettersOf(s, t, c, scheme);
    HostOf(s, c + 3, h, host);
    NoSlashIn(s, h, u, port);
    if h < u {
      FirstOf(s, h, u, port);
    }
    hide IsAuthority, Ascii, IsAlpha;
    auth := L.AuthorityPart(t, c, c + 2, h, if h == u then NULL else u);
    forall m: L.Marks | m.auth == auth && m.uri.start == u
      ensures G.Authority(m, s, t)
    {
      PiecesAreAuthority(s, t, c, h, u, auth, m);
    }
  }

  lemma PiecesAreVersion(s: bytes, v: nat, d: nat, e: nat)
    requires v + 5 < d && d + 1 < e <= |s| && s[v..v + 5] == [72, 84, 84, 80, SLASH] && s[d] == DOT
    requires (forall j | v + 5 <= j < d :: IsDigit(s[j])) && s[v + 5] != ZERO
    requires forall j | d + 1 <= j < e :: IsDigit(s[j])
    ensures G.HttpVersion(s, v, d, e, G.Number(s, v + 5, d), G.Number(s, d + 1, e))
  {
    var w := s[v..v + 5];
    assert s[v] == w[0] && s[v + 1] == w[1] && s[v + 2] == w[2] && s[v + 3] == w[3] && s[v + 4] == w[4];
  }

  lemma TextIsVersion(s: bytes, v: nat, e: nat) returns (d: nat, major: nat, minor: nat)
    requires v <= e <= |s| && VersionText(s[v..e])
    ensures G.HttpVersion(s, v, d, e, major, minor)
  {
    hide G.HttpVersion, G.Number;
    var x: bytes, y: bytes :| IsVersion(s[v..e], x, y);
    var word := Ascii("HTTP/");
    assert word == [72, 84, 84, 80, SLASH];
    Peel4(s, v, e, word, x, ['.' as int], y);
    d := v + 5 + |x|;
    DigitsOf(s, v + 5, d, x);
    DigitsOf(s, d + 1, e, y);
    FirstOf(s, v + 5, d, x);
    FirstOf(s, d, d + 1, ['.' as int]);
    hide IsVersion, IsDigit, Ascii;
    PiecesAreVersion(s, v, d, e);
    major, minor := G.Number(s, v + 5, d), G.Number(s, d + 1, e);
  }

  lemma TextIsEnding(s: bytes, u: nat, k: nat) returns (e: nat, major: nat, minor: nat)
    requires u <= k <= |s| && EndingText(s[u..k])
    ensures G.Suffix(s, u, e, major, minor) && G.LineBreak(s, e, k)
  {
    hide VersionText, Blanks;
    var gap: nat, version: bytes, nl: bytes :| IsEnding(s[u..k], gap, version, nl);
    BlanksLength(gap);
    assert Blanks(gap) + version + nl == Blanks(gap) + version + [] + nl;
    Peel4(s, u, k, Blanks(gap), version, [], nl);
    var v := u + gap;
    e := v + |version|;
    NewlineIs(s, e, k);
    BlanksAt(s, u, v);
    if version == [] {
      major, minor := 0, 9;
    } else {
      var d;
      d, major, minor := TextIsVersion(s, v, e);
    }
  }

  lemma Peel6(s: bytes, i: nat, k: nat, a: bytes, b: bytes, c: bytes, d: bytes, e: bytes, f: bytes)
    requires i <= k <= |s| && s[i..k] == a + b + c + d + e + f
    ensures var u := i + |a|; var v := u + |b|; var x := v + |c|; var y := x + |d|; var z := y + |e|;
      && z <= k && s[i..u] == a && s[u..v] == b && s[v..x] == c
      && s[x..y] == d && s[y..z] == e && s[z..k] == f
  {
    AssocRest(a, b, c, d, e, f);
    Peel4(s, i, k, a, b, c, d + (e + f));
    var x := i + |a| + |b| + |c|;
    Peel(s, x, k, d, e + f);
    Peel(s, x + |d|, k, e, f);
  }

  lemma AssocRest(a: bytes, b: bytes, c: bytes, d: bytes, e: bytes, f: bytes)
    ensures a + b + c + d + e + f == a + b + c + (d + (e + f))
  {
  }

  /** The marks of a text in pieces that end at rs, me, t, u and e, with these other marks. */
  function MarksOf(s: bytes, rs: nat, me: nat, auth: L.AuthorityPart, u: nat, e: nat, end: L.EndPart): L.Marks
    requires rs <= me <= |s| && u < e <= |s|
  {
    var x := G.ScanEnd(s, u + 1, e);
    L.Marks(
      L.MethodPart(rs, me, G.Verb(s[rs..me])), auth,
      L.TargetPart(u, e, if x < e && s[x] == QUESTION then x + 1 else NULL, G.ExtMark(s, u, x),
                   G.DoubleSlash(s, u, x) || (x < e && s[x] != QUESTION)),
      end)
  }

  lemma PiecesAreLine(s: bytes, start: nat, k: nat, rs: nat, me: nat, t: nat, u: nat, e: nat,
                      auth: L.AuthorityPart, end: L.EndPart)
    requires start <= rs < me < t <= u < e <= |s|
    requires forall j | start <= j < rs :: s[j] == CR || s[j] == LF
    requires forall j | rs <= j < me :: IsUpper(s[j])
    requires G.Spaces(s, me, t) && s[u] == SLASH && forall j | u <= j < e :: !L.EndsTarget(s[j])
    requires if t == u then auth == L.NO_MARKS.auth
             else auth.schemaStart == t && G.Authority(MarksOf(s, rs, me, auth, u, e, end), s, t)
    requires G.Suffix(s, e, end.at, end.major, end.minor) && G.LineBreak(s, end.at, k)
    ensures G.Line(MarksOf(s, rs, me, auth, u, e, end), s, start, k)
  {
    hide G.Verb, G.Suffix, G.Authority, G.LineBreak;
  }

  lemma TextIsLine(s: bytes, start: nat, k: nat, p: Parts) returns (m: L.Marks)
    requires start <= k <= |s| && IsRequest(p, s[start..k])
    ensures G.Line(m, s, start, k)
  {
    hide AuthorityText, EndingText, Blanks, G.Suffix, G.Authority, G.Line, MarksOf;
    BlanksLength(p.gap);
    Peel6(s, start, k, p.breaks, p.word, Blanks(p.gap), p.authority, p.target, p.ending);
    var rs := start + |p.breaks|;
    var me := rs + |p.word|;
    var t := me + p.gap;
    var u := t + |p.authority|;
    var e := u + |p.target|;
    BreaksOf(s, start, rs, p.breaks);
    CapitalsOf(s, rs, me, p.word);
    TargetOf(s, u, e, p.target);
    FirstOf(s, u, e, p.target);
    hide IsRequest, IsUpper, Ends, L.EndsTarget;
    BlanksAt(s, me, t);
    var auth := L.NO_MARKS.auth;
    if p.authority != [] {
      auth := TextIsAuthority(s, t, u);
    }
    var at, major, minor := TextIsEnding(s, e, k);
    var end := L.EndPart(major, minor, at);
    m := MarksOf(s, rs, me, auth, u, e, end);
    MarksAre(s, rs, me, auth, u, e, end);
    PiecesAreLine(s, start, k, rs, me, t, u, e, auth, end);
  }

  lemma MarksAre(s: bytes, rs: nat, me: nat, auth: L.AuthorityPart, u: nat, e: nat, end: L.EndPart)
    requires rs <= me <= |s| && u < e <= |s|
    ensures MarksOf(s, rs, me, auth, u, e, end).auth == auth && MarksOf(s, rs, me, auth, u, e, end).uri.start == u
  {
  }

  /** The parser accepts s[start..k] as a request line exactly when it is the text of one. */
  lemma AcceptedIffText(s: bytes, start: nat, k: nat)
    requires start <= |s|
    ensures (exists m :: L.ParseLine(s, start) == L.Finished(m, k))
            <==> start <= k <= |s| && exists p :: IsRequest(p, s[start..k])
  {
    hide L.Run, L.Step, G.Line, IsRequest;
    var r := L.ParseLine(s, start);
    if r.Finished? && r.k == k {
      G.ParseLineIsGrammar(r.m, s, start, k);
      LineIsText(r.m, s, start, k);
    }
    if start <= k <= |s| && exists p :: IsRequest(p, s[start..k]) {
      var p :| IsRequest(p, s[start..k]);
      var m := TextIsLine(s, start, k, p);
      G.ParseLineIsGrammar(m, s, start, k);
    }
  }
}
