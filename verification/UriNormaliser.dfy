/**
 The one-pass URI normaliser: percent-decoding, slash merging and dot-segment removal fused
 into one automaton that writes its output in place and scans back over it on "..".
 */
module UriNormaliser {
  import opened Bytes
  import opened UriSpec
  import opened Escapes

  datatype State = Usual | Slash | Dot | DotDot | Quoted | QuotedSecond

  // ----- how the automaton's state follows the segments

  function StateOf(segment: bytes): State {
    if segment == [] then Slash
    else if segment == [DOT] then Dot
    else if segment == [DOT, DOT] then DotDot
    else Usual
  }

  /** What the automaton has built: its output, and its mark after the extension's dot. */
  datatype Built = Built(q: State, out: bytes, ext: Ptr)

  /** What consuming the decoded text d must have built. */
  ghost function Expected(d: bytes): Option<Built> {
    if d == [] then Some(Built(Usual, [], NULL))
    else if d[0] != SLASH || EnterAll(Dirs(d)).None? then None
    else
      var g := FinalSegment(d);
      var out := DirPath(EnterAll(Dirs(d)).value) + g;
      Some(Built(StateOf(g), out, if ExtensionDot(g) < 0 then NULL else |out| - |g| + ExtensionDot(g) + 1))
  }

  ghost predicate Tracks(d: bytes, q: State, out: bytes, ext: Ptr) {
    Expected(d) == Some(Built(q, out, ext))
  }

  lemma SegmentsSnoc(d: bytes, c: byte)
    ensures Dirs(d + [c]) == if c == SLASH then Segments(d) else Dirs(d)
    ensures FinalSegment(d + [c]) == if c == SLASH then [] else FinalSegment(d) + [c]
  {
    assert (d + [c])[..|d|] == d;
  }

  /** Closing the final segment with a slash enters it. */
  lemma CloseSegment(d: bytes)
    requires EnterAll(Dirs(d)).Some?
    ensures EnterAll(Dirs(d + [SLASH])) == Enter(EnterAll(Dirs(d)).value, FinalSegment(d))
    ensures FinalSegment(d + [SLASH]) == []
  {
    SegmentsSnoc(d, SLASH);
  }

  lemma {:induction false} SegmentsHaveNoSlash(d: bytes)
    ensures forall g :: g in Segments(d) ==> SLASH !in g
  {
    if d != [] {
      SegmentsHaveNoSlash(d[..|d| - 1]);
    }
  }

  lemma {:induction false} StackIsProper(dirs: seq<bytes>)
    requires EnterAll(dirs).Some?
    ensures forall g :: g in EnterAll(dirs).value ==> g in dirs && g != []
  {
    if dirs != [] {
      StackIsProper(dirs[..|dirs| - 1]);
    }
  }

  lemma StackHasNoSlash(d: bytes)
    requires EnterAll(Dirs(d)).Some?
    ensures forall g :: g in EnterAll(Dirs(d)).value ==> g != [] && SLASH !in g
  {
    StackIsProper(Dirs(d));
    SegmentsHaveNoSlash(d);
    assert forall g :: g in Dirs(d) ==> g in Segments(d);
  }

  /** The state after an ordinary byte, one that is neither a slash nor an escape. */
  function Next(q: State, c: byte): State {
    if q.Slash? && c == DOT then Dot
    else if q.Dot? && c == DOT then DotDot
    else Usual
  }

  lemma StateSnoc(g: bytes, c: byte)
    ensures StateOf(g + [c]) == Next(StateOf(g), c)
  {
    var h := g + [c];
    assert h[..|g|] == g && h[|g|] == c;
    if |g| == 1 {
      assert g == [g[0]] && h == [g[0], c];
    } else {
      assert |h| != 2;
    }
  }

  lemma ExtensionDotSnoc(g: bytes, c: byte)
    ensures ExtensionDot(g + [c]) == if c == DOT && StateOf(g) == Usual then |g| else ExtensionDot(g)
  {
    assert (g + [c])[..|g|] == g;
  }

  /** An ordinary byte extends the final segment. */
  lemma ExtendSegment(d: bytes, q: State, out: bytes, ext: Ptr, c: byte)
    requires d != [] && Tracks(d, q, out, ext) && c != SLASH
    ensures Tracks(d + [c], Next(q, c), out + [c], if c == DOT && q == Usual then |out| + 1 else ext)
  {
    hide Segments, Dirs, FinalSegment, EnterAll, DirPath, ExtensionDot;
    SegmentsSnoc(d, c);
    var dir, g := DirPath(EnterAll(Dirs(d)).value), FinalSegment(d);
    StateSnoc(g, c);
    ExtensionDotSnoc(g, c);
    assert (dir + g) + [c] == dir + (g + [c]);
  }

  // ----- rejection is final

  lemma {:induction false} EnterAllFails(dirs: seq<bytes>, more: seq<bytes>)
    requires EnterAll(dirs).None?
    ensures EnterAll(dirs + more).None?
  {
    if more == [] {
      assert dirs + more == dirs;
    } else {
      EnterAllFails(dirs, more[..|more| - 1]);
      assert (dirs + more)[..|dirs + more| - 1] == dirs + more[..|more| - 1];
    }
  }

  lemma {:induction false} DirsPrefix(d: bytes, e: bytes)
    ensures Dirs(d) <= Dirs(d + e)
  {
    if e == [] {
      assert d + e == d;
    } else {
      var init := e[..|e| - 1];
      DirsPrefix(d, init);
      assert d + e == (d + init) + [e[|e| - 1]];
      SegmentsSnoc(d + init, e[|e| - 1]);
      assert Dirs(d + init) <= Segments(d + init);
    }
  }

  lemma ResolveFails(d: bytes, e: bytes)
    requires EnterAll(Dirs(d)).None?
    ensures Resolve(d + e).None?
  {
    DirsPrefix(d, e);
    var dirs := Dirs(d + e);
    assert dirs == Dirs(d) + dirs[|Dirs(d)|..];
    EnterAllFails(Dirs(d), dirs[|Dirs(d)|..]);
  }

  // ----- a slash closes the final segment

  lemma CloseName(d: bytes, out: bytes, ext: Ptr)
    requires Tracks(d, Usual, out, ext)
    ensures Tracks(d + [SLASH], Slash, out + [SLASH], NULL)
  {
    if d == [] {
      assert d + [SLASH] == [SLASH] == DirPath([]) + [];
      CloseSegment(d);
    } else {
      CloseSegment(d);
      var stack := EnterAll(Dirs(d)).value;
      assert (stack + [FinalSegment(d)])[..|stack|] == stack;
      assert out + [SLASH] == DirPath(stack + [FinalSegment(d)]) + [];
      assert (d + [SLASH])[0] == SLASH;
    }
  }

  lemma CloseEmpty(d: bytes, out: bytes, ext: Ptr)
    requires Tracks(d, Slash, out, ext)
    ensures Tracks(d + [SLASH], Slash, out, ext)
  {
    CloseSegment(d);
  }

  lemma CloseDot(d: bytes, out: bytes, ext: Ptr)
    requires Tracks(d, Dot, out, ext)
    ensures out != [] && Tracks(d + [SLASH], Slash, out[..|out| - 1], ext)
  {
    CloseSegment(d);
    assert out[..|out| - 1] == DirPath(EnterAll(Dirs(d)).value) + [];
  }

  /**
   What the back-scan for ".." sees. At the root the output is "/.." and the path is rejected;
   below it the output is parent / name / .. with no slash inside name, and the parent is kept.
   */
  lemma CloseDotDot(d: bytes, out: bytes, ext: Ptr) returns (parent: bytes, name: bytes)
    requires Tracks(d, DotDot, out, ext)
    ensures |out| <= 3 ==> EnterAll(Dirs(d + [SLASH])).None?
    ensures |out| > 3 ==>
      && name != [] && SLASH !in name
      && out == parent + name + [SLASH, DOT, DOT]
      && parent != [] && parent[|parent| - 1] == SLASH
      && Tracks(d + [SLASH], Slash, parent, ext)
  {
    CloseSegment(d);
    var stack := EnterAll(Dirs(d)).value;
    parent, name := [], [];
    if stack != [] {
      StackHasNoSlash(d);
      parent, name := DirPath(stack[..|stack| - 1]), stack[|stack| - 1];
      assert name in stack;
      assert parent == parent + [];
    }
  }

  // ----- the method

  predicate Unquoted(state: State) { !state.Quoted? && !state.QuotedSecond? }

  /**
   What the automaton still has to decode when it stands at index i holding ch: either s[i],
   or the byte that an escape ending at i stands for.
   */
  ghost function ToGo(s: bytes, i: nat, state: State, decoded: byte, ch: byte): Option<bytes>
    requires i <= |s| && decoded < 16
    decreases |s| - i
  {
    if i == |s| then Some([])
    else if Unquoted(state) then
      if ch == PERCENT then DecodeFrom(s, i) else Prepend([ch], DecodeFrom(s, i + 1))
    else if HexValue(ch).None? then None
    else if state.QuotedSecond? then Prepend([16 * decoded + HexValue(ch).value], DecodeFrom(s, i + 1))
    else if i + 1 == |s| then Some([])
    else ToGo(s, i + 1, QuotedSecond, HexValue(ch).value, s[i + 1])
  }

  lemma PrependSnoc(d: bytes, c: byte, rest: Option<bytes>)
    ensures Prepend(d, Prepend([c], rest)) == Prepend(d + [c], rest)
  {
    if rest.Some? {
      assert d + ([c] + rest.value) == (d + [c]) + rest.value;
    }
  }

  lemma PrependNil(d: bytes)
    ensures forall r: Option<bytes> :: Prepend([], r) == r
    ensures Prepend(d, Some([])) == Some(d)
  {
    assert forall b: bytes :: [] + b == b;
    assert d + [] == d;
  }

  lemma ToGoFresh(s: bytes, i: nat, state: State, decoded: byte)
    requires i < |s| && decoded < 16 && Unquoted(state)
    ensures ToGo(s, i, state, decoded, s[i]) == DecodeFrom(s, i)
  {
  }

  /** A '%' opens an escape. */
  lemma ToGoPercent(s: bytes, i: nat, state: State, decoded: byte, next: byte)
    requires i < |s| && s[i] == PERCENT && decoded < 16 && Unquoted(state)
    requires i + 1 < |s| ==> next == s[i + 1]
    ensures ToGo(s, i, state, decoded, s[i]) == ToGo(s, i + 1, Quoted, decoded, next)
  {
  }

  lemma ToGoFirstDigit(s: bytes, i: nat, decoded: byte, ch: byte, next: byte)
    requires i < |s| && decoded < 16
    requires i + 1 < |s| ==> next == s[i + 1]
    ensures HexValue(ch).None? ==> ToGo(s, i, Quoted, decoded, ch).None?
    ensures HexValue(ch).Some? ==>
      ToGo(s, i, Quoted, decoded, ch) == ToGo(s, i + 1, QuotedSecond, HexValue(ch).value, next)
  {
  }

  lemma ToGoSecondDigit(s: bytes, i: nat, decoded: byte, ch: byte, q: State)
    requires i < |s| && decoded < 16 && Unquoted(q)
    ensures HexValue(ch).None? ==> ToGo(s, i, QuotedSecond, decoded, ch).None?
    ensures HexValue(ch).Some? ==>
      ToGo(s, i, QuotedSecond, decoded, ch) == Prepend([decoded * 16 + HexValue(ch).value], DecodeFrom(s, i + 1))
    ensures HexValue(ch).Some? && decoded * 16 + HexValue(ch).value != PERCENT ==>
      ToGo(s, i, q, decoded, decoded * 16 + HexValue(ch).value) == ToGo(s, i, QuotedSecond, decoded, ch)
  {
  }

  /** A byte that stands for itself. */
  lemma ToGoByte(s: bytes, d: bytes, c: byte, i: nat, state: State, decoded: byte, next: byte)
    requires i <= |s| && decoded < 16 && Unquoted(state)
    requires i < |s| ==> next == s[i]
    ensures Prepend(d, Prepend([c], DecodeFrom(s, i))) == Prepend(d + [c], ToGo(s, i, state, decoded, next))
  {
    PrependSnoc(d, c, DecodeFrom(s, i));
  }

  /** A ".." above the root rejects the whole path, whatever follows it. */
  lemma RejectNow(s: bytes, d: bytes, rest: Option<bytes>)
    requires PercentDecode(s) == Prepend(d, rest)
    requires EnterAll(Dirs(d)).None?
    ensures Normalise(s).None?
  {
    if rest.Some? {
      ResolveFails(d, rest.value);
    }
  }

  /** The extension mark points at the extension of the final segment. */
  lemma ExtensionAt(d: bytes, q: State, out: bytes, ext: Ptr)
    requires d != [] && Tracks(d, q, out, ext)
    ensures ext == NULL || 0 <= ext <= |out|
    ensures Extension(FinalSegment(d)) == if ext == NULL then None else Some(out[ext..])
    ensures Resolve(d) == Some(out)
  {
    var g := FinalSegment(d);
    assert ext != NULL ==> out[ext..] == g[ExtensionDot(g) + 1..];
  }

  /** `*u++ = ch`. */
  method Put(data: array<byte>, u: nat, ch: byte)
    requires u < data.Length
    modifies data
    ensures data[..u + 1] == old(data[..u]) + [ch]
  {
    data[u] := ch;
  }

  /** The scan back over the output to just after the slash that precedes u0. */
  method ScanBack(data: array<byte>, u0: nat, ghost parent: bytes, ghost name: bytes) returns (u: nat)
    requires u0 < data.Length && u0 + 1 == |parent + name| && data[..u0 + 1] == parent + name
    requires parent != [] && parent[|parent| - 1] == SLASH
    requires name != [] && SLASH !in name
    ensures u == |parent| && data[..u] == parent
  {
    u := u0;
    while data[u - 1] != SLASH
      invariant |parent| <= u <= u0
      decreases u
    {
      assert data[u - 1] == (parent + name)[u - 1];
      u := u - 1;
    }
    assert data[u - 1] == (parent + name)[u - 1];
  }

  // The inner switches on ch, one method for each unquoted state. None of them sees a raw '%'.

  method OnUsual(data: array<byte>, u0: nat, ch: byte, ext0: Ptr, ghost d: bytes)
    returns (u: nat, state: State, ext: Ptr)
    requires u0 < data.Length && Tracks(d, Usual, data[..u0], ext0) && (d == [] ==> ch == SLASH)
    modifies data
    ensures u == u0 + 1 && Tracks(d + [ch], state, data[..u], ext)
    ensures Unquoted(state)
  {
    state, ext := Usual, ext0;
    if ch == SLASH {
      CloseName(d, data[..u0], ext0);
      ext := NULL;
      state := Slash;
    } else {
      ExtendSegment(d, Usual, data[..u0], ext0, ch);
      if ch == DOT {
        ext := u0 + 1;
      }
    }
    Put(data, u0, ch);
    u := u0 + 1;
  }

  method OnSlash(data: array<byte>, u0: nat, ch: byte, ghost ext: Ptr, ghost d: bytes)
    returns (u: nat, state: State)
    requires u0 < data.Length && Tracks(d, Slash, data[..u0], ext)
    modifies data
    ensures u <= u0 + 1 && Tracks(d + [ch], state, data[..u], ext)
    ensures Unquoted(state)
  {
    if ch == SLASH {
      CloseEmpty(d, data[..u0], ext);
      return u0, Slash;
    }
    ExtendSegment(d, Slash, data[..u0], ext, ch);
    state := if ch == DOT then Dot else Usual;
    Put(data, u0, ch);
    u := u0 + 1;
  }

  method OnDot(data: array<byte>, u0: nat, ch: byte, ghost ext: Ptr, ghost d: bytes)
    returns (u: nat, state: State)
    requires u0 < data.Length && Tracks(d, Dot, data[..u0], ext)
    modifies data
    ensures u <= u0 + 1 && Tracks(d + [ch], state, data[..u], ext)
    ensures Unquoted(state)
  {
    if ch == SLASH {
      CloseDot(d, data[..u0], ext);
      assert data[..u0 - 1] == data[..u0][..u0 - 1];
      return u0 - 1, Slash;
    }
    ExtendSegment(d, Dot, data[..u0], ext, ch);
    state := if ch == DOT then DotDot else Usual;
    Put(data, u0, ch);
    u := u0 + 1;
  }

  method OnDotDot(data: array<byte>, u0: nat, ch: byte, ghost ext: Ptr, ghost d: bytes)
    returns (ok: bool, u: nat, state: State)
    requires u0 < data.Length && Tracks(d, DotDot, data[..u0], ext)
    modifies data
    ensures ok ==> u <= u0 + 1 && Tracks(d + [ch], state, data[..u], ext)
    ensures Unquoted(state)
    ensures !ok ==> EnterAll(Dirs(d + [ch])).None?
  {
    if ch == SLASH {
      ghost var parent, name := CloseDotDot(d, data[..u0], ext);
      if u0 - 4 < 0 {
        return false, u0, Slash;
      }
      assert data[..u0 - 3] == data[..u0][..u0 - 3] == parent + name;
      u := ScanBack(data, u0 - 4, parent, name);
      return true, u, Slash;
    }
    ExtendSegment(d, DotDot, data[..u0], ext, ch);
    Put(data, u0, ch);
    return true, u0 + 1, Usual;
  }

  /** The switch on the unquoted states; ok is false when ".." climbs above the root. */
  method PutByte(data: array<byte>, u0: nat, state0: State, ch: byte, ext0: Ptr, ghost d: bytes)
    returns (ok: bool, u: nat, state: State, ext: Ptr)
    requires u0 < data.Length && Unquoted(state0)
    requires Tracks(d, state0, data[..u0], ext0) && (d == [] ==> ch == SLASH)
    modifies data
    ensures ok ==> u <= u0 + 1 && Tracks(d + [ch], state, data[..u], ext)
    ensures Unquoted(state)
    ensures !ok ==> EnterAll(Dirs(d + [ch])).None?
  {
    ok, ext := true, ext0;
    match state0 {
      case Usual => u, state, ext := OnUsual(data, u0, ch, ext, d);
      case Slash => u, state := OnSlash(data, u0, ch, ext, d);
      case Dot => u, state := OnDot(data, u0, ch, ext, d);
      case DotDot => ok, u, state := OnDotDot(data, u0, ch, ext, d);
    }
  }

  /** What the loop knows of its ghost history: d is decoded, and the rest is still to go. */
  ghost predicate Reading(s: bytes, i: nat, state: State, decoded: byte, ch: byte, d: bytes) {
    && i <= |s| && |d| <= i && decoded < 16
    && PercentDecode(s) == Prepend(d, ToGo(s, i, state, decoded, ch))
  }

  /** One turn in an unquoted state. */
  method TurnUnquoted(src: bytes, len: nat, data: array<byte>, p: nat, u0: nat, state0: State, ch: byte,
                      decoded: byte, ext0: Ptr, ghost d0: bytes)
    returns (ok: bool, u: nat, state: State, ext: Ptr, ghost d: bytes)
    requires 0 < p <= len < |src| && u0 <= |d0| && data.Length == len + 1
    requires Unquoted(state0) && Reading(src[..len], p - 1, state0, decoded, ch, d0)
    requires ch == PERCENT ==> src[p - 1] == ch
    requires Tracks(d0, state0, data[..u0], ext0) && (d0 == [] ==> ch == SLASH)
    modifies data
    ensures ok ==> u <= |d| && d != [] && Reading(src[..len], p, state, decoded, src[p], d)
    ensures ok ==> Tracks(d, if state.Quoted? then state0 else state, data[..u], ext) && state != QuotedSecond
    ensures !ok ==> Normalise(src[..len]).None?
  {
    ghost var s := src[..len];
    if ch == PERCENT {
      ToGoPercent(s, p - 1, state0, decoded, src[p]);
      return true, u0, Quoted, ext0, d0;
    }
    d := d0 + [ch];
    ok, u, state, ext := PutByte(data, u0, state0, ch, ext0, d0);
    ToGoByte(s, d0, ch, p, state, decoded, src[p]);
    if !ok {
      RejectNow(s, d, ToGo(s, p, state, decoded, src[p]));
    }
  }

  /** The second digit of an escape that turns out to stand for '%'. */
  method PutPercent(src: bytes, len: nat, data: array<byte>, p: nat, u: nat, ghost q: State, ch: byte,
                    ghost decoded: byte, ghost ext: Ptr, ghost d: bytes)
    requires 0 < p <= len < |src| && u <= |d| && data.Length == len + 1
    requires Reading(src[..len], p - 1, QuotedSecond, decoded, ch, d) && HexValue(ch).Some?
    requires decoded * 16 + HexValue(ch).value == PERCENT
    requires d != [] && Tracks(d, q, data[..u], ext)
    modifies data
    ensures Tracks(d + [PERCENT], Usual, data[..u + 1], ext)
    ensures Reading(src[..len], p, Usual, decoded, src[p], d + [PERCENT])
  {
    ToGoByte(src[..len], d, PERCENT, p, Usual, decoded, src[p]);
    ExtendSegment(d, q, data[..u], ext, PERCENT);
    Put(data, u, PERCENT);
  }

  /**
   Rewrites the first len bytes of src into data; src is the buffer from uri_start on, so src[len]
   is the delimiter after the path. On success data holds the outLen bytes of the
   normalised path and a NUL, and ext marks the start of its extension.
   */
  method ParseComplexUri(src: bytes, len: nat, data: array<byte>)
    returns (ok: bool, outLen: nat, ext: Ptr)
    requires 0 < len < |src| && src[0] == SLASH
    requires data.Length == len + 1
    modifies data
    ensures ok <==> Normalise(src[..len]).Some?
    ensures ok ==> outLen <= len && data[..outLen] == Normalise(src[..len]).value
    ensures ok <==> exists d :: Encodes(src[..len], d) && Resolve(d).Some?
    ensures ok ==> forall d | Encodes(src[..len], d) :: Resolve(d) == Some(data[..outLen])
    ensures ok ==> data[outLen] == NUL
    ensures ok ==> ext == NULL || 0 <= ext <= outLen
    ensures ok ==>
      Extension(FinalSegment(PercentDecode(src[..len]).value))
      == if ext == NULL then None else Some(data[ext..outLen])
  {
    hide Segments, ExtensionDot, Extension, EnterAll, DirPath, Encodes, Resolve;
    ghost var s := src[..len];
    NormaliseByMeaning(s);
    ghost var d: bytes := [];
    var decoded: byte := NUL;
    var quotedState := Usual;
    var state := Usual;
    var p, u := 0, 0;
    ext := NULL;
    var ch: byte := src[p];
    p := p + 1;
    PrependNil([]);
    ToGoFresh(s, 0, state, decoded);
    while p < len + 1
      invariant 0 < p <= len + 1
      invariant 0 <= u <= |d| < p && (d == [] ==> ch == SLASH && state == Usual)
      invariant Unquoted(quotedState)
      invariant Tracks(d, if Unquoted(state) then state else quotedState, data[..u], ext)
      invariant p <= len && (ch == PERCENT || !Unquoted(state)) ==> ch == src[p - 1]
      invariant Reading(s, p - 1, state, decoded, ch, d)
      decreases len + 1 - p, if state.QuotedSecond? then 1 else 0
    {
      if state == Quoted {
        ToGoFirstDigit(s, p - 1, decoded, ch, src[p]);
        if HexValue(ch).None? {
          return false, 0, NULL;
        }
        decoded := HexValue(ch).value;
        state := QuotedSecond;
        ch := src[p];
        p := p + 1;
      } else if state == QuotedSecond {
        ToGoSecondDigit(s, p - 1, decoded, ch, quotedState);
        if HexValue(ch).None? {
          return false, 0, NULL;
        }
        if decoded * 16 + HexValue(ch).value == PERCENT {
          PutPercent(src, len, data, p, u, quotedState, ch, decoded, ext, d);
          d := d + [PERCENT];
          state := Usual;
          u := u + 1;
          ch := src[p];
          p := p + 1;
        } else {
          ch := decoded * 16 + HexValue(ch).value;
          state := quotedState;
        }
      } else {
        var before := state;
        ok, u, state, ext, d := TurnUnquoted(src, len, data, p, u, state, ch, decoded, ext, d);
        if !ok {
          return false, 0, NULL;
        }
        if state == Quoted {
          quotedState := before;
        }
        ch := src[p];
        p := p + 1;
      }
    }
    PrependNil(d);
    ExtensionAt(d, if Unquoted(state) then state else quotedState, data[..u], ext);
    outLen := u;
    data[outLen] := NUL;
    ok := true;
  }
}
