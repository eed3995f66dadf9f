/** Properties of the normaliser's result: normal form, fixed points, and paths left as they are. */
module UriProperties {
  import opened Bytes
  import opened UriSpec
  import opened UriNormaliser

  /** A directory name that normalisation keeps. */
  ghost predicate ProperName(g: bytes) {
    g != [] && g != [DOT] && g != [DOT, DOT] && SLASH !in g
  }

  // ----- a path and its segments determine each other

  lemma SegmentsAre(d: bytes)
    ensures Segments(d) == Dirs(d) + [FinalSegment(d)]
  {
  }

  lemma SameLast(a: seq<bytes>, x: bytes, b: seq<bytes>, y: bytes)
    requires a + [x] == b + [y]
    ensures a == b && x == y
  {
    assert (a + [x])[..|a|] == a && (b + [y])[..|b|] == b;
    assert (a + [x])[|a|] == x && (b + [y])[|b|] == y;
  }

  lemma {:induction false} SegmentsExtend(d: bytes, g: bytes)
    requires SLASH !in g
    ensures Segments(d + g) == Dirs(d) + [FinalSegment(d) + g]
  {
    hide Segments, Dirs, FinalSegment;
    SegmentsAre(d);
    if g == [] {
      assert d + g == d && FinalSegment(d) + g == FinalSegment(d);
    } else {
      var init, c := g[..|g| - 1], g[|g| - 1];
      SegmentsExtend(d, init);
      SegmentsAre(d + init);
      SameLast(Dirs(d + init), FinalSegment(d + init), Dirs(d), FinalSegment(d) + init);
      SegmentsAre(d + g);
      assert d + g == (d + init) + [c];
      SegmentsSnoc(d + init, c);
      assert FinalSegment(d) + g == (FinalSegment(d) + init) + [c];
    }
  }

  lemma {:induction false} SegmentsOfDirPath(stack: seq<bytes>)
    requires forall g :: g in stack ==> SLASH !in g
    ensures Segments(DirPath(stack)) == [[]] + stack + [[]]
  {
    if stack == [] {
      assert Segments([SLASH]) == Segments([]) + [[]] by { SegmentsSnoc([], SLASH); }
    } else {
      var init, g := stack[..|stack| - 1], stack[|stack| - 1];
      SegmentsOfDirPath(init);
      var d := DirPath(init);
      SegmentsExtend(d, g);
      assert Dirs(d) == [[]] + init;
      SegmentsSnoc(d + g, SLASH);
      assert DirPath(stack) == (d + g) + [SLASH];
      assert [] + g == g && init + [g] == stack;
      assert ([[]] + init) + [g] + [[]] == [[]] + stack + [[]];
    }
  }

  lemma PathSegments(stack: seq<bytes>, final: bytes)
    requires forall g :: g in stack ==> SLASH !in g
    requires SLASH !in final
    ensures Dirs(DirPath(stack) + final) == [[]] + stack
    ensures FinalSegment(DirPath(stack) + final) == final
  {
    SegmentsOfDirPath(stack);
    SegmentsExtend(DirPath(stack), final);
    assert Dirs(DirPath(stack)) == [[]] + stack;
    assert [] + final == final;
  }

  lemma {:induction false} EnterProper(stack: seq<bytes>)
    requires forall g :: g in stack ==> ProperName(g)
    ensures EnterAll([[]] + stack) == Some(stack)
  {
    if stack == [] {
      assert ([[]] + stack)[..0] == [];
    } else {
      var init := stack[..|stack| - 1];
      EnterProper(init);
      assert ([[]] + stack)[..|stack|] == [[]] + init;
      assert ([[]] + stack)[|stack|] == stack[|stack| - 1] && stack[|stack| - 1] in stack;
      assert init + [stack[|stack| - 1]] == stack;
    }
  }

  lemma {:induction false} StackIsNormal(dirs: seq<bytes>)
    requires EnterAll(dirs).Some?
    requires forall g :: g in dirs ==> SLASH !in g
    ensures forall g :: g in EnterAll(dirs).value ==> ProperName(g)
  {
    if dirs != [] {
      StackIsNormal(dirs[..|dirs| - 1]);
    }
  }

  /** Normal form: below the root, every non-final segment of the result is a proper name. */
  lemma NormalForm(s: bytes)
    requires Normalise(s).Some?
    ensures var n := Normalise(s).value;
      && n[0] == SLASH
      && Dirs(n) != [] && Dirs(n)[0] == [] && (forall k :: 1 <= k < |Dirs(n)| ==> ProperName(Dirs(n)[k]))
      && Resolve(n) == Some(n)
  {
    var d := PercentDecode(s).value;
    SegmentsHaveNoSlash(d);
    assert forall g :: g in Dirs(d) ==> g in Segments(d);
    StackIsNormal(Dirs(d));
    var stack := EnterAll(Dirs(d)).value;
    PathSegments(stack, FinalSegment(d));
    EnterProper(stack);
  }

  // ----- fixed points

  lemma {:induction false} DecodeWithoutPercent(s: bytes, i: nat)
    requires i <= |s| && PERCENT !in s[i..]
    ensures DecodeFrom(s, i) == Some(s[i..])
    decreases |s| - i
  {
    if i < |s| {
      assert s[i] == s[i..][0] && s[i..][1..] == s[i + 1..];
      DecodeWithoutPercent(s, i + 1);
      assert [s[i]] + s[i + 1..] == s[i..];
    } else {
      assert s[i..] == [];
    }
  }

  /** Every escape shortens the text. */
  lemma {:induction false} DecodeShrinks(s: bytes, i: nat)
    requires i <= |s| && PERCENT in s[i..] && DecodeFrom(s, i).Some?
    ensures |DecodeFrom(s, i).value| < |s| - i
    decreases |s| - i
  {
    if s[i] != PERCENT {
      assert s[i..][1..] == s[i + 1..];
      DecodeShrinks(s, i + 1);
    }
  }

  lemma {:induction false} DecodeFirst(s: bytes)
    requires s != [] && s[0] != PERCENT && PercentDecode(s).Some?
    ensures PercentDecode(s).value != [] && PercentDecode(s).value[0] == s[0]
  {
    assert DecodeFrom(s, 0) == Prepend([s[0]], DecodeFrom(s, 1));
  }

  /** Resolving never lengthens a rooted text. */
  lemma {:induction false} ResolveShrinks(d: bytes)
    requires d != [] && d[0] == SLASH && Resolve(d).Some?
    ensures |Resolve(d).value| <= |d|
  {
    var init, c := d[..|d| - 1], d[|d| - 1];
    assert d == init + [c];
    if init == [] {
      SegmentsSnoc([], SLASH);
      assert EnterAll(Dirs(d)) == Some([]);
    } else {
      SegmentsSnoc(init, c);
      if c == SLASH {
        CloseSegment(init);
        var stack := EnterAll(Dirs(init)).value;
        ResolveShrinks(init);
        if Enter(stack, FinalSegment(init)) == Some(stack + [FinalSegment(init)]) {
          assert (stack + [FinalSegment(init)])[..|stack|] == stack;
        }
      } else {
        ResolveShrinks(init);
      }
    }
  }

  /** A normalised path is a fixed point of the normaliser exactly when no '%' is left in it. */
  lemma FixedPoint(s: bytes)
    requires Normalise(s).Some?
    ensures var n := Normalise(s).value; Normalise(n) == Some(n) <==> PERCENT !in n
  {
    var n := Normalise(s).value;
    NormalForm(s);
    assert n[0..] == n;
    if PERCENT !in n {
      DecodeWithoutPercent(n, 0);
    } else if Normalise(n).Some? {
      DecodeShrinks(n, 0);
      DecodeFirst(n);
      ResolveShrinks(PercentDecode(n).value);
    }
  }

  /** Not every result is a fixed point: "/%2561" becomes "/%61", which becomes "/a". */
  lemma FixedPointFails()
    ensures var s := [SLASH, PERCENT, 50, 53, 54, 49];
      && Normalise(s) == Some([SLASH, PERCENT, 54, 49])
      && Normalise([SLASH, PERCENT, 54, 49]) == Some([SLASH, 97])
  {
    var s := [SLASH, PERCENT, 50, 53, 54, 49];
    DecodeWithoutPercent(s, 4);
    assert s[4..] == [54, 49];
    assert [PERCENT] + [54, 49] == [PERCENT, 54, 49];
    assert DecodeFrom(s, 1) == Some([PERCENT, 54, 49]);
    assert [SLASH] + [PERCENT, 54, 49] == [SLASH, PERCENT, 54, 49];
    var t := [SLASH, PERCENT, 54, 49];
    assert DecodeFrom(t, 4) == Some([]);
    assert [97] + [] == [97];
    assert DecodeFrom(t, 1) == Some([97]);
    assert [SLASH] + [97] == [SLASH, 97];
    NameAtRoot([PERCENT, 54, 49]);
    NameAtRoot([97]);
  }

  lemma NameAtRoot(g: bytes)
    requires SLASH !in g
    ensures Resolve([SLASH] + g) == Some([SLASH] + g)
  {
    PathSegments([], g);
    EnterProper([]);
    assert DirPath([]) + g == [SLASH] + g;
  }

  // ----- paths that need no rewriting

  /** A rooted path with no escape, no empty segment before its end, and no segment that starts with a dot. */
  ghost predicate Plain(d: bytes) {
    && d != [] && d[0] == SLASH
    && forall j :: 0 < j < |d| ==> d[j] != PERCENT && (d[j - 1] == SLASH ==> d[j] != SLASH && d[j] != DOT)
  }

  /** What every prefix of a plain path resolves to: itself. */
  ghost predicate Kept(d: bytes) {
    && Resolve(d) == Some(d)
    && (FinalSegment(d) == [] <==> d != [] && d[|d| - 1] == SLASH)
    && (FinalSegment(d) != [] ==> FinalSegment(d)[0] != DOT)
  }

  lemma KeptSlash(d: bytes)
    requires d != [] && Kept(d) && d[|d| - 1] != SLASH
    ensures Kept(d + [SLASH])
  {
    CloseSegment(d);
    var stack, g := EnterAll(Dirs(d)).value, FinalSegment(d);
    assert (stack + [g])[..|stack|] == stack;
    assert DirPath(stack + [g]) + [] == d + [SLASH];
  }

  lemma KeptByte(d: bytes, c: byte)
    requires d != [] && Kept(d) && c != SLASH && (d[|d| - 1] == SLASH ==> c != DOT)
    ensures Kept(d + [c])
  {
    SegmentsSnoc(d, c);
    assert DirPath(EnterAll(Dirs(d)).value) + (FinalSegment(d) + [c]) == d + [c];
  }

  lemma {:induction false} PlainResolves(d: bytes)
    requires Plain(d)
    ensures Kept(d)
  {
    var init, c := d[..|d| - 1], d[|d| - 1];
    assert d == init + [c];
    if init == [] {
      NameAtRoot([]);
      assert d == [SLASH] + [];
      SegmentsSnoc([], SLASH);
    } else {
      PlainResolves(init);
      if c == SLASH { KeptSlash(init); } else { KeptByte(init, c); }
    }
  }

  /** The normaliser leaves a plain path exactly as it is. */
  lemma PlainIsFixed(d: bytes)
    requires Plain(d)
    ensures Normalise(d) == Some(d)
  {
    assert d[0..] == d;
    DecodeWithoutPercent(d, 0);
    PlainResolves(d);
  }
}
