/**
 Path resolution as rewriting: what may be struck out of a path, what may not be climbed over,
 and what stays. The rules leave no path open.
 */
module UriRules {
  import opened Bytes
  import opened UriSpec
  import opened UriNormaliser
  import opened UriProperties

  /** A slash between two texts separates their segments. */
  lemma {:induction false} SegmentsJoin(a: bytes, b: bytes)
    ensures Segments(a + [SLASH] + b) == Segments(a) + Segments(b)
    decreases |b|
  {
    hide Segments, Dirs, FinalSegment;
    var d := a + [SLASH] + b;
    if b == [] {
      assert d == a + [SLASH];
      SegmentsSnoc(a, SLASH);
      SegmentsAre(d);
      NoSegments();
    } else {
      var init, c := b[..|b| - 1], b[|b| - 1];
      SegmentsJoin(a, init);
      assert d == (a + [SLASH] + init) + [c] && b == init + [c];
      SegmentsSnoc(a + [SLASH] + init, c);
      SegmentsSnoc(init, c);
      SegmentsAre(d);
      SegmentsAre(b);
      SegmentsAre(a + [SLASH] + init);
      SegmentsAre(init);
      assert Segments(a) + (Dirs(init) + [FinalSegment(init)]) == (Segments(a) + Dirs(init)) + [FinalSegment(init)];
      var x := a + [SLASH] + init;
      SameLast(Dirs(x), FinalSegment(x), Segments(a) + Dirs(init), FinalSegment(init));
      if c == SLASH {
        assert (Segments(a) + Segments(init)) + [[]] == Segments(a) + (Segments(init) + [[]]);
      } else {
        var g := FinalSegment(init) + [c];
        assert (Segments(a) + Dirs(init)) + [g] == Segments(a) + (Dirs(init) + [g]);
      }
    }
  }

  lemma NoSegments()
    ensures Segments([]) == [[]]
  {
  }

  lemma LastOfJoin(a: seq<bytes>, b: seq<bytes>)
    requires b != []
    ensures (a + b)[|a + b| - 1] == b[|b| - 1] && (a + b)[..|a + b| - 1] == a + b[..|b| - 1]
  {
  }

  /** Resolution of a text behind a slash goes on from the directories before it. */
  lemma ResolveJoin(a: bytes, b: bytes)
    ensures Dirs(a + [SLASH] + b) == Segments(a) + Dirs(b) && FinalSegment(a + [SLASH] + b) == FinalSegment(b)
  {
    SegmentsJoin(a, b);
    LastOfJoin(Segments(a), Segments(b));
  }

  /** What was entered before does not matter, only where it led. */
  lemma {:induction false} EnterOn(xs: seq<bytes>, ys: seq<bytes>, zs: seq<bytes>)
    requires EnterAll(xs) == EnterAll(ys)
    ensures EnterAll(xs + zs) == EnterAll(ys + zs)
    decreases |zs|
  {
    if zs == [] {
      assert xs + zs == xs && ys + zs == ys;
    } else {
      var init := zs[..|zs| - 1];
      EnterOn(xs, ys, init);
      assert (xs + zs)[..|xs + zs| - 1] == xs + init && (ys + zs)[..|ys + zs| - 1] == ys + init;
    }
  }

  lemma EnterOne(xs: seq<bytes>, g: bytes)
    ensures EnterAll(xs + [g]) == if EnterAll(xs).None? then None else Enter(EnterAll(xs).value, g)
  {
    assert (xs + [g])[..|xs|] == xs;
  }

  /** A middle that leads back to where it began can be struck out. */
  lemma StrikeOut(a: bytes, middle: bytes, b: bytes)
    requires EnterAll(Segments(a) + Segments(middle)) == EnterAll(Segments(a))
    ensures Resolve(a + [SLASH] + middle + [SLASH] + b) == Resolve(a + [SLASH] + b)
  {
    hide Segments, EnterAll, Dirs, FinalSegment;
    var d := a + [SLASH] + middle;
    ResolveJoin(d, b);
    SegmentsJoin(a, middle);
    ResolveJoin(a, b);
    EnterOn(Segments(a) + Segments(middle), Segments(a), Dirs(b));
  }

  lemma {:induction false} OneSegment(g: bytes)
    requires SLASH !in g
    ensures Segments(g) == [g]
  {
    if g != [] {
      OneSegment(g[..|g| - 1]);
      assert g == g[..|g| - 1] + [g[|g| - 1]];
    }
  }

  /** The final segment is what stands behind the last slash. */
  lemma FinalSegmentIs(a: bytes, g: bytes)
    requires SLASH !in g
    ensures FinalSegment(a + [SLASH] + g) == g
  {
    ResolveJoin(a, g);
    OneSegment(g);
  }

  /** Two slashes are one. */
  lemma SlashesMerge(a: bytes, b: bytes)
    ensures Resolve(a + [SLASH, SLASH] + b) == Resolve(a + [SLASH] + b)
  {
    hide Segments, EnterAll, Resolve;
    OneSegment([]);
    EnterOne(Segments(a), []);
    StrikeOut(a, [], b);
    assert a + [SLASH, SLASH] + b == a + [SLASH] + [] + [SLASH] + b;
  }

  /** A segment that is one dot means nothing. */
  lemma DotVanishes(a: bytes, b: bytes)
    ensures Resolve(a + [SLASH, DOT, SLASH] + b) == Resolve(a + [SLASH] + b)
  {
    hide Segments, EnterAll, Resolve;
    OneSegment([DOT]);
    EnterOne(Segments(a), [DOT]);
    StrikeOut(a, [DOT], b);
    assert a + [SLASH, DOT, SLASH] + b == a + [SLASH] + [DOT] + [SLASH] + b;
  }

  /** Two dots take the one directory before them away. */
  lemma DotDotCancels(a: bytes, g: bytes, b: bytes)
    requires ProperName(g)
    ensures Resolve(a + [SLASH] + g + [SLASH, DOT, DOT, SLASH] + b) == Resolve(a + [SLASH] + b)
  {
    hide Segments, EnterAll, Resolve;
    var up := [DOT, DOT];
    OneSegment(g);
    OneSegment(up);
    SegmentsJoin(g, up);
    EnterOne(Segments(a), g);
    EnterOne(Segments(a) + [g], up);
    assert Segments(a) + [g] + [up] == Segments(a) + ([g] + [up]);
    if EnterAll(Segments(a)).Some? {
      var stack := EnterAll(Segments(a)).value;
      assert (stack + [g])[..|stack|] == stack;
    }
    StrikeOut(a, g + [SLASH] + up, b);
    assert a + [SLASH] + g + [SLASH, DOT, DOT, SLASH] + b == a + [SLASH] + (g + [SLASH] + up) + [SLASH] + b;
  }

  /** Above the root there is nothing. */
  lemma RootHasNoParent(b: bytes)
    ensures Resolve([SLASH, DOT, DOT, SLASH] + b).None?
  {
    hide Segments, EnterAll;
    var up := [DOT, DOT];
    NoSegments();
    OneSegment(up);
    SegmentsJoin([], up);
    assert [] + [SLASH] + up == [SLASH, DOT, DOT];
    NothingEntered();
    EnterOne([], []);
    EnterOne([[]], up);
    var none: seq<bytes> := [];
    assert none + [[]] == [[]] && [[]] + [up] == [[], up];
    ResolveJoin([SLASH, DOT, DOT], b);
    assert [SLASH, DOT, DOT] + [SLASH] + b == [SLASH, DOT, DOT, SLASH] + b;
    EnterAllFails([[], up], Dirs(b));
  }

  lemma NothingEntered()
    ensures EnterAll([]) == Some([])
  {
  }

  /** A path of directories that have proper names stays, whatever its final segment is. */
  lemma NamesStay(stack: seq<bytes>, final: bytes)
    requires (forall g :: g in stack ==> ProperName(g)) && SLASH !in final
    ensures Resolve(DirPath(stack) + final) == Some(DirPath(stack) + final)
  {
    PathSegments(stack, final);
    EnterProper(stack);
  }

  predicate IsExempt(name: bytes) { name == [] || name == [DOT] || name == [DOT, DOT] }

  /** The dot that starts the extension is the last one of all, if the text before it is not exempt. */
  lemma {:induction false} ExtensionDotIsLast(g: bytes, j: nat)
    requires j < |g| && g[j] == DOT && DOT !in g[j + 1..]
    ensures ExtensionDot(g) == if IsExempt(g[..j]) then -1 else j
  {
    var init := g[..|g| - 1];
    if j == |g| - 1 {
      assert init == g[..j];
      if IsExempt(init) {
        assert ExtensionDot([]) == -1 && ExtensionDot([DOT]) == -1 && ExtensionDot([DOT, DOT]) == -1;
      }
    } else {
      assert g[|g| - 1] in g[j + 1..];
      assert init[j + 1..] == g[j + 1..][..|g| - 2 - j] && init[..j] == g[..j];
      ExtensionDotIsLast(init, j);
    }
  }

  lemma {:induction false} NoExtensionDot(g: bytes)
    requires DOT !in g
    ensures ExtensionDot(g) == -1
  {
    if g != [] {
      NoExtensionDot(g[..|g| - 1]);
    }
  }

  function LastDot(g: bytes): (j: int)
    ensures -1 <= j < |g| && (j >= 0 ==> g[j] == DOT && DOT !in g[j + 1..])
    ensures j < 0 ==> DOT !in g
  {
    if g == [] then -1
    else if g[|g| - 1] == DOT then |g| - 1
    else
      var init := g[..|g| - 1];
      var j := LastDot(init);
      assert g == init + [g[|g| - 1]];
      assert j >= 0 ==> g[j + 1..] == init[j + 1..] + [g[|g| - 1]];
      j
  }

  /** The extension of a final segment stands behind its last dot, unless that dot follows at most two dots alone. */
  lemma ExtensionIs(g: bytes, e: bytes)
    ensures Extension(g) == Some(e)
            <==> DOT !in e && exists name: bytes :: g == name + [DOT] + e && !IsExempt(name)
  {
    hide ExtensionDot, IsExempt;
    var j := LastDot(g);
    if j < 0 {
      NoExtensionDot(g);
      forall name: bytes ensures g != name + [DOT] + e {
        assert (name + [DOT] + e)[|name|] == DOT;
      }
    } else {
      ExtensionDotIsLast(g, j);
      assert g == g[..j] + [DOT] + g[j + 1..];
      forall name: bytes | g == name + [DOT] + e && DOT !in e
        ensures name == g[..j] && e == g[j + 1..]
      {
        LastDotIs(g, name, e, j);
      }
    }
  }

  lemma LastDotIs(g: bytes, name: bytes, e: bytes, j: nat)
    requires g == name + [DOT] + e && DOT !in e
    requires j < |g| && g[j] == DOT && DOT !in g[j + 1..]
    ensures name == g[..j] && e == g[j + 1..]
  {
    assert forall i | j < i < |g| :: g[i] == g[j + 1..][i - j - 1];
    assert forall i | |name| < i < |g| :: g[i] == e[i - |name| - 1];
    assert g[|name|] == DOT;
    assert g[..|name|] == name && g[|name| + 1..] == e;
  }
}
