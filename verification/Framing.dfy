/**
 Cutting a byte stream into frames with a parser that looks at the front of the stream, and
 what follows when that parser's decisions do not depend on bytes that come later.
 */
module Framing {
  import opened Bytes

  /** What a parser says of the front of a stream. Whole: a frame of k bytes. */
  datatype Frame<+T> = Incomplete | Refused | Whole(head: T, k: nat)

  ghost predicate Advances<T(!new)>(next: bytes -> Frame<T>) {
    forall s: bytes :: next(s).Whole? ==> 0 < next(s).k <= |s|
  }

  /** A decision, and the indecision of a full budget, stands whatever bytes follow. */
  ghost predicate Stands<T(!new)>(next: bytes -> Frame<T>, budget: nat, s: bytes, t: bytes) {
    !next(s).Incomplete? || |s| >= budget ==> next(s + t) == next(s)
  }

  ghost predicate Decisive<T(!new)>(next: bytes -> Frame<T>, budget: nat) {
    forall s: bytes, t: bytes :: Stands(next, budget, s, t)
  }

  /** The frames at the front of a stream, one after another. */
  ghost function Frames<T(!new)>(next: bytes -> Frame<T>, s: bytes): seq<T>
    requires Advances(next)
    decreases |s|
  {
    if next(s).Whole? then [next(s).head] + Frames(next, s[next(s).k..]) else []
  }

  /** How much of the stream those frames use. */
  ghost function Used<T(!new)>(next: bytes -> Frame<T>, s: bytes): (r: nat)
    requires Advances(next)
    ensures r <= |s|
    decreases |s|
  {
    if next(s).Whole? then next(s).k + Used(next, s[next(s).k..]) else 0
  }

  lemma FirstFrame<T(!new)>(next: bytes -> Frame<T>, s: bytes)
    requires Advances(next)
    ensures next(s).Whole? ==>
      && Frames(next, s) == [next(s).head] + Frames(next, s[next(s).k..])
      && Used(next, s) == next(s).k + Used(next, s[next(s).k..])
    ensures !next(s).Whole? ==> Frames(next, s) == [] && Used(next, s) == 0
  {
  }

  lemma DecisiveAt<T(!new)>(next: bytes -> Frame<T>, budget: nat, s: bytes, t: bytes)
    requires Decisive(next, budget)
    ensures Stands(next, budget, s, t)
  {
  }

  /** A stream that is used up by its frames can be followed by another stream. */
  lemma {:induction false} FramesAppend<T(!new)>(next: bytes -> Frame<T>, budget: nat, past: bytes, s: bytes)
    requires Advances(next) && Decisive(next, budget) && Used(next, past) == |past|
    ensures Frames(next, past + s) == Frames(next, past) + Frames(next, s)
    ensures Used(next, past + s) == |past| + Used(next, s)
    decreases |past|
  {
    hide Decisive, Frames, Used;
    FirstFrame(next, past);
    if past == [] {
      assert past + s == s;
      assert Frames(next, past) == [];
      assert [] + Frames(next, s) == Frames(next, s);
    } else {
      var h, k := next(past).head, next(past).k;
      DecisiveAt(next, budget, past, s);
      FirstFrame(next, past + s);
      assert (past + s)[k..] == past[k..] + s;
      FramesAppend(next, budget, past[k..], s);
      assert [h] + (Frames(next, past[k..]) + Frames(next, s)) == ([h] + Frames(next, past[k..])) + Frames(next, s);
    }
  }

  /** The frames of a longer stream begin with the frames of the shorter one. */
  lemma {:induction false} FramesGrow<T(!new)>(next: bytes -> Frame<T>, budget: nat, s: bytes, t: bytes)
    requires Advances(next) && Decisive(next, budget)
    ensures Frames(next, s) <= Frames(next, s + t)
    decreases |s|
  {
    hide Decisive;
    if next(s).Whole? {
      DecisiveAt(next, budget, s, t);
      assert (s + t)[next(s).k..] == s[next(s).k..] + t;
      FramesGrow(next, budget, s[next(s).k..], t);
    }
  }

  /** Once the next frame is refused, or has overrun its budget, no frame will ever follow. */
  lemma FramesStop<T(!new)>(next: bytes -> Frame<T>, budget: nat, past: bytes, w: bytes, t: bytes)
    requires Advances(next) && Decisive(next, budget) && Used(next, past) == |past|
    requires next(w).Refused? || (next(w).Incomplete? && |w| >= budget)
    ensures Frames(next, past + w + t) == Frames(next, past)
  {
    hide Decisive;
    assert past + w + t == past + (w + t);
    FramesAppend(next, budget, past, w + t);
    DecisiveAt(next, budget, w, t);
    assert Frames(next, past) + [] == Frames(next, past);
  }

  /** A frame that is whole without the bytes after it is the next frame of the stream. */
  lemma FrameFollows<T(!new)>(next: bytes -> Frame<T>, budget: nat, past: bytes, w: bytes, h: T, k: nat)
    requires Advances(next) && Decisive(next, budget) && Used(next, past) == |past|
    requires k <= |w| && next(w[..k]) == Whole(h, k) && !next([]).Whole?
    ensures Frames(next, past + w[..k]) == Frames(next, past) + [h]
    ensures Used(next, past + w[..k]) == |past + w[..k]|
    ensures forall t: bytes :: Frames(next, past) + [h] <= Frames(next, past + w + t)
  {
    hide Decisive, Frames, Used;
    var f := w[..k];
    assert f[k..] == [];
    FirstFrame(next, []);
    FirstFrame(next, f);
    assert Frames(next, f) == [h] + [] == [h];
    FramesAppend(next, budget, past, f);
    forall t: bytes
      ensures Frames(next, past) + [h] <= Frames(next, past + w + t)
    {
      FramesGrow(next, budget, past + f, w[k..] + t);
      assert past + f + (w[k..] + t) == past + w + t;
    }
  }
}
