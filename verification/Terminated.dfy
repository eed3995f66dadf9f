/**
 The NULs written into the input buffer: one after the request line, one after every header
 name, one after every header value. None of them touches a stored string or an unparsed byte.
 */
module Terminated {
  import opened Bytes
  import opened RequestHead
  import H = HeaderLine

  function PutNul(w: bytes, i: Ptr): (r: bytes)
    ensures |r| == |w|
  {
    if 0 <= i < |w| then w[i := NUL] else w
  }

  /** The window w after the request line that ends at `at` and these headers were terminated. */
  function WithNuls(w: bytes, at: Ptr, fields: seq<H.FieldMarks>): (r: bytes)
    ensures |r| == |w|
  {
    if fields == [] then PutNul(w, at)
    else
      var f := fields[|fields| - 1];
      PutNul(PutNul(WithNuls(w, at, fields[..|fields| - 1]), f.nameEnd), f.end)
  }

  /** Exactly the terminator positions are overwritten. */
  lemma {:induction false} WithNulsAt(w: bytes, at: Ptr, fields: seq<H.FieldMarks>, i: nat)
    requires i < |w|
    ensures WithNuls(w, at, fields)[i]
         == if i == at || exists f :: f in fields && (i == f.nameEnd || i == f.end) then NUL else w[i]
  {
    if fields != [] {
      var init, f := fields[..|fields| - 1], fields[|fields| - 1];
      assert fields == init + [f];
      WithNulsAt(w, at, init, i);
    }
  }

  lemma WithNulsSnoc(w: bytes, at: Ptr, fields: seq<H.FieldMarks>, f: H.FieldMarks)
    ensures WithNuls(w, at, fields + [f]) == PutNul(PutNul(WithNuls(w, at, fields), f.nameEnd), f.end)
  {
    assert (fields + [f])[..|fields|] == fields;
  }

  lemma PutNulAppend(w: bytes, t: bytes, i: Ptr)
    requires i < |w|
    ensures PutNul(w + t, i) == PutNul(w, i) + t
  {
  }

  /** Bytes that arrive later are not affected. */
  lemma {:induction false} WithNulsAppend(w: bytes, t: bytes, at: Ptr, fields: seq<H.FieldMarks>)
    requires at < |w| && forall f :: f in fields ==> f.nameEnd < |w| && f.end < |w|
    ensures WithNuls(w + t, at, fields) == WithNuls(w, at, fields) + t
  {
    if fields != [] {
      var init, f := fields[..|fields| - 1], fields[|fields| - 1];
      WithNulsAppend(w, t, at, init);
      var b := WithNuls(w, at, init);
      PutNulAppend(b, t, f.nameEnd);
      PutNulAppend(PutNul(b, f.nameEnd), t, f.end);
    } else {
      PutNulAppend(w, t, at);
    }
  }

  /** The unparsed bytes, from hi on, are still what was received. */
  lemma NothingAhead(w: bytes, at: Ptr, fields: seq<H.FieldMarks>, lo: int, hi: nat)
    requires at < lo <= hi <= |w| && Ordered(fields, lo, hi)
    ensures WithNuls(w, at, fields)[hi..] == w[hi..]
  {
    forall i | hi <= i < |w|
      ensures WithNuls(w, at, fields)[i] == w[i]
    {
      WithNulsAt(w, at, fields, i);
    }
  }

  /** Every stored name and value is still intact, and now ends in a NUL. */
  lemma StringsKept(w: bytes, at: Ptr, fields: seq<H.FieldMarks>, lo: int, hi: nat)
    requires 0 <= at < lo <= hi <= |w| && Ordered(fields, lo, hi)
    ensures var b := WithNuls(w, at, fields);
      && FieldsAt(b, fields) == FieldsAt(w, fields)
      && (forall j | 0 <= j < |fields| :: b[fields[j].nameEnd] == NUL && b[fields[j].end] == NUL)
      && b[..at] == w[..at] && b[at] == NUL
  {
    var b := WithNuls(w, at, fields);
    forall j | 0 <= j < |fields|
      ensures FieldAt(b, fields[j]) == FieldAt(w, fields[j])
      ensures b[fields[j].nameEnd] == NUL && b[fields[j].end] == NUL
    {
      FieldKept(w, at, fields, lo, hi, j);
    }
    assert FieldsAt(b, fields) == FieldsAt(w, fields);
    forall i | 0 <= i < at
      ensures b[i] == w[i]
    {
      LineKept(w, at, fields, lo, hi, i);
    }
    WithNulsAt(w, at, fields, at);
  }

  lemma LineKept(w: bytes, at: Ptr, fields: seq<H.FieldMarks>, lo: int, hi: nat, i: nat)
    requires i < at < lo <= hi <= |w| && Ordered(fields, lo, hi)
    ensures WithNuls(w, at, fields)[i] == w[i]
  {
    WithNulsAt(w, at, fields, i);
    forall g | g in fields
      ensures i != g.nameEnd && i != g.end
    {
      var l :| 0 <= l < |fields| && fields[l] == g;
      assert InLine(g, lo, hi);
    }
  }

  /** No terminator falls inside header j. */
  lemma ByteKept(w: bytes, at: Ptr, fields: seq<H.FieldMarks>, lo: int, hi: nat, j: nat, i: nat)
    requires 0 <= at < lo <= hi <= |w| && Ordered(fields, lo, hi) && j < |fields| && i < |w|
    requires fields[j].nameStart <= i < fields[j].nameEnd || fields[j].start <= i < fields[j].end
    ensures WithNuls(w, at, fields)[i] == w[i]
  {
    WithNulsAt(w, at, fields, i);
    assert InLine(fields[j], lo, hi);
    forall g | g in fields
      ensures i != g.nameEnd && i != g.end
    {
      var l :| 0 <= l < |fields| && fields[l] == g;
      assert InLine(g, lo, hi);
    }
  }

  lemma FieldKept(w: bytes, at: Ptr, fields: seq<H.FieldMarks>, lo: int, hi: nat, j: nat)
    requires 0 <= at < lo <= hi <= |w| && Ordered(fields, lo, hi) && j < |fields|
    ensures var b := WithNuls(w, at, fields);
      && InLine(fields[j], lo, hi)
      && FieldAt(b, fields[j]) == FieldAt(w, fields[j])
      && b[fields[j].nameEnd] == NUL && b[fields[j].end] == NUL
  {
    var b, f := WithNuls(w, at, fields), fields[j];
    assert f in fields && InLine(f, lo, hi);
    WithNulsAt(w, at, fields, f.nameEnd);
    WithNulsAt(w, at, fields, f.end);
    forall i | f.nameStart <= i < f.nameEnd || f.start <= i < f.end
      ensures b[i] == w[i]
    {
      ByteKept(w, at, fields, lo, hi, j, i);
    }
    assert b[f.nameStart..f.nameEnd] == w[f.nameStart..f.nameEnd];
    assert b[f.start..f.end] == w[f.start..f.end];
  }

  // ----- marks of a line that is still being read

  /** The marks of a header line that began at lo and has been read up to i. */
  ghost predicate Sane(q: H.HeaderState, m: H.FieldMarks, lo: int, i: int) {
    && lo <= i
    && match q
       case Name => lo <= m.nameStart < i
       case SpaceBeforeValue => lo <= m.nameStart < m.nameEnd < i
       case Value => lo <= m.nameStart < m.nameEnd < m.start < i
       case SpaceAfterValue => InLine(m, lo, i)
       case AlmostDone => InLine(m, lo, i)
       case Done => InLine(m, lo, i)
       case _ => true
  }

  lemma {:induction false} RunStaysSane(q: H.HeaderState, m: H.FieldMarks, s: bytes, i: nat, lo: int)
    requires i <= |s| && Sane(q, m, lo, i)
    ensures match H.Run(q, m, s, i)
      case More(q', m') => Sane(q', m', lo, |s|)
      case Field(m', k) => InLine(m', lo, k)
      case _ => true
    decreases |s| - i
  {
    if !H.Ended(q) && i < |s| {
      var t := H.Step(q, m, s[i], i);
      if t.Go? {
        assert Sane(t.q, t.m, lo, i + 1);
        RunStaysSane(t.q, t.m, s, i + 1, lo);
      }
    }
  }

  lemma OrderedSnoc(fields: seq<H.FieldMarks>, f: H.FieldMarks, lo: int, mid: int, hi: int)
    requires Ordered(fields, lo, mid) && InLine(f, mid, hi) && lo <= mid
    ensures Ordered(fields + [f], lo, hi)
  {
    var all := fields + [f];
    forall j | 0 <= j < |all| ensures InLine(all[j], lo, hi) {
      assert j < |fields| ==> InLine(fields[j], lo, mid);
    }
    forall j, l | 0 <= j < l < |all| ensures all[j].end < all[l].nameStart {
      assert InLine(fields[j], lo, mid);
    }
  }
}
