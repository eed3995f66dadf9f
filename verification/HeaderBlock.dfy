/** A whole header block: header lines one after another, up to the blank line. */
module HeaderBlock {
  import opened Bytes
  import opened HeaderLine

  /** Reading: more bytes are needed. Complete: the blank line ended just before k. */
  datatype Block =
    | Reading(q: HeaderState, m: FieldMarks, fields: seq<FieldMarks>)
    | Complete(fields: seq<FieldMarks>, k: nat)
    | Broken

  /** A line that ends has used at least one byte. */
  lemma {:induction false} RunAdvances(q: HeaderState, m: FieldMarks, s: bytes, i: nat)
    requires i <= |s| && !Ended(q)
    ensures Run(q, m, s, i).Field? || Run(q, m, s, i).End? ==> Run(q, m, s, i).k > i
    decreases |s| - i
  {
    if i < |s| && Step(q, m, s[i], i).Go? && !Ended(Step(q, m, s[i], i).q) {
      RunAdvances(Step(q, m, s[i], i).q, Step(q, m, s[i], i).m, s, i + 1);
    }
  }

  /** Parses lines from i on; `fields` are the lines parsed so far. */
  function ReadBlock(q: HeaderState, m: FieldMarks, s: bytes, i: nat, fields: seq<FieldMarks>): (r: Block)
    requires i <= |s| && !Ended(q)
    ensures r.Reading? ==> !Ended(r.q)
    ensures r.Complete? ==> i < r.k <= |s|
    decreases |s| - i
  {
    RunAdvances(q, m, s, i);
    RunStops(q, m, s, i);
    match Run(q, m, s, i)
    case More(q', m') => Reading(q', m', fields)
    case Field(m', k) => ReadBlock(Start, m', s, k, fields + [m'])
    case End(_, k) => Complete(fields, k)
    case Bad(_) => Broken
  }

  lemma {:induction false} RunStops(q: HeaderState, m: FieldMarks, s: bytes, i: nat)
    requires i <= |s|
    ensures Run(q, m, s, i).More? ==> !Ended(Run(q, m, s, i).q)
    decreases |s| - i
  {
    if !Ended(q) && i < |s| && Step(q, m, s[i], i).Go? {
      RunStops(Step(q, m, s[i], i).q, Step(q, m, s[i], i).m, s, i + 1);
    }
  }

  /** The split law for whole blocks. */
  lemma {:induction false} SplitBlock(q: HeaderState, m: FieldMarks, s: bytes, t: bytes, i: nat,
                                      fields: seq<FieldMarks>)
    requires i <= |s| && !Ended(q)
    ensures var r := ReadBlock(q, m, s, i, fields);
      ReadBlock(q, m, s + t, i, fields)
      == if r.Reading? then ReadBlock(r.q, r.m, s + t, |s|, r.fields) else r
    decreases |s| - i
  {
    Split(q, m, s, t, i);
    RunAdvances(q, m, s, i);
    RunStops(q, m, s, i);
    match Run(q, m, s, i)
    case More(q', m') =>
    case Field(m', k) => SplitBlock(Start, m', s, t, k, fields + [m']);
    case End(_, _) =>
    case Bad(_) =>
  }

  lemma {:induction false} BlockReadsOnlyAhead(q: HeaderState, m: FieldMarks, s: bytes, s': bytes, i: nat,
                                               fields: seq<FieldMarks>)
    requires i <= |s| == |s'| && s[i..] == s'[i..] && !Ended(q)
    ensures ReadBlock(q, m, s, i, fields) == ReadBlock(q, m, s', i, fields)
    decreases |s| - i
  {
    ReadsOnlyAhead(q, m, s, s', i);
    RunAdvances(q, m, s, i);
    RunStops(q, m, s, i);
    match Run(q, m, s, i)
    case More(_, _) =>
    case Field(m', k) =>
      assert s[k..] == s[i..][k - i..] && s'[k..] == s'[i..][k - i..];
      BlockReadsOnlyAhead(Start, m', s, s', k, fields + [m']);
    case End(_, _) =>
    case Bad(_) =>
  }

  /** A line that ends is one more header, and the next line follows. */
  lemma ReadOneField(m0: FieldMarks, s: bytes, i: nat, fields: seq<FieldMarks>, m: FieldMarks, k: nat)
    requires i <= |s| && Run(Start, m0, s, i) == Field(m, k)
    ensures ReadBlock(Start, m0, s, i, fields) == ReadBlock(Start, m, s, k, fields + [m])
  {
    RunAdvances(Start, m0, s, i);
  }

  // ----- every line ends in a line feed

  /** How many line feeds s has. */
  function LineFeeds(s: bytes): nat {
    if s == [] then 0 else LineFeeds(s[..|s| - 1]) + (if s[|s| - 1] == LF then 1 else 0)
  }

  lemma {:induction false} LineFeedsAppend(s: bytes, t: bytes)
    ensures LineFeeds(s + t) == LineFeeds(s) + LineFeeds(t)
    decreases |t|
  {
    if t == [] {
      assert s + t == s;
    } else {
      assert (s + t)[..|s + t| - 1] == s + t[..|t| - 1];
      LineFeedsAppend(s, t[..|t| - 1]);
    }
  }

  lemma {:induction false} NoLineFeeds(s: bytes)
    requires LF !in s
    ensures LineFeeds(s) == 0
  {
    if s != [] {
      NoLineFeeds(s[..|s| - 1]);
    }
  }

  lemma {:induction false} RunEndsInLineFeed(q: HeaderState, m: FieldMarks, s: bytes, i: nat)
    requires i <= |s| && !Ended(q)
    ensures var r := Run(q, m, s, i); r.Field? || r.End? ==> i < r.k <= |s| && s[r.k - 1] == LF
    decreases |s| - i
  {
    if i < |s| && Step(q, m, s[i], i).Go? && !Ended(Step(q, m, s[i], i).q) {
      RunEndsInLineFeed(Step(q, m, s[i], i).q, Step(q, m, s[i], i).m, s, i + 1);
    }
  }

  /** A complete block has a line feed for every header and one for the blank line. */
  lemma {:induction false} BlockLineFeeds(q: HeaderState, m: FieldMarks, s: bytes, i: nat, fields: seq<FieldMarks>)
    requires i <= |s| && !Ended(q)
    ensures var r := ReadBlock(q, m, s, i, fields);
      r.Complete? ==> i <= r.k <= |s| && |fields| <= |r.fields| && |r.fields| - |fields| < LineFeeds(s[i..r.k])
    decreases |s| - i
  {
    hide Run, LineFeeds;
    RunEndsInLineFeed(q, m, s, i);
    var r, b := Run(q, m, s, i), ReadBlock(q, m, s, i, fields);
    if r.Field? {
      BlockLineFeeds(Start, r.m, s, r.k, fields + [r.m]);
      if b.Complete? {
        assert s[i..b.k] == s[i..r.k] + s[r.k..b.k];
        LineFeedsAppend(s[i..r.k], s[r.k..b.k]);
        EndsInLineFeed(s[i..r.k]);
      }
    } else if r.End? {
      EndsInLineFeed(s[i..r.k]);
    }
  }

  lemma EndsInLineFeed(s: bytes)
    requires s != [] && s[|s| - 1] == LF
    ensures LineFeeds(s) > 0
  {
  }

  // ----- input that arrives in chunks

  function Concat(chunks: seq<bytes>): bytes {
    if chunks == [] then [] else chunks[0] + Concat(chunks[1..])
  }

  /** Parses s from where it was left, then each chunk as it arrives, resuming from the saved state. */
  function Feed(b: Block, s: bytes, chunks: seq<bytes>): Block
    requires b.Reading? ==> !Ended(b.q)
    decreases chunks
  {
    if chunks == [] || !b.Reading? then b
    else
      var s' := s + chunks[0];
      Feed(ReadBlock(b.q, b.m, s', |s|, b.fields), s', chunks[1..])
  }

  lemma {:induction false} ReadNothing(q: HeaderState, m: FieldMarks, s: bytes, fields: seq<FieldMarks>)
    requires !Ended(q)
    ensures ReadBlock(q, m, s, |s|, fields) == Reading(q, m, fields)
  {
  }

  /** However the text is cut, the block parsed is the one a single call on the whole text parses. */
  lemma {:induction false} ChunksDoNotMatter(b: Block, s: bytes, chunks: seq<bytes>)
    requires b.Reading? && !Ended(b.q)
    ensures Feed(b, s, chunks) == ReadBlock(b.q, b.m, s + Concat(chunks), |s|, b.fields)
    decreases chunks
  {
    if chunks == [] {
      assert s + Concat(chunks) == s;
      ReadNothing(b.q, b.m, s, b.fields);
    } else {
      var s' := s + chunks[0];
      var b' := ReadBlock(b.q, b.m, s', |s|, b.fields);
      assert s + Concat(chunks) == s' + Concat(chunks[1..]);
      SplitBlock(b.q, b.m, s', Concat(chunks[1..]), |s|, b.fields);
      if b'.Reading? {
        ChunksDoNotMatter(b', s', chunks[1..]);
      }
    }
  }
}
