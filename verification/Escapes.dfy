/**
 What percent-encoded text stands for, from the tables of digits alone, and the proof that
 percent-decoding is its inverse.
 */
module Escapes {
  import opened Bytes
  import opened UriSpec

  const UPPER_DIGITS := "0123456789ABCDEF"
  const LOWER_DIGITS := "0123456789abcdef"

  /** The byte h is written for the digit v. */
  predicate IsDigitOf(h: byte, v: nat) {
    v < 16 && (h == UPPER_DIGITS[v] as int || h == LOWER_DIGITS[v] as int)
  }

  /** A byte that stands for itself, or the byte c written as a percent sign and two digits. */
  datatype Piece = Raw(b: byte) | Escape(c: byte, hi: byte, lo: byte)

  predicate Proper(p: Piece) {
    match p
    case Raw(b) => b != '%' as int
    case Escape(c, hi, lo) => IsDigitOf(hi, c / 16) && IsDigitOf(lo, c % 16)
  }

  function PieceText(p: Piece): bytes {
    match p
    case Raw(b) => [b]
    case Escape(_, hi, lo) => ['%' as int, hi, lo]
  }

  /** What is written for some pieces, and what it means. */
  function Text(ps: seq<Piece>): bytes {
    if ps == [] then [] else PieceText(ps[0]) + Text(ps[1..])
  }

  function Meaning(ps: seq<Piece>): bytes {
    if ps == [] then [] else [if ps[0].Raw? then ps[0].b else ps[0].c] + Meaning(ps[1..])
  }

  /** An escape that is cut off by the end: a percent sign alone, or with one digit. */
  ghost predicate CutOff(t: bytes) {
    t == [] || t == ['%' as int] || (|t| == 2 && t[0] == '%' as int && exists v :: IsDigitOf(t[1], v))
  }

  /** s is written for d, apart from an escape that is cut off. */
  ghost predicate Encodes(s: bytes, d: bytes) {
    exists ps, t :: Writes(ps, t, s, d)
  }

  ghost predicate Writes(ps: seq<Piece>, t: bytes, s: bytes, d: bytes) {
    (forall p | p in ps :: Proper(p)) && CutOff(t) && s == Text(ps) + t && d == Meaning(ps)
  }

  lemma DigitIs(h: byte, v: nat)
    requires v < 16
    ensures IsDigitOf(h, v) <==> HexValue(h) == Some(v)
  {
    if v < 10 {
      assert UPPER_DIGITS[v] as int == 48 + v == LOWER_DIGITS[v] as int;
    } else {
      assert UPPER_DIGITS[v] as int == 55 + v && LOWER_DIGITS[v] as int == 87 + v;
    }
  }

  lemma NoDigit(h: byte)
    ensures HexValue(h).None? <==> forall v :: !IsDigitOf(h, v)
  {
    forall v: nat | v < 16 ensures IsDigitOf(h, v) <==> HexValue(h) == Some(v) { DigitIs(h, v); }
    if HexValue(h).Some? {
      assert IsDigitOf(h, HexValue(h).value);
    }
  }

  /** A proper piece at i is decoded to what it means. */
  lemma DecodePiece(s: bytes, i: nat, p: Piece)
    requires Proper(p) && i + |PieceText(p)| <= |s| && s[i..i + |PieceText(p)|] == PieceText(p)
    ensures DecodeFrom(s, i) == Prepend([if p.Raw? then p.b else p.c], DecodeFrom(s, i + |PieceText(p)|))
  {
    hide IsDigitOf, HexValue;
    var t := PieceText(p);
    assert s[i] == t[0];
    if p.Escape? {
      assert s[i + 1] == s[i..i + |t|][1] == p.hi && s[i + 2] == s[i..i + |t|][2] == p.lo;
      DigitIs(p.hi, p.c / 16);
      DigitIs(p.lo, p.c % 16);
    }
  }

  lemma {:induction false} DecodePieces(s: bytes, i: nat, ps: seq<Piece>)
    requires forall p | p in ps :: Proper(p)
    requires i + |Text(ps)| <= |s| && s[i..i + |Text(ps)|] == Text(ps)
    ensures DecodeFrom(s, i) == Prepend(Meaning(ps), DecodeFrom(s, i + |Text(ps)|))
    decreases |ps|
  {
    hide Proper, DecodeFrom, PieceText;
    if ps == [] {
      PrependNothing(DecodeFrom(s, i));
    } else {
      var t, rest := PieceText(ps[0]), Text(ps[1..]);
      assert s[i..i + |t|] == s[i..i + |Text(ps)|][..|t|] == t;
      assert s[i + |t|..i + |t| + |rest|] == s[i..i + |Text(ps)|][|t|..] == rest;
      DecodePiece(s, i, ps[0]);
      DecodePieces(s, i + |t|, ps[1..]);
      PrependTwice([if ps[0].Raw? then ps[0].b else ps[0].c], Meaning(ps[1..]), DecodeFrom(s, i + |Text(ps)|));
    }
  }

  lemma PrependNothing(r: Option<bytes>)
    ensures Prepend([], r) == r
  {
    assert r.Some? ==> [] + r.value == r.value;
  }

  lemma PrependTwice(a: bytes, b: bytes, r: Option<bytes>)
    ensures Prepend(a, Prepend(b, r)) == Prepend(a + b, r)
  {
    assert r.Some? ==> a + (b + r.value) == (a + b) + r.value;
  }

  lemma DecodeCutOff(s: bytes, i: nat)
    requires i <= |s| && CutOff(s[i..])
    ensures DecodeFrom(s, i) == Some([])
  {
    if i < |s| {
      assert s[i] == s[i..][0];
      if i + 1 < |s| {
        assert s[i + 1] == s[i..][1];
        NoDigit(s[i + 1]);
      }
    }
  }

  /** Whatever is decoded was written for some pieces. */
  lemma {:induction false} FindPieces(s: bytes, i: nat) returns (ps: seq<Piece>, t: bytes)
    requires i <= |s| && DecodeFrom(s, i).Some?
    ensures Writes(ps, t, s[i..], DecodeFrom(s, i).value)
    decreases |s| - i
  {
    hide IsDigitOf, HexValue;
    if i == |s| || (s[i] == PERCENT && i + 2 >= |s|) {
      ps, t := [], s[i..];
      if i + 2 == |s| {
        NoDigit(s[i + 1]);
      }
      assert s[i..] == Text([]) + t;
    } else {
      var p, n := Raw(s[i]), 1;
      if s[i] == PERCENT {
        var hi, lo := HexValue(s[i + 1]).value, HexValue(s[i + 2]).value;
        DigitIs(s[i + 1], hi);
        DigitIs(s[i + 2], lo);
        p, n := Escape(16 * hi + lo, s[i + 1], s[i + 2]), 3;
      }
      ps, t := FindPieces(s, i + n);
      assert s[i..] == PieceText(p) + s[i + n..];
      assert ([p] + ps)[1..] == ps;
      assert PieceText(p) + (Text(ps) + t) == Text([p] + ps) + t;
      ps := [p] + ps;
    }
  }

  /** Percent-decoding gives d exactly for the texts that are written for d. */
  lemma DecodeIsInverse(s: bytes, d: bytes)
    ensures PercentDecode(s) == Some(d) <==> Encodes(s, d)
  {
    if PercentDecode(s) == Some(d) {
      var ps, t := FindPieces(s, 0);
      assert s[0..] == s;
      assert Writes(ps, t, s, d);
    }
    if Encodes(s, d) {
      var ps, t :| Writes(ps, t, s, d);
      assert s[0..0 + |Text(ps)|] == Text(ps) && s[|Text(ps)|..] == t;
      DecodePieces(s, 0, ps);
      DecodeCutOff(s, |Text(ps)|);
      assert d + [] == d;
    }
  }

  /** The normal form of a raw path is the resolution of what the path is written for. */
  lemma NormaliseByMeaning(s: bytes)
    ensures Normalise(s).Some? <==> exists d :: Encodes(s, d) && Resolve(d).Some?
    ensures forall d | Encodes(s, d) :: Resolve(d) == Normalise(s)
  {
    hide Encodes, PercentDecode;
    forall d ensures Encodes(s, d) <==> PercentDecode(s) == Some(d) { DecodeIsInverse(s, d); }
    if Normalise(s).Some? {
      assert Encodes(s, PercentDecode(s).value);
    }
  }

  /** A percent sign before something that is no digit, at once or behind one digit, is refused. */
  lemma BadEscapeIsRefused(ps: seq<Piece>, good: bytes, bad: byte, t: bytes)
    requires forall p | p in ps :: Proper(p)
    requires |good| <= 1 && (good != [] ==> exists v :: IsDigitOf(good[0], v)) && forall v :: !IsDigitOf(bad, v)
    ensures PercentDecode(Text(ps) + ['%' as int] + good + [bad] + t).None?
  {
    hide IsDigitOf, HexValue;
    var s, i := Text(ps) + ['%' as int] + good + [bad] + t, |Text(ps)|;
    assert s[0..0 + i] == Text(ps);
    DecodePieces(s, 0, ps);
    NoDigit(bad);
    assert s[i] == PERCENT && s[i + 1 + |good|] == bad;
    if good != [] {
      NoDigit(good[0]);
      assert s[i + 1] == good[0];
    }
  }
}
