/** Bytes, the character codes the server compares against, and C string contents. */
module Bytes {
  /** An unsigned char. */
  type byte = b: int | 0 <= b < 256

  type bytes = seq<byte>

  /** A pointer into a buffer, as an offset from the buffer's start. NULL is no offset at all. */
  type Ptr = int

  const NULL: Ptr := -1

  const NUL: byte := 0
  const LF: byte := 10
  const CR: byte := 13
  const SP: byte := 32
  const PERCENT: byte := 37
  const DASH: byte := 45
  const DOT: byte := 46
  const SLASH: byte := 47
  const ZERO: byte := 48
  const NINE: byte := 57
  const COLON: byte := 58
  const QUESTION: byte := 63
  const UNDERSCORE: byte := 95
  const TILDE: byte := 126

  datatype Option<+T> = None | Some(value: T)

  predicate IsUpper(b: byte) { 65 <= b <= 90 }

  predicate IsLower(b: byte) { 97 <= b <= 122 }

  predicate IsAlpha(b: byte) { IsUpper(b) || IsLower(b) }

  predicate IsDigit(b: byte) { ZERO <= b <= NINE }

  /** The C expression `ch | 0x20`: the bytes whose bit 5 is clear come in runs of 32. */
  function Or20(b: byte): byte {
    if b < 32 || 64 <= b < 96 || 128 <= b < 160 || 192 <= b < 224 then b + 32 else b
  }

  /** The bytes of s that a C string function sees: everything before the first NUL. */
  function CString(s: bytes): (r: bytes)
    ensures r <= s && NUL !in r
    ensures |r| < |s| ==> s[|r|] == NUL
  {
    if s == [] || s[0] == NUL then [] else [s[0]] + CString(s[1..])
  }

  /** The bytes of a piece of text. */
  function Ascii(s: string): (r: bytes)
    ensures |r| == |s| && forall i | 0 <= i < |s| && s[i] as int < 256 :: r[i] == s[i] as int
  {
    seq(|s|, i requires 0 <= i < |s| => s[i] as int % 256)
  }
}
