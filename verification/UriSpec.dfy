/**
 What the URI normaliser is meant to compute, as two simple passes: percent-decode the
 whole path, then resolve its segments with a stack.
 */
module UriSpec {
  import opened Bytes

  // ----- pass 1: percent-decoding

  /** The value of a hex digit of either case. */
  function HexValue(b: byte): (r: Option<byte>)
    ensures r.Some? ==> r.value < 16
  {
    if 48 <= b <= 57 then Some(b - 48)
    else if 65 <= b <= 70 then Some(b - 55)
    else if 97 <= b <= 102 then Some(b - 87)
    else None
  }

  function Prepend(d: bytes, rest: Option<bytes>): Option<bytes> {
    if rest.None? then None else Some(d + rest.value)
  }

  /** Decodes every %XX. A bad hex digit is an error; an escape cut off by the end is dropped. */
  function PercentDecode(s: bytes): Option<bytes> {
    DecodeFrom(s, 0)
  }

  function DecodeFrom(s: bytes, i: nat): (r: Option<bytes>)
    requires i <= |s|
    ensures r.Some? ==> |r.value| <= |s| - i
    decreases |s| - i
  {
    if i == |s| then Some([])
    else if s[i] != PERCENT then Prepend([s[i]], DecodeFrom(s, i + 1))
    else if i + 1 == |s| then Some([])
    else if HexValue(s[i + 1]).None? then None
    else if i + 2 == |s| then Some([])
    else if HexValue(s[i + 2]).None? then None
    else Prepend([16 * HexValue(s[i + 1]).value + HexValue(s[i + 2]).value], DecodeFrom(s, i + 3))
  }

  // ----- pass 2: resolving segments

  /** The pieces of d between slashes: one more piece than there are slashes. */
  function Segments(d: bytes): (r: seq<bytes>)
    ensures r != []
  {
    if d == [] then [[]]
    else
      var r := Segments(d[..|d| - 1]);
      var c := d[|d| - 1];
      if c == SLASH then r + [[]] else r[..|r| - 1] + [r[|r| - 1] + [c]]
  }

  function Dirs(d: bytes): seq<bytes> {
    Segments(d)[..|Segments(d)| - 1]
  }

  function FinalSegment(d: bytes): bytes {
    Segments(d)[|Segments(d)| - 1]
  }

  /** Enter one directory: "" and "." stay, ".." goes up and fails at the root. */
  function Enter(stack: seq<bytes>, dir: bytes): Option<seq<bytes>> {
    if dir == [] || dir == [DOT] then Some(stack)
    else if dir == [DOT, DOT] then
      if stack == [] then None else Some(stack[..|stack| - 1])
    else Some(stack + [dir])
  }

  function EnterAll(dirs: seq<bytes>): Option<seq<bytes>> {
    if dirs == [] then Some([])
    else
      var r := EnterAll(dirs[..|dirs| - 1]);
      if r.None? then None else Enter(r.value, dirs[|dirs| - 1])
  }

  /** The directory path: a slash, then every directory followed by a slash. */
  function DirPath(stack: seq<bytes>): (r: bytes)
    ensures r != [] && r[0] == SLASH && r[|r| - 1] == SLASH
  {
    if stack == [] then [SLASH]
    else DirPath(stack[..|stack| - 1]) + stack[|stack| - 1] + [SLASH]
  }

  function Resolve(d: bytes): Option<bytes> {
    var r := EnterAll(Dirs(d));
    if r.None? then None else Some(DirPath(r.value) + FinalSegment(d))
  }

  /** The normalised form of a raw path, or None when the path must be rejected. */
  function Normalise(s: bytes): Option<bytes> {
    var d := PercentDecode(s);
    if d.None? then None else Resolve(d.value)
  }

  // ----- the extension

  /**
   Index in segment g of the dot that starts its extension, or -1: the last dot that is not
   one of the segment's first dots (".", "..", "..." open a name, not an extension).
   */
  function ExtensionDot(g: bytes): (j: int)
    ensures -1 <= j < |g|
    ensures j >= 0 ==> g[j] == DOT && |g[..j]| > 0
  {
    if g == [] then -1
    else
      var init := g[..|g| - 1];
      if g[|g| - 1] == DOT && init != [] && init != [DOT] && init != [DOT, DOT] then |init|
      else ExtensionDot(init)
  }

  /** The file extension of a path whose final segment is g; None when it has no extension. */
  function Extension(g: bytes): Option<bytes> {
    if ExtensionDot(g) < 0 then None else Some(g[ExtensionDot(g) + 1..])
  }
}
