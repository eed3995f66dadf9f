/** The strings made from a finished request line, by the fast route or the normaliser. */
module RequestStrings {
  import opened Bytes
  import opened UriSpec
  import opened UriNormaliser
  import opened CopyString
  import opened RequestHead
  import opened Framing
  import opened Heap
  import L = RequestLine

  datatype Made = Made | PathRefused | NoMemory

  function CopiedString(e: Option<bytes>): Option<bytes> {
    if e.None? then None else Some(CString(e.value))
  }

  /** A copy of src[..len] in memory of its own. */
  method Duplicate(heap: Heap, src: bytes, len: nat) returns (ok: bool, text: bytes)
    requires len <= |src|
    modifies heap`failures
    ensures heap.failures == old(heap.failures) + (if ok then 0 else 1)
    ensures ok ==> |text| == len + 1 && CString(text) == CString(src[..len])
  {
    var mem;
    ok, mem := heap.Palloc(len + 1);
    CopyIsCString(mem[..], src, len + 1);
    var _ := CopyStringN(mem, src, len + 1);
    text := mem[..];
  }

  /** The complex route: normalise the path into fresh memory, then copy its extension. */
  method CopyComplex(heap: Heap, src: bytes, len: nat)
    returns (made: Made, uri: bytes, uriLen: nat, exten: Option<bytes>)
    requires 0 < len < |src| && src[0] == SLASH
    modifies heap`failures
    ensures heap.failures == old(heap.failures) + (if made == NoMemory then 1 else 0)
    ensures made == PathRefused ==> Normalise(src[..len]).None?
    ensures made == Made ==>
      && Normalise(src[..len]).Some?
      && uriLen == |Normalise(src[..len]).value| && CString(uri) == CString(Normalise(src[..len]).value)
      && CopiedString(exten) == CopiedString(Extension(FinalSegment(PercentDecode(src[..len]).value)))
  {
    hide Normalise, PercentDecode, Extension, FinalSegment, CString;
    made, uri, uriLen, exten := NoMemory, [], 0, None;
    var mem: array<byte>;
    var ok;
    ok, mem := heap.Palloc(len + 1);
    if !ok {
      return;
    }
    var ext;
    ok, uriLen, ext := ParseComplexUri(src, len, mem);
    if !ok {
      return PathRefused, uri, 0, None;
    }
    uri := mem[..];
    TerminatedCString(uri, Normalise(src[..len]).value);
    if ext != NULL {
      var text;
      assert uri[ext..][..uriLen - ext] == mem[ext..uriLen];
      ok, text := Duplicate(heap, uri[ext..], uriLen - ext);
      if !ok {
        return;
      }
      exten := Some(text);
    }
    made := Made;
  }

  /** The fast route: copy the path text[start..end] and its extension as they stand. */
  method CopyPlain(heap: Heap, text: bytes, start: nat, end: nat, ext: Ptr)
    returns (made: Made, uri: bytes, uriLen: nat, exten: Option<bytes>)
    requires start < end < |text| && (ext == NULL || start < ext <= end)
    modifies heap`failures
    ensures heap.failures == old(heap.failures) + (if made == NoMemory then 1 else 0)
    ensures made != PathRefused
    ensures made == Made ==>
      && uriLen == end - start && CString(uri) == CString(text[start..end])
      && CopiedString(exten) == if ext == NULL then None else Some(CString(text[ext..end]))
  {
    made, uri, uriLen, exten := NoMemory, [], end - start, None;
    assert text[start..][..end - start] == text[start..end];
    var ok;
    ok, uri := Duplicate(heap, text[start..], end - start);
    if !ok {
      return;
    }
    if ext != NULL {
      var e;
      assert text[ext..][..end - ext] == text[ext..end];
      ok, e := Duplicate(heap, text[ext..], end - ext);
      if !ok {
        return;
      }
      exten := Some(e);
    }
    made := Made;
  }

  /** What a finished line guarantees about its path. */
  ghost predicate PathReady(m: L.Marks, text: bytes) {
    && 0 <= m.uri.start < PathEnd(m) <= m.uri.end < |text| && text[m.uri.start] == SLASH
    && (m.uri.ext == NULL || m.uri.start < m.uri.ext <= PathEnd(m))
    && (!m.uri.complex ==>
          && Normalise(Path(m, text)) == Some(Path(m, text))
          && Extension(FinalSegment(PercentDecode(Path(m, text)).value))
             == if m.uri.ext == NULL then None else Some(Span(text, m.uri.ext, PathEnd(m))))
  }

  lemma LineIsReady(m: L.Marks, text: bytes, k: nat)
    requires L.ParseLine(text, 0) == L.Finished(m, k)
    ensures PathReady(m, text)
  {
    LineInBounds(m, text, k);
    if !m.uri.complex {
      FastPath(m, text, k);
    }
  }

  method CopyUri(heap: Heap, text: bytes, m: L.Marks)
    returns (made: Made, uri: bytes, uriLen: nat, exten: Option<bytes>)
    requires PathReady(m, text)
    modifies heap`failures
    ensures heap.failures == old(heap.failures) + (if made == NoMemory then 1 else 0)
    ensures made == PathRefused ==> Normalise(Path(m, text)).None?
    ensures made == Made ==>
      && Normalise(Path(m, text)).Some?
      && uriLen == |Normalise(Path(m, text)).value| && CString(uri) == CString(Normalise(Path(m, text)).value)
      && CopiedString(exten) == CopiedString(Extension(FinalSegment(PercentDecode(Path(m, text)).value)))
  {
    if m.uri.complex {
      var len := if m.uri.args != NULL then m.uri.args - 1 - m.uri.start else m.uri.end - m.uri.start;
      assert text[m.uri.start..][..len] == Path(m, text);
      made, uri, uriLen, exten := CopyComplex(heap, text[m.uri.start..], len);
    } else {
      made, uri, uriLen, exten := CopyPlain(heap, text, m.uri.start, PathEnd(m), m.uri.ext);
    }
  }

  /** Every string of a finished line; both routes deliver what the reference delivers. */
  method CopyStrings(heap: Heap, text: bytes, m: L.Marks)
    returns (made: Made, unparsed: bytes, uri: bytes, uriLen: nat, exten: Option<bytes>)
    requires PathReady(m, text)
    modifies heap`failures
    ensures heap.failures == old(heap.failures) + (if made == NoMemory then 1 else 0)
    ensures made == PathRefused ==> LineStrings(m, text).None?
    ensures made == Made ==>
      LineStrings(m, text) == Some((CString(unparsed), uriLen, CString(uri), CopiedString(exten)))
    ensures made == Made ==>
      && CString(unparsed) == CString(text[m.uri.start..m.uri.end])
      && var n := Normalise(text[m.uri.start..if m.uri.args != NULL then m.uri.args - 1 else m.uri.end]);
      && n.Some? && uriLen == |n.value| && CString(uri) == CString(n.value)
  {
    hide CString, Normalise, Extension, FinalSegment, PercentDecode;
    made, uri, uriLen, exten := NoMemory, [], 0, None;
    var ok;
    assert text[m.uri.start..][..m.uri.end - m.uri.start] == Span(text, m.uri.start, m.uri.end);
    ok, unparsed := Duplicate(heap, text[m.uri.start..], m.uri.end - m.uri.start);
    if ok {
      made, uri, uriLen, exten := CopyUri(heap, text, m);
    }
  }
}
