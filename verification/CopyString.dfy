/** The bounded string copy that turns every parsed span of the buffer into a string of its own. */
module CopyString {
  import opened Bytes

  /** The contents of dst after n > 0 bytes of room were offered to the copy of src. */
  function Copied(dst: bytes, src: bytes, n: nat): bytes
    requires 0 < n <= |dst| && n - 1 <= |src|
  {
    var c := CString(src[..n - 1]);
    c + [NUL] + dst[|c| + 1..]
  }

  /** Copies src up to its first NUL, at most n - 1 bytes of it, and terminates the copy. */
  method CopyStringN(dst: array<byte>, src: bytes, n: nat) returns (end: nat)
    requires n <= dst.Length && n <= |src| + 1
    modifies dst
    ensures n == 0 ==> end == 0 && dst[..] == old(dst[..])
    ensures n > 0 ==> end == |CString(src[..n - 1])| && dst[end] == NUL
    ensures n > 0 ==> dst[..] == Copied(old(dst[..]), src, n)
    ensures n > 0 ==> dst[..end] == src[..end] && NUL !in src[..end] && (end < n - 1 ==> src[end] == NUL)
    ensures forall k | end < k < dst.Length :: dst[k] == old(dst[k])
  {
    if n == 0 {
      return 0;
    }
    end := 0;
    var left := n - 1;
    while left > 0
      invariant 0 <= left && end + left == n - 1
      invariant forall k :: 0 <= k < end ==> dst[k] == src[k] && src[k] != NUL
      invariant forall k :: end <= k < dst.Length ==> dst[k] == old(dst[k])
    {
      dst[end] := src[end];
      if dst[end] == NUL {
        CopiedAt(old(dst[..]), src, n, end, dst[..]);
        return;
      }
      end := end + 1;
      left := left - 1;
    }
    dst[end] := NUL;
    CopiedAt(old(dst[..]), src, n, end, dst[..]);
  }

  lemma CopiedAt(was: bytes, src: bytes, n: nat, end: nat, now: bytes)
    requires end < n <= |was| == |now| && n - 1 <= |src|
    requires end < n - 1 ==> src[end] == NUL
    requires forall k :: 0 <= k < end ==> now[k] == src[k] && src[k] != NUL
    requires now[end] == NUL
    requires forall k :: end < k < |now| ==> now[k] == was[k]
    ensures end == |CString(src[..n - 1])| && now == Copied(was, src, n)
  {
    CStringAt(src[..n - 1], end);
  }

  lemma {:induction false} CStringAt(s: bytes, k: nat)
    requires k <= |s| && NUL !in s[..k] && (k < |s| ==> s[k] == NUL)
    ensures CString(s) == s[..k]
  {
    if k > 0 {
      assert s[0] == s[..k][0];
      assert s[1..][..k - 1] == s[..k][1..];
      CStringAt(s[1..], k - 1);
      assert s[..k] == [s[0]] + s[1..][..k - 1];
    }
  }

  /** The copy always agrees with what was copied as a C string. */
  lemma CopyIsCString(dst: bytes, src: bytes, n: nat)
    requires 0 < n <= |dst| && n - 1 <= |src|
    ensures CString(Copied(dst, src, n)) == CString(src[..n - 1])
  {
    var c := CString(src[..n - 1]);
    var r := Copied(dst, src, n);
    assert r[..|c|] == c;
    CStringAt(r, |c|);
  }

  /** Memory that holds v followed by a NUL holds v's C string. */
  lemma {:induction false} TerminatedCString(b: bytes, v: bytes)
    requires |v| < |b| && b[..|v|] == v && b[|v|] == NUL
    ensures CString(b) == CString(v)
  {
    var c := CString(v);
    assert b[..|c|] == v[..|c|] == c;
    assert b[|c|] == NUL by {
      if |c| < |v| { assert b[|c|] == b[..|v|][|c|]; }
    }
    CStringAt(b, |c|);
  }

  /**
   The copy delivers every byte of the path, whatever the memory held before, exactly when no
   NUL occurs before the path's last byte.
   */
  lemma CopyIsWhole(path: bytes)
    requires path != []
    ensures (forall dst: bytes | |dst| == |path| + 1 :: Copied(dst, path, |path| + 1)[..|path|] == path)
            <==> NUL !in path[..|path| - 1]
  {
    var n := |path|;
    assert path[..n] == path;
    var c := CString(path);
    if NUL in path[..n - 1] {
      var j :| 0 <= j < n - 1 && path[..n - 1][j] == NUL;
      CStringStops(path, j);
      var dst := seq(n + 1, i requires 0 <= i < n + 1 => if i < n && path[i] == NUL then 1 as byte else NUL);
      assert Copied(dst, path, n + 1)[|c| + 1] == dst[|c| + 1] != path[|c| + 1];
    } else {
      CStringReaches(path, n - 1);
      forall dst: bytes | |dst| == n + 1
        ensures Copied(dst, path, n + 1)[..n] == path
      {
      }
    }
  }

  lemma {:induction false} CStringStops(s: bytes, j: nat)
    requires j < |s| && s[j] == NUL
    ensures |CString(s)| <= j
  {
    if j > 0 {
      CStringStops(s[1..], j - 1);
    }
  }

  lemma {:induction false} CStringReaches(s: bytes, k: nat)
    requires k <= |s| && NUL !in s[..k]
    ensures |CString(s)| >= k
  {
    if k > 0 {
      assert s[0] in s[..k] && s[1..][..k - 1] == s[..k][1..];
      CStringReaches(s[1..], k - 1);
    }
  }
}
