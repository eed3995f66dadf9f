/** The byte classes and words of the server, written out as text. */
module ByteTables {
  import opened Bytes
  import L = RequestLine
  import H = HeaderLine
  import HeaderIndex
  import ResponseHeader
  import RequestHead
  import Pool
  import PoolArray
  import PoolList
  import G = RequestLineGrammar

  const UPPER_CASE := "ABCDEFGHIJKLMNOPQRSTUVWXYZ"
  const LOWER_CASE := "abcdefghijklmnopqrstuvwxyz"
  const DIGITS := "0123456789"

  /** b is one of the characters of table. */
  predicate In(b: byte, table: string) {
    exists i :: 0 <= i < |table| && table[i] as int == b
  }

  lemma Listed(b: byte, table: string, i: nat)
    requires i < |table| && table[i] as int == b
    ensures In(b, table)
  {
  }

  lemma ControlCodes()
    ensures NUL == '\0' as int && LF == '\n' as int && CR == '\r' as int && SP == ' ' as int
    ensures PERCENT == '%' as int && DASH == '-' as int && DOT == '.' as int && SLASH == '/' as int
    ensures COLON == ':' as int && QUESTION == '?' as int && UNDERSCORE == '_' as int && TILDE == '~' as int
    ensures ZERO == '0' as int && NINE == '9' as int
  {
  }

  /** The characters of table are n codes in a row. */
  predicate IsRun(table: string, first: nat, n: nat) {
    |table| == n && forall i | 0 <= i < n :: table[i] as int == first + i
  }

  lemma InRun(b: byte, table: string, first: nat, n: nat)
    requires IsRun(table, first, n)
    ensures In(b, table) <==> first <= b < first + n
  {
    if first <= b < first + n {
      Listed(b, table, b - first);
    }
  }

  lemma UpperRun()
    ensures IsRun(UPPER_CASE, 65, 26)
  {
  }

  lemma LowerRun()
    ensures IsRun(LOWER_CASE, 97, 26)
  {
  }

  lemma DigitRun()
    ensures IsRun(DIGITS, 48, 10)
  {
  }

  lemma Letters(b: byte)
    ensures IsUpper(b) <==> In(b, UPPER_CASE)
    ensures IsLower(b) <==> In(b, LOWER_CASE)
    ensures IsAlpha(b) <==> In(b, UPPER_CASE) || In(b, LOWER_CASE)
    ensures IsDigit(b) <==> In(b, DIGITS)
  {
    hide IsRun, In;
    UpperRun();
    InRun(b, UPPER_CASE, 65, 26);
    LowerRun();
    InRun(b, LOWER_CASE, 97, 26);
    DigitRun();
    InRun(b, DIGITS, 48, 10);
  }

  /** The bytes of a host name. */
  lemma HostBytes(b: byte)
    ensures L.IsHostByte(b) <==> In(b, UPPER_CASE) || In(b, LOWER_CASE) || In(b, DIGITS) || In(b, ".-")
  {
    Letters(b);
    if b == DOT { Listed(b, ".-", 0); }
    if b == DASH { Listed(b, ".-", 1); }
  }

  /** The bytes of a header name. */
  lemma NameBytes(b: byte)
    ensures H.IsNameByte(b) <==> In(b, UPPER_CASE) || In(b, LOWER_CASE) || In(b, DIGITS) || In(b, "-_~.")
  {
    Letters(b);
    if b == DASH { Listed(b, "-_~.", 0); }
    if b == UNDERSCORE { Listed(b, "-_~.", 1); }
    if b == TILDE { Listed(b, "-_~.", 2); }
    if b == DOT { Listed(b, "-_~.", 3); }
  }

  /** Two bytes are the two cases of one letter. */
  predicate TwoCases(a: byte, b: byte) {
    exists i :: 0 <= i < |UPPER_CASE| == |LOWER_CASE| && a == UPPER_CASE[i] as int && b == LOWER_CASE[i] as int
  }

  /** Names match exactly when every byte is the same or the other case of the same letter. */
  lemma NamesMatch(a: bytes, b: bytes)
    ensures HeaderIndex.SameName(a, b)
            <==> |a| == |b| && forall i | 0 <= i < |a| :: a[i] == b[i] || TwoCases(a[i], b[i]) || TwoCases(b[i], a[i])
  {
    if |a| == |b| {
      forall i | 0 <= i < |a|
        ensures HeaderIndex.Lower(a[i]) == HeaderIndex.Lower(b[i])
                <==> a[i] == b[i] || TwoCases(a[i], b[i]) || TwoCases(b[i], a[i])
      {
        LetterMatches(a[i], b[i]);
      }
    }
  }

  lemma CasesOf(a: byte, b: byte)
    ensures TwoCases(a, b) <==> 65 <= a < 91 && b == a + 32
  {
    UpperRun();
    LowerRun();
    hide UPPER_CASE, LOWER_CASE;
    if 65 <= a < 91 && b == a + 32 {
      var i := a - 65;
      assert UPPER_CASE[i] as int == a && LOWER_CASE[i] as int == b;
    }
  }

  lemma LetterMatches(a: byte, b: byte)
    ensures HeaderIndex.Lower(a) == HeaderIndex.Lower(b) <==> a == b || TwoCases(a, b) || TwoCases(b, a)
  {
    hide TwoCases;
    CasesOf(a, b);
    CasesOf(b, a);
  }

  /** The header names that have a slot. */
  lemma SlotNames()
    ensures |HeaderIndex.KNOWN| == 9
    ensures HeaderIndex.KNOWN[0] == Ascii("Host")
    ensures HeaderIndex.KNOWN[1] == Ascii("Connection")
    ensures HeaderIndex.KNOWN[2] == Ascii("If-Modified-Since")
    ensures HeaderIndex.KNOWN[3] == Ascii("User-Agent")
    ensures HeaderIndex.KNOWN[4] == Ascii("Referer")
    ensures HeaderIndex.KNOWN[5] == Ascii("Content-Length")
    ensures HeaderIndex.KNOWN[6] == Ascii("Range")
    ensures HeaderIndex.KNOWN[7] == Ascii("Authorization")
    ensures HeaderIndex.KNOWN[8] == Ascii("Keep-Alive")
  {
    FirstSlotNames();
    MiddleSlotNames();
    LastSlotNames();
  }

  lemma FirstSlotNames()
    ensures HeaderIndex.KNOWN[0] == Ascii("Host")
    ensures HeaderIndex.KNOWN[1] == Ascii("Connection")
    ensures HeaderIndex.KNOWN[2] == Ascii("If-Modified-Since")
  {
  }

  lemma MiddleSlotNames()
    ensures HeaderIndex.KNOWN[3] == Ascii("User-Agent")
    ensures HeaderIndex.KNOWN[4] == Ascii("Referer")
    ensures HeaderIndex.KNOWN[5] == Ascii("Content-Length")
  {
  }

  lemma LastSlotNames()
    ensures HeaderIndex.KNOWN[6] == Ascii("Range")
    ensures HeaderIndex.KNOWN[7] == Ascii("Authorization")
    ensures HeaderIndex.KNOWN[8] == Ascii("Keep-Alive")
  {
  }

  /** The sizes that are written into the code. */
  lemma Sizes()
    ensures RequestHead.BUDGET == 4096 && ResponseHeader.BUFFER_SIZE == 8192
    ensures Pool.MAX_ALLOC_FROM_POOL == 1024 * 1024 && Pool.HEADER == 4 * 8 && Pool.LARGE_NODE == 2 * 8
    ensures PoolArray.ARRAY == 8 + 8 + 4 + 4 + 8 && PoolList.LIST_NODE == 8 + 4 + 4 + 8
    ensures L.GET == 1 && L.HEAD == 2 && L.POST == 3 && L.UINT == 0x1_0000_0000
  {
  }

  /** The words the printer writes. */
  lemma Words()
    ensures HeaderIndex.COOKIE == Ascii("Cookie")
    ensures ResponseHeader.SERVER == ResponseHeader.Entry(Ascii("Server"), Ascii("ehttpd/0.0.1"))
    ensures ResponseHeader.CONTENT_LENGTH == Ascii("Content-Length") && ResponseHeader.HTTP_1_1 == Ascii("HTTP/1.1 ")
  {
  }

  /** A version number is the value of its digits, as a uint. */
  lemma {:induction false} VersionNumber(s: bytes, a: nat, b: nat)
    requires a <= b <= |s| && forall j | a <= j < b :: IsDigit(s[j])
    ensures ResponseHeader.Value(s[a..b]) >= 0 && G.Number(s, a, b) == ResponseHeader.Value(s[a..b]) % 0x1_0000_0000
    decreases b
  {
    if a < b {
      VersionNumber(s, a, b - 1);
      assert s[a..b][..b - a - 1] == s[a..b - 1] && s[a..b][b - a - 1] == s[b - 1];
      RemainderStep(ResponseHeader.Value(s[a..b - 1]), s[b - 1] - ZERO);
    }
  }

  lemma RemainderStep(x: nat, d: nat)
    ensures (x % L.UINT * 10 + d) % L.UINT == (x * 10 + d) % L.UINT
  {
    var q := x / L.UINT;
    assert x * 10 + d == x % L.UINT * 10 + d + 10 * q * L.UINT;
    WholeTurns(x % L.UINT * 10 + d, 10 * q);
  }

  lemma {:induction false} WholeTurns(x: nat, n: nat)
    ensures (x + n * L.UINT) % L.UINT == x % L.UINT
  {
    if n > 0 {
      WholeTurns(x, n - 1);
      assert x + n * L.UINT == x + (n - 1) * L.UINT + L.UINT;
    }
  }
}
