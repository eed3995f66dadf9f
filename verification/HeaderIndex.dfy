/** The index over a request's header list: one slot for each known name, and every cookie. */
module HeaderIndex {
  import opened Bytes

  function Lower(b: byte): byte { if IsUpper(b) then b + 32 else b }

  /** strcasecmp(a, b) == 0, for strings without NUL. */
  predicate SameName(a: bytes, b: bytes) {
    |a| == |b| && forall i | 0 <= i < |a| :: Lower(a[i]) == Lower(b[i])
  }

  const COOKIE: bytes := [67, 111, 111, 107, 105, 101]

  /** Host, Connection, If-Modified-Since, User-Agent, Referer, Content-Length, Range, Authorization, Keep-Alive */
  const KNOWN: seq<bytes> := [
    [72, 111, 115, 116],
    [67, 111, 110, 110, 101, 99, 116, 105, 111, 110],
    [73, 102, 45, 77, 111, 100, 105, 102, 105, 101, 100, 45, 83, 105, 110, 99, 101],
    [85, 115, 101, 114, 45, 65, 103, 101, 110, 116],
    [82, 101, 102, 101, 114, 101, 114],
    [67, 111, 110, 116, 101, 110, 116, 45, 76, 101, 110, 103, 116, 104],
    [82, 97, 110, 103, 101],
    [65, 117, 116, 104, 111, 114, 105, 122, 97, 116, 105, 111, 110],
    [75, 101, 101, 112, 45, 65, 108, 105, 118, 101]]

  /** r is the last header with this name, or None when no header has it. */
  ghost predicate IsLast(names: seq<bytes>, name: bytes, r: Option<nat>) {
    match r
    case None => forall j | 0 <= j < |names| :: !SameName(name, names[j])
    case Some(i) =>
      i < |names| && SameName(name, names[i]) && forall j | i < j < |names| :: !SameName(name, names[j])
  }

  /** The cookie headers are exactly the listed ones, in list order. */
  ghost predicate AreCookies(names: seq<bytes>, cookies: seq<nat>) {
    && (forall c | 0 <= c < |cookies| :: cookies[c] < |names| && SameName(COOKIE, names[cookies[c]]))
    && (forall c, d | 0 <= c < d < |cookies| :: cookies[c] < cookies[d])
    && (forall j | 0 <= j < |names| && SameName(COOKIE, names[j]) :: j in cookies)
  }

  /** No name is spelled like two known names, or like a known name and Cookie. */
  lemma KnownAreDistinct(key: bytes, i: nat, j: nat)
    requires i < j < |KNOWN| && SameName(KNOWN[i], key)
    ensures !SameName(KNOWN[j], key)
  {
    if |KNOWN[i]| == |KNOWN[j]| {
      assert Lower(KNOWN[i][0]) == Lower(key[0]);
      assert Lower(KNOWN[i][0]) != Lower(KNOWN[j][0]);
    }
  }

  /** The slots and the cookie list agree with the list of header names. */
  ghost predicate Agrees(slots: seq<Option<nat>>, cookies: seq<nat>, names: seq<bytes>) {
    && |slots| == |KNOWN|
    && (forall i | 0 <= i < |KNOWN| :: IsLast(names, KNOWN[i], slots[i]))
    && AreCookies(names, cookies)
  }

  lemma CookieIsUnknown(key: bytes, i: nat)
    requires i < |KNOWN| && SameName(COOKIE, key)
    ensures !SameName(KNOWN[i], key)
  {
    if |KNOWN[i]| == |COOKIE| {
      assert Lower(COOKIE[0]) == Lower(key[0]);
      assert Lower(COOKIE[0]) != Lower(KNOWN[i][0]);
    }
  }

  /** A Cookie header goes to the cookie list and to no slot. */
  lemma AgreesCookie(slots: seq<Option<nat>>, cookies: seq<nat>, names: seq<bytes>, key: bytes)
    requires Agrees(slots, cookies, names) && SameName(COOKIE, key)
    ensures Agrees(slots, cookies + [|names|], names + [key])
  {
    hide SameName;
    assert |names| in cookies + [|names|];
    forall i | 0 <= i < |KNOWN|
      ensures IsLast(names + [key], KNOWN[i], slots[i])
    {
      CookieIsUnknown(key, i);
      assert IsLast(names, KNOWN[i], slots[i]);
    }
  }

  /** Any other header goes to the slot of its name, if that is a known name. */
  lemma AgreesSlot(slots: seq<Option<nat>>, slots': seq<Option<nat>>, cookies: seq<nat>, names: seq<bytes>,
                   key: bytes, i: nat)
    requires Agrees(slots, cookies, names) && !SameName(COOKIE, key) && i <= |KNOWN|
    requires forall j | 0 <= j < i :: !SameName(KNOWN[j], key)
    requires if i < |KNOWN| then SameName(KNOWN[i], key) && slots' == slots[i := Some(|names|)] else slots' == slots
    ensures Agrees(slots', cookies, names + [key])
  {
    hide SameName;
    forall j | 0 <= j < |KNOWN|
      ensures IsLast(names + [key], KNOWN[j], slots'[j])
    {
      assert IsLast(names, KNOWN[j], slots[j]);
      if i < j {
        KnownAreDistinct(key, i, j);
      }
    }
  }

  class Index {
    var slots: seq<Option<nat>>
    var cookies: seq<nat>

    constructor ()
      ensures Indexes([])
    {
      slots := seq(|KNOWN|, _ => None);
      cookies := [];
    }

    /** The index agrees with the list of header names. */
    ghost predicate Indexes(names: seq<bytes>)
      reads this
    {
      Agrees(slots, cookies, names)
    }

    /** Indexes the header that has just been pushed as number h of the list. */
    method Record(key: bytes, h: nat, ghost names: seq<bytes>)
      requires Indexes(names) && h == |names|
      modifies this
      ensures Indexes(names + [key])
    {
      if |key| == |COOKIE| && SameName(COOKIE, key) {
        AgreesCookie(slots, cookies, names, key);
        cookies := cookies + [h];
      } else {
        var i := 0;
        while i < |KNOWN|
          invariant 0 <= i <= |KNOWN| && slots == old(slots) && cookies == old(cookies)
          invariant forall j | 0 <= j < i :: !SameName(KNOWN[j], key)
        {
          if |KNOWN[i]| == |key| && SameName(KNOWN[i], key) {
            slots := slots[i := Some(h)];
            break;
          }
          i := i + 1;
        }
        AgreesSlot(old(slots), slots, cookies, names, key, i);
      }
    }
  }
}
