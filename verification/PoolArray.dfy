/**
 The growable array: it grows in place while it is the last allocation of the pool's head block
 and there is room, and moves to twice the space otherwise.
 */
module PoolArray {
  import opened Bytes
  import opened Pool

  /** sizeof(ehd_array_t). */
  const ARRAY: nat := 32

  lemma Scaled(i: nat, n: nat, size: nat)
    requires i <= n
    ensures i * size <= n * size
  {
  }

  lemma OneMore(n: nat, size: nat)
    ensures (n + 1) * size == n * size + size
  {
  }

  /** Elements of size bytes laid out one after the other: element i ends where the next one starts. */
  lemma ElementFits(i: nat, n: nat, size: nat)
    requires i < n
    ensures i * size + size <= n * size
  {
    assert (i + 1) * size <= n * size;
  }

  /** Element i of the ones that start at off. */
  function Element(m: bytes, off: nat, size: nat, i: nat): (e: bytes)
    requires off + i * size + size <= |m|
  {
    m[off + i * size..off + i * size + size]
  }

  /** The n elements that start at off. */
  function Elements(m: bytes, off: nat, size: nat, n: nat): (s: seq<bytes>)
    requires off + n * size <= |m|
    ensures |s| == n
    ensures forall i: nat | i < n :: off + i * size + size <= |m| && s[i] == Element(m, off, size, i)
  {
    if n == 0 then [] else
      Elements(m, off, size, n - 1) + [m[off + (n - 1) * size..off + (n - 1) * size + size]]
  }

  /** The elements depend on their own bytes only. */
  lemma {:induction false} ElementsOfSame(m: bytes, off: nat, m': bytes, off': nat, size: nat, n: nat)
    requires off + n * size <= |m| && off' + n * size <= |m'|
    requires m[off..off + n * size] == m'[off'..off' + n * size]
    ensures Elements(m, off, size, n) == Elements(m', off', size, n)
  {
    if n > 0 {
      var k := (n - 1) * size;
      assert n * size == k + size;
      assert m[off..off + k] == m[off..off + n * size][..k];
      assert m'[off'..off' + k] == m'[off'..off' + n * size][..k];
      ElementsOfSame(m, off, m', off', size, n - 1);
      assert m[off + k..off + k + size] == m[off..off + n * size][k..];
      assert m'[off' + k..off' + k + size] == m'[off'..off' + n * size][k..];
    }
  }

  /** The n elements at an address. */
  function Held(mem: Memory, at: Addr, size: nat, n: nat): (s: seq<bytes>) {
    if at.chunk in mem && at.off + n * size <= |mem[at.chunk]| then Elements(mem[at.chunk], at.off, size, n) else []
  }

  /** Where element i is. */
  function Place(at: Addr, size: nat, i: nat): Addr {
    Addr(at.chunk, at.off + i * size)
  }

  lemma HeldLength(mem: Memory, at: Addr, size: nat, n: nat)
    requires at.chunk in mem && at.off + n * size <= |mem[at.chunk]|
    ensures |Held(mem, at, size, n)| == n
  {
  }

  /** Element i of what is held is the bytes at its place. */
  lemma HeldAt(mem: Memory, at: Addr, size: nat, n: nat, i: nat)
    requires at.chunk in mem && at.off + n * size <= |mem[at.chunk]| && i < n
    ensures |Held(mem, at, size, n)| == n && Place(at, size, i).off + size <= |mem[at.chunk]|
    ensures Held(mem, at, size, n)[i] == mem[at.chunk][Place(at, size, i).off..Place(at, size, i).off + size]
  {
    hide Elements;
    ElementFits(i, n, size);
    var m := mem[at.chunk];
    assert Elements(m, at.off, size, n)[i] == Element(m, at.off, size, i);
  }

  lemma NothingHeld(mem: Memory, at: Addr, size: nat)
    ensures Held(mem, at, size, 0) == []
  {
  }

  /** What is held in an allocation that is preserved stays. */
  lemma HeldStays(mem: Memory, mem': Memory, at: Addr, size: nat, n: nat, len: nat, live: set<Region>)
    requires Preserves(mem, mem', live) && Region(at.chunk, at.off, len) in live
    requires at.chunk in mem && at.off + len <= |mem[at.chunk]| && n * size <= len
    ensures Held(mem', at, size, n) == Held(mem, at, size, n)
  {
    assert mem'[at.chunk][at.off..at.off + len] == mem[at.chunk][at.off..at.off + len];
    SameStart(mem[at.chunk], at.off, mem'[at.chunk], at.off, size, n, len);
  }

  lemma SameStart(m: bytes, off: nat, m': bytes, off': nat, size: nat, n: nat, len: nat)
    requires n * size <= len && off + len <= |m| && off' + len <= |m'|
    requires m[off..off + len] == m'[off'..off' + len]
    ensures Elements(m, off, size, n) == Elements(m', off', size, n)
  {
    assert m[off..off + n * size] == m[off..off + len][..n * size];
    assert m'[off'..off' + n * size] == m'[off'..off' + len][..n * size];
    ElementsOfSame(m, off, m', off', size, n);
  }

  /** A copy holds the same elements. */
  lemma HeldByCopy(mem: Memory, mem': Memory, at: Addr, at': Addr, size: nat, n: nat)
    requires at.chunk in mem && at.off + n * size <= |mem[at.chunk]|
    requires at'.chunk in mem' && at'.off + n * size <= |mem'[at'.chunk]|
    requires mem'[at'.chunk][at'.off..at'.off + n * size] == mem[at.chunk][at.off..at.off + n * size]
    ensures Held(mem', at', size, n) == Held(mem, at, size, n)
  {
    ElementsOfSame(mem[at.chunk], at.off, mem'[at'.chunk], at'.off, size, n);
  }

  /** An element written behind the others is appended. */
  lemma HeldAppend(mem: Memory, at: Addr, size: nat, n: nat, e: bytes)
    requires at.chunk in mem && at.off + n * size + size <= |mem[at.chunk]| && |e| == size
    ensures Held(mem[at.chunk := Written(mem[at.chunk], at.off + n * size, e)], at, size, n + 1)
         == Held(mem, at, size, n) + [e]
  {
    var m, m' := mem[at.chunk], Written(mem[at.chunk], at.off + n * size, e);
    assert (n + 1) * size == n * size + size;
    assert m'[at.off..at.off + n * size] == m[at.off..at.off + n * size];
    ElementsOfSame(m, at.off, m', at.off, size, n);
  }

  /** The last element is replaced, and no other. */
  lemma HeldReplaced(mem: Memory, at: Addr, size: nat, n: nat, e: bytes)
    requires 0 < n && at.chunk in mem && at.off + (n - 1) * size + size <= |mem[at.chunk]| && |e| == size
    ensures Held(mem, at, size, n) != []
    ensures Held(mem[at.chunk := Written(mem[at.chunk], at.off + (n - 1) * size, e)], at, size, n)
         == Held(mem, at, size, n)[..|Held(mem, at, size, n)| - 1] + [e]
  {
    hide Held;
    HeldAppend(mem, at, size, n - 1, e);
    HeldStart(mem, at, size, n - 1);
  }

  /** The first elements of what is held. */
  lemma HeldStart(mem: Memory, at: Addr, size: nat, n: nat)
    requires at.chunk in mem && at.off + n * size + size <= |mem[at.chunk]|
    ensures |Held(mem, at, size, n + 1)| == n + 1 && Held(mem, at, size, n + 1)[..n] == Held(mem, at, size, n)
  {
    assert (n + 1) * size == n * size + size;
  }

  class Array {
    const pool: Pool
    /** Where the array's own header lies, and where its elements start. */
    const self: Addr
    const size: nat
    var data: Addr
    var nblock: nat
    var ndata: nat
    /** The count asked for at creation, and the number of elements copied since. */
    ghost const first: nat
    ghost var copied: nat

    function Self(): Region { Region(self.chunk, self.off, ARRAY) }

    function Space(): Region
      reads this
    {
      Region(data.chunk, data.off, nblock * size)
    }

    ghost predicate Valid()
      reads this, pool
    {
      && pool.Valid() && pool.TakesNodes() && Self() in pool.live && Space() in pool.live && Self() != Space()
      && data.chunk in pool.mem && data.off + nblock * size <= |pool.mem[data.chunk]|
      && 0 < size && 0 < first && ndata <= nblock
      && (nblock <= first || nblock <= 2 * ndata) && copied + first <= nblock
    }

    /** What the array holds. */
    function Contents(): seq<bytes>
      reads this, pool
    {
      Held(pool.mem, data, size, ndata)
    }

    lemma InSpace()
      requires Valid()
      ensures ndata * size <= nblock * size
    {
      hide Pool.Valid;
      Scaled(ndata, nblock, size);
    }

    constructor (pool: Pool, self: Addr, data: Addr, n: nat, size: nat)
      ensures this.pool == pool && this.self == self && this.data == data && this.size == size
      ensures nblock == n && first == n && ndata == 0 && copied == 0
    {
      this.pool, this.self, this.data, this.size := pool, self, data, size;
      nblock, first, ndata, copied := n, n, 0, 0;
    }

    /** ehd_array_create. Only an array with room for elements of some size can be used. */
    static method Create(pool: Pool, n: nat, size: nat) returns (a: Array?)
      requires pool.Valid() && pool.TakesNodes()
      modifies pool
      ensures pool.Valid() && pool.TakesNodes() && Preserves(old(pool.mem), pool.mem, old(pool.live))
      ensures pool.refused == old(pool.refused) + (if a == null then 1 else 0)
      ensures a == null ==> old(pool.live) <= pool.live
      ensures a != null ==>
        && fresh(a) && a.pool == pool && a.size == size && a.nblock == n == a.first && a.ndata == 0 && a.copied == 0
        && pool.live == old(pool.live) + {a.Self()} + Allocation(a.data.chunk, a.data.off, n * size)
        && a.Self() !in old(pool.live) && old(pool.live) !! Allocation(a.data.chunk, a.data.off, n * size)
        && (a.Valid() <==> 0 < n && 0 < size) && (a.Valid() ==> a.Contents() == [])
    {
      hide Pool.Valid;
      a := null;
      var self := pool.Palloc(ARRAY);
      if self.None? {
        return;
      }
      var data := pool.Palloc(n * size);
      if data.None? {
        return;
      }
      a := new Array(pool, self.value, data.value, n, size);
      if 0 < n && 0 < size {
        assert 0 < n * size;
        pool.Holds(a.Space());
      }
    }

    /** The space is the last allocation of the head block. */
    ghost predicate Last()
      reads this, pool
    {
      && pool.chain != [] && data.chunk == pool.chain[0] && data.chunk in pool.block
      && data.off + size * nblock == pool.block[data.chunk].last
    }

    /** A full array grows in place when it ends where the head block's free part begins and one more element fits. */
    lemma GrowsInPlaceIs()
      requires Valid()
      ensures pool.chain != [] && pool.chain[0] in pool.block
      ensures var head := pool.block[pool.chain[0]];
        && (Last() <==> data.chunk == pool.chain[0] && data.off + nblock * size == head.last)
        && (GrowsInPlace() <==> Last() && head.end - head.last >= size)
        && HeadLast() == head.last
    {
      pool.HeadIsThere();
    }

    /** The head block's last. */
    ghost function HeadLast(): int
      reads pool
    {
      if pool.chain != [] && pool.chain[0] in pool.block then pool.block[pool.chain[0]].last else -1
    }

    ghost predicate GrowsInPlace()
      reads this, pool
    {
      Last() && HasRoom(pool.block[data.chunk], size)
    }

    /** `p->last += array->size` and `nblock++`. */
    method GrowInPlace()
      requires Valid() && ndata == nblock && data.chunk == pool.chain[0]
      requires data.off + size * ndata == pool.block[data.chunk].last && HasRoom(pool.block[data.chunk], size)
      modifies this`nblock, pool`block, pool`live
      ensures Valid() && nblock == old(nblock) + 1 && Contents() == old(Contents())
      ensures pool.live == old(pool.live) - {old(Space())} + {Space()}
      ensures Space() !in old(pool.live) - {old(Space())}
    {
      hide Held, Elements, Pool.Valid, HasRoom;
      OneMore(nblock, size);
      pool.GrowLast(Region(data.chunk, data.off, nblock * size), size);
      pool.Holds(Region(data.chunk, data.off, nblock * size + size));
      nblock := nblock + 1;
    }

    /** A copy of the elements in twice the space. */
    method Move() returns (ok: bool)
      requires Valid() && ndata == nblock
      modifies this`nblock, this`data, this`copied, pool
      ensures pool.Valid() && Valid() && Contents() == old(Contents())
      ensures Preserves(old(pool.mem), pool.mem, old(pool.live))
      ensures pool.refused == old(pool.refused) + (if ok then 0 else 1)
      ensures !ok ==> nblock == old(nblock) && data == old(data) && copied == old(copied) && pool.live == old(pool.live)
      ensures ok ==>
        && nblock == 2 * old(nblock) && copied == old(copied) + old(nblock)
        && pool.live == old(pool.live) + {Space()} && Space() !in old(pool.live)
    {
      hide Held, Elements, Pool.Valid;
      assert (2 * nblock) * size == 2 * size * nblock && nblock * size > 0;
      InSpace();
      var place := pool.Palloc(2 * size * nblock);
      if place.None? {
        HeldStays(old(pool.mem), pool.mem, data, size, ndata, nblock * size, pool.live);
        return false;
      }
      var a := place.value;
      var text := pool.mem[data.chunk][data.off..data.off + nblock * size];
      pool.Store(Region(a.chunk, a.off, 2 * size * nblock), 0, text);
      HeldByCopy(old(pool.mem), pool.mem, data, a, size, nblock);
      data, copied, nblock := a, copied + nblock, nblock * 2;
      return true;
    }

    /** Room for one more element, where there is none: in place, or by moving. */
    method MakeRoom() returns (ok: bool)
      requires Valid() && ndata == nblock
      modifies this`nblock, this`data, this`copied, pool
      ensures Valid() && Contents() == old(Contents()) && Preserves(old(pool.mem), pool.mem, old(pool.live))
      ensures pool.refused == old(pool.refused) + (if ok then 0 else 1)
      ensures ok ==> ndata < nblock
      ensures old(pool.live) - {old(Space())} <= pool.live
      ensures Space() !in old(pool.live) - {old(Space())}
      ensures old(GrowsInPlace()) ==> ok && data == old(data) && nblock == old(nblock) + 1
      ensures !old(GrowsInPlace()) && ok ==> nblock == 2 * old(nblock)
    {
      hide Held, Elements, Pool.Valid;
      pool.HeadIsThere();
      var head := pool.block[pool.chain[0]];
      if data.chunk == pool.chain[0] && data.off + size * ndata == head.last && head.end - head.last >= size {
        GrowInPlace();
        ok := true;
      } else {
        ok := Move();
      }
    }

    /** ehd_array_push: where the next element goes. */
    method Push() returns (p: Option<Addr>)
      requires Valid()
      modifies this`nblock, this`data, this`copied, this`ndata, pool
      ensures Valid() && Preserves(old(pool.mem), pool.mem, old(pool.live))
      ensures pool.refused == old(pool.refused) + (if p.None? then 1 else 0)
      ensures p.None? ==> ndata == old(ndata) && Contents() == old(Contents())
      ensures p.Some? ==>
        && ndata == old(ndata) + 1 && old(Contents()) <= Contents() && |Contents()| == ndata
        && p == Some(Place(data, size, old(ndata)))
      ensures old(pool.live) - {old(Space())} <= pool.live
      ensures Space() !in old(pool.live) - {old(Space())}
      ensures old(ndata < nblock) ==> p.Some? && data == old(data) && nblock == old(nblock)
      ensures old(ndata == nblock && GrowsInPlace()) ==> p.Some? && data == old(data) && nblock == old(nblock) + 1
      ensures old(ndata == nblock && !GrowsInPlace()) && p.Some? ==> nblock == 2 * old(nblock)
    {
      hide Held, Elements, Preserves, Pool.Valid, Pool.TakesNodes;
      PreservesItself(pool.mem, pool.live);
      if ndata == nblock {
        var ok := MakeRoom();
        if !ok {
          return None;
        }
      }
      ElementFits(ndata, nblock, size);
      HeldStart(pool.mem, data, size, ndata);
      p := Some(Place(data, size, ndata));
      ndata := ndata + 1;
    }

    /** The caller fills the place that the last push gave it. */
    method Fill(e: bytes)
      requires Valid() && |e| == size && 0 < ndata
      modifies pool`mem
      ensures Valid() && Preserves(old(pool.mem), pool.mem, pool.live - {Space()})
      ensures Contents() == Held(old(pool.mem), data, size, ndata - 1) + [e]
    {
      hide Held, Elements, Pool.Valid, Preserves;
      ElementFits(ndata - 1, nblock, size);
      HeldAppend(pool.mem, data, size, ndata - 1, e);
      pool.Store(Space(), (ndata - 1) * size, e);
    }

    /** A push whose place the caller fills: sequence append. */
    method Append(e: bytes) returns (ok: bool)
      requires Valid() && |e| == size
      modifies this`nblock, this`data, this`copied, this`ndata, pool
      ensures Valid() && Contents() == if ok then old(Contents()) + [e] else old(Contents())
      ensures pool.refused == old(pool.refused) + (if ok then 0 else 1)
      ensures Preserves(old(pool.mem), pool.mem, old(pool.live) - {old(Space())})
      ensures old(pool.live) - {old(Space())} <= pool.live
      ensures Space() !in old(pool.live) - {old(Space())}
    {
      hide Held, Elements, Pool.Valid, Preserves;
      InSpace();
      HeldLength(pool.mem, data, size, ndata);
      var p := Push();
      ghost var live, was := old(pool.live) - {old(Space())}, pool.mem;
      if p.None? {
        PreservesBoth(old(pool.mem), was, was, old(pool.live), live, {});
        return false;
      }
      ElementFits(ndata - 1, nblock, size);
      HeldStart(was, data, size, ndata - 1);
      Fill(e);
      PreservesBoth(old(pool.mem), was, pool.mem, old(pool.live), live, pool.live - {Space()});
      return true;
    }

    /** Doubling copies fewer than two elements per push. */
    lemma CopiesAreLinear()
      requires Valid() && 0 < ndata
      ensures copied < 2 * ndata && nblock <= if first <= 2 * ndata then 2 * ndata else first
    {
    }

    /** ehd_array_destroy: what lies at the end of the head block is given back. */
    method Destroy()
      requires Valid()
      modifies pool`block, pool`live
      ensures pool.Valid() && old(pool.live) - {Self(), Space()} <= pool.live <= old(pool.live)
      ensures Space() in pool.live <==> !(old(Last()) && ndata == nblock)
      ensures Self() !in pool.live <==>
        && pool.chain != [] && self.chunk == pool.chain[0]
        && self.off + ARRAY == (if old(Last()) && ndata == nblock then data.off else old(HeadLast()))
    {
      hide Held, Elements, Pool.Valid;
      InSpace();
      pool.Holds(Space());
      pool.Holds(Self());
      pool.HeadIsThere();
      if ndata < nblock {
        ElementFits(ndata, nblock, size);
      }
      var head := pool.chain[0];
      if data.chunk == head && data.off + size * ndata == pool.block[head].last {
        pool.RetractLast(Region(data.chunk, data.off, nblock * size));
      }
      if self.chunk == head && self.off + ARRAY == pool.block[head].last {
        pool.RetractLast(Region(self.chunk, self.off, ARRAY));
      }
    }
  }

  /** Whatever happens to other allocations of the pool, an array whose bytes are preserved holds what it held. */
  twostate lemma OthersKeepContents(a: Array)
    requires old(a.Valid()) && a.pool.Valid() && a.pool.TakesNodes() && unchanged(a)
    requires {a.Self(), a.Space()} <= a.pool.live
    requires Preserves(old(a.pool.mem), a.pool.mem, {a.Space()})
    ensures a.Valid() && a.Contents() == old(a.Contents())
  {
    hide Pool.Valid;
    a.InSpace();
    HeldStays(old(a.pool.mem), a.pool.mem, a.data, a.size, a.ndata, a.nblock * a.size, {a.Space()});
  }
}
