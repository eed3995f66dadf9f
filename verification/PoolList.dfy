/**
 The chunked list: nodes of n elements each, every node but the last one full. An element never
 moves once its place was handed out.
 */
module PoolList {
  import opened Bytes
  import opened Pool
  import A = PoolArray

  /** sizeof(ehd_list_node_t). */
  const LIST_NODE: nat := 24

  /** A node: where its elements start and how many there are. */
  datatype Node = Node(data: Addr, ndata: nat)

  /** The places of a node's elements. */
  function NodePlaces(data: Addr, size: nat, n: nat): (s: seq<Addr>)
    ensures |s| == n
    ensures forall j: nat | j < n :: s[j] == A.Place(data, size, j)
  {
    if n == 0 then [] else NodePlaces(data, size, n - 1) + [A.Place(data, size, n - 1)]
  }

  /** The places of all elements of the first k nodes, in the order of a walk from the head. */
  function Places(nodes: seq<Node>, size: nat, k: nat): seq<Addr>
    requires k <= |nodes|
  {
    if k == 0 then [] else
      Places(nodes, size, k - 1) + NodePlaces(nodes[k - 1].data, size, nodes[k - 1].ndata)
  }

  /** What the first k nodes hold, in the same order. */
  function Items(mem: Memory, nodes: seq<Node>, size: nat, k: nat): seq<bytes>
    requires k <= |nodes|
  {
    if k == 0 then [] else
      Items(mem, nodes, size, k - 1) + A.Held(mem, nodes[k - 1].data, size, nodes[k - 1].ndata)
  }

  lemma LastItems(mem: Memory, nodes: seq<Node>, size: nat, k: nat)
    requires 0 < k <= |nodes|
    ensures Items(mem, nodes, size, k)
         == Items(mem, nodes, size, k - 1) + A.Held(mem, nodes[k - 1].data, size, nodes[k - 1].ndata)
  {
  }

  /** The space of a node. */
  function Space(node: Node, len: nat): Region {
    Region(node.data.chunk, node.data.off, len)
  }

  /** Every node but the last is full. */
  ghost predicate Full(nodes: seq<Node>, n: nat) {
    && (forall i | 0 <= i < |nodes| :: nodes[i].ndata <= n)
    && (forall i | 0 <= i < |nodes| - 1 :: nodes[i].ndata == n)
  }

  /** The nodes have spaces of their own among the allocations in use. */
  ghost predicate Spaced(mem: Memory, live: set<Region>, nodes: seq<Node>, len: nat) {
    && (forall i | 0 <= i < |nodes| ::
          && Space(nodes[i], len) in live && nodes[i].data.chunk in mem
          && nodes[i].data.off + len <= |mem[nodes[i].data.chunk]|)
    && forall i, j | 0 <= i < j < |nodes| :: nodes[i].data != nodes[j].data
  }

  // ----- counting and reading

  /** The number of elements follows from the number of nodes: all but the last hold n. */
  lemma {:induction false} CountOf(mem: Memory, live: set<Region>, nodes: seq<Node>, size: nat, n: nat, k: nat)
    requires k < |nodes| && Full(nodes, n) && Spaced(mem, live, nodes, n * size)
    ensures |Places(nodes, size, k)| == k * n == |Items(mem, nodes, size, k)|
    ensures |Places(nodes, size, k + 1)| == k * n + nodes[k].ndata == |Items(mem, nodes, size, k + 1)|
  {
    hide A.Held, A.Elements;
    A.Scaled(nodes[k].ndata, n, size);
    A.HeldLength(mem, nodes[k].data, size, nodes[k].ndata);
    if k > 0 {
      CountOf(mem, live, nodes, size, n, k - 1);
      A.OneMore(k - 1, n);
    }
  }

  /** The size bytes at p are e. */
  predicate LiesAt(mem: Memory, p: Addr, size: nat, e: bytes) {
    p.chunk in mem && p.off + size <= |mem[p.chunk]| && mem[p.chunk][p.off..p.off + size] == e
  }

  /** Element i is the bytes at place i. */
  lemma {:induction false} ItemAtPlace(mem: Memory, live: set<Region>, nodes: seq<Node>,
                                       size: nat, n: nat, k: nat, i: nat)
    requires k <= |nodes| && Full(nodes, n) && Spaced(mem, live, nodes, n * size)
    requires i < |Places(nodes, size, k)|
    ensures |Items(mem, nodes, size, k)| == |Places(nodes, size, k)|
    ensures LiesAt(mem, Places(nodes, size, k)[i], size, Items(mem, nodes, size, k)[i])
  {
    hide A.Held, A.Elements;
    var node, start := nodes[k - 1], |Places(nodes, size, k - 1)|;
    CountOf(mem, live, nodes, size, n, k - 1);
    A.Scaled(node.ndata, n, size);
    A.HeldLength(mem, node.data, size, node.ndata);
    if i < start {
      ItemAtPlace(mem, live, nodes, size, n, k - 1, i);
    } else {
      A.HeldAt(mem, node.data, size, node.ndata, i - start);
    }
  }

  /** The elements stay when the bytes of the nodes are preserved. */
  lemma {:induction false} ItemsStay(mem: Memory, mem': Memory, live: set<Region>, nodes: seq<Node>,
                                     size: nat, n: nat, k: nat)
    requires k <= |nodes| && Preserves(mem, mem', live)
    requires forall i | 0 <= i < k :: nodes[i].ndata <= n && Space(nodes[i], n * size) in live
    requires forall i | 0 <= i < k ::
      nodes[i].data.chunk in mem && nodes[i].data.off + n * size <= |mem[nodes[i].data.chunk]|
    ensures Items(mem', nodes, size, k) == Items(mem, nodes, size, k)
  {
    hide A.Held, A.Elements, Preserves;
    if k > 0 {
      hide Items;
      LastItems(mem, nodes, size, k);
      LastItems(mem', nodes, size, k);
      ItemsStay(mem, mem', live, nodes, size, n, k - 1);
      A.Scaled(nodes[k - 1].ndata, n, size);
      A.HeldStays(mem, mem', nodes[k - 1].data, size, nodes[k - 1].ndata, n * size, live);
    }
  }

  /** The first k nodes are the same in both lists. */
  lemma {:induction false} SameNodes(mem: Memory, nodes: seq<Node>, nodes': seq<Node>, size: nat, k: nat)
    requires k <= |nodes| && k <= |nodes'| && nodes[..k] == nodes'[..k]
    ensures Places(nodes, size, k) == Places(nodes', size, k)
    ensures Items(mem, nodes, size, k) == Items(mem, nodes', size, k)
  {
    hide A.Held, A.Elements;
    if k > 0 {
      assert nodes[k - 1] == nodes[..k][k - 1] == nodes'[..k][k - 1] == nodes'[k - 1];
      assert nodes[..k - 1] == nodes[..k][..k - 1] == nodes'[..k][..k - 1] == nodes'[..k - 1];
      SameNodes(mem, nodes, nodes', size, k - 1);
    }
  }

  /** One more element in the last node. */
  function Bumped(nodes: seq<Node>): seq<Node>
    requires nodes != []
  {
    nodes[|nodes| - 1 := Node(nodes[|nodes| - 1].data, nodes[|nodes| - 1].ndata + 1)]
  }

  lemma BumpedPlaces(mem: Memory, live: set<Region>, nodes: seq<Node>, size: nat, n: nat)
    requires nodes != [] && Full(nodes, n) && nodes[|nodes| - 1].ndata < n && Spaced(mem, live, nodes, n * size)
    ensures var k, last := |nodes|, nodes[|nodes| - 1];
      && Full(Bumped(nodes), n) && Spaced(mem, live, Bumped(nodes), n * size)
      && Places(Bumped(nodes), size, k) == Places(nodes, size, k) + [A.Place(last.data, size, last.ndata)]
      && |Items(mem, Bumped(nodes), size, k)| == |Items(mem, nodes, size, k)| + 1
      && Items(mem, nodes, size, k) <= Items(mem, Bumped(nodes), size, k)
  {
    hide A.Held, A.Elements;
    var k, last := |nodes|, nodes[|nodes| - 1];
    SameNodes(mem, nodes, Bumped(nodes), size, k - 1);
    A.ElementFits(last.ndata, n, size);
    A.HeldStart(mem, last.data, size, last.ndata);
    A.HeldLength(mem, last.data, size, last.ndata);
  }

  lemma LastOfAll(all: seq<bytes>, held: seq<bytes>, e: bytes)
    requires held != []
    ensures (all + held)[..|all + held| - 1] + [e] == all + (held[..|held| - 1] + [e])
  {
  }

  /** The nodes before the last one have spaces other than its own. */
  lemma OthersElsewhere(mem: Memory, live: set<Region>, nodes: seq<Node>, len: nat, n: nat)
    requires nodes != [] && Full(nodes, n) && Spaced(mem, live, nodes, len)
    ensures var last := nodes[|nodes| - 1];
      && last.data.chunk in mem && last.data.off + len <= |mem[last.data.chunk]|
      && forall i | 0 <= i < |nodes| - 1 ::
           && nodes[i].ndata <= n && Space(nodes[i], len) in live - {Space(last, len)}
           && nodes[i].data.chunk in mem && nodes[i].data.off + len <= |mem[nodes[i].data.chunk]|
  {
  }

  /** Filling the last element leaves the others as they are. */
  lemma FilledItems(mem: Memory, mem': Memory, live: set<Region>, nodes: seq<Node>, size: nat, n: nat, e: bytes)
    requires nodes != [] && Full(nodes, n) && Spaced(mem, live, nodes, n * size) && |e| == size
    requires 0 < nodes[|nodes| - 1].ndata
    requires Preserves(mem, mem', live - {Space(nodes[|nodes| - 1], n * size)})
    requires var last := nodes[|nodes| - 1];
      && last.data.off + (last.ndata - 1) * size + size <= |mem[last.data.chunk]|
      && mem' == mem[last.data.chunk := Written(mem[last.data.chunk], last.data.off + (last.ndata - 1) * size, e)]
    ensures var items := Items(mem, nodes, size, |nodes|);
      items != [] && Items(mem', nodes, size, |nodes|) == items[..|items| - 1] + [e]
  {
    hide A.Held, A.Elements;
    var k, last := |nodes|, nodes[|nodes| - 1];
    OthersElsewhere(mem, live, nodes, n * size, n);
    hide Items, Full, Spaced, Preserves;
    LastItems(mem, nodes, size, k);
    LastItems(mem', nodes, size, k);
    ItemsStay(mem, mem', live - {Space(last, n * size)}, nodes, size, n, k - 1);
    A.HeldReplaced(mem, last.data, size, last.ndata, e);
    LastOfAll(Items(mem, nodes, size, k - 1), A.Held(mem, last.data, size, last.ndata), e);
  }

  class List {
    const pool: Pool
    /** The size of an element, and how many a node has room for. */
    const size: nat
    const n: nat
    /** The nodes from the head along `next`; last is the index of the one that is pushed to. */
    var nodes: seq<Node>
    var last: nat

    ghost predicate Valid()
      reads this, pool
    {
      && pool.Valid() && pool.TakesNodes() && 0 < size && 0 < n && |nodes| == last + 1
      && Full(nodes, n) && Spaced(pool.mem, pool.live, nodes, n * size)
    }

    function Contents(): seq<bytes>
      reads this, pool
    {
      Items(pool.mem, nodes, size, |nodes|)
    }

    /** The places handed out so far. */
    function HandedOut(): seq<Addr>
      reads this
    {
      Places(nodes, size, |nodes|)
    }

    constructor (pool: Pool, n: nat, size: nat, data: Addr)
      ensures this.pool == pool && this.n == n && this.size == size && nodes == [Node(data, 0)] && last == 0
    {
      this.pool, this.n, this.size := pool, n, size;
      nodes, last := [Node(data, 0)], 0;
    }

    /** ehd_list_init. Only a list with room for elements of some size in a node can be used. */
    static method Init(pool: Pool, n: nat, size: nat) returns (l: List?)
      requires pool.Valid() && pool.TakesNodes()
      modifies pool
      ensures pool.Valid() && pool.TakesNodes() && Preserves(old(pool.mem), pool.mem, old(pool.live))
      ensures pool.refused == old(pool.refused) + (if l == null then 1 else 0)
      ensures l == null ==> pool.live == old(pool.live)
      ensures l != null ==>
        && fresh(l) && l.pool == pool && l.n == n && l.size == size && |l.nodes| == 1 && l.nodes[0].ndata == 0
        && pool.live == old(pool.live) + Allocation(l.nodes[0].data.chunk, l.nodes[0].data.off, n * size)
        && old(pool.live) !! Allocation(l.nodes[0].data.chunk, l.nodes[0].data.off, n * size)
        && (l.Valid() <==> 0 < n && 0 < size) && (l.Valid() ==> l.Contents() == [] && l.HandedOut() == [])
    {
      hide Pool.Valid, Items, Places;
      l := null;
      var data := pool.Palloc(n * size);
      if data.Some? {
        l := new List(pool, n, size, data.value);
        EmptyList(pool.mem, data.value, size);
        if 0 < n && 0 < size {
          assert 0 < n * size;
          pool.Holds(Space(l.nodes[0], n * size));
        }
      }
    }

    /** A new empty node behind the last one; nothing is linked unless both allocations succeed. */
    method AddNode() returns (ok: bool)
      requires Valid() && nodes[last].ndata == n
      modifies this`nodes, this`last, pool
      ensures Valid() && Contents() == old(Contents()) && HandedOut() == old(HandedOut())
      ensures Preserves(old(pool.mem), pool.mem, old(pool.live)) && old(pool.live) <= pool.live
      ensures pool.refused == old(pool.refused) + (if ok then 0 else 1)
      ensures !ok ==> nodes == old(nodes)
      ensures ok ==> nodes[last].ndata == 0 && nodes == old(nodes) + [nodes[last]]
      ensures ok ==> Space(nodes[last], n * size) !in old(pool.live)
    {
      hide Pool.Valid, Items, Places;
      ghost var mem, live := pool.mem, pool.live;
      var self := pool.Palloc(LIST_NODE);
      ItemsStay(mem, pool.mem, live, nodes, size, n, |nodes|);
      if self.None? {
        return false;
      }
      assert 0 < n * size;
      var data := pool.Palloc(n * size);
      ItemsStay(mem, pool.mem, live, nodes, size, n, |nodes|);
      if data.None? {
        return false;
      }
      LinkedNode(pool.mem, pool.live, nodes, size, n, data.value);
      nodes := nodes + [Node(data.value, 0)];
      last := last + 1;
      return true;
    }

    /** ehd_list_push: where the next element goes. */
    method Push() returns (p: Option<Addr>)
      requires Valid()
      modifies this`nodes, this`last, pool
      ensures Valid() && Preserves(old(pool.mem), pool.mem, old(pool.live)) && old(pool.live) <= pool.live
      ensures pool.refused == old(pool.refused) + (if p.None? then 1 else 0)
      ensures old(nodes[last].ndata < n) ==> p.Some? && pool.mem == old(pool.mem) && pool.live == old(pool.live)
      ensures p.None? ==> nodes == old(nodes) && Contents() == old(Contents()) && HandedOut() == old(HandedOut())
      ensures p.Some? ==>
        && HandedOut() == old(HandedOut()) + [p.value] && 0 < nodes[last].ndata
        && old(Contents()) <= Contents() && |Contents()| == |old(Contents())| + 1
    {
      hide Pool.Valid, Items, Places;
      if nodes[last].ndata == n {
        var ok := AddNode();
        if !ok {
          return None;
        }
      }
      BumpedPlaces(pool.mem, pool.live, nodes, size, n);
      p := Some(A.Place(nodes[last].data, size, nodes[last].ndata));
      nodes := nodes[last := Node(nodes[last].data, nodes[last].ndata + 1)];
    }

    /** The caller fills the place that the last push gave it. */
    method Fill(e: bytes)
      requires Valid() && |e| == size && 0 < nodes[last].ndata
      modifies pool`mem
      ensures Valid() && old(Contents()) != [] && Contents() == old(Contents())[..|old(Contents())| - 1] + [e]
      ensures Preserves(old(pool.mem), pool.mem, pool.live - {Space(nodes[last], n * size)})
    {
      hide Pool.Valid, Items, Places;
      var l := nodes[last];
      A.ElementFits(l.ndata - 1, n, size);
      ghost var mem := pool.mem;
      pool.Store(Space(l, n * size), (l.ndata - 1) * size, e);
      FilledItems(mem, pool.mem, pool.live, nodes, size, n, e);
    }

    /** A push whose place the caller fills: sequence append; all other allocations keep their bytes. */
    method Append(e: bytes) returns (ok: bool)
      requires Valid() && |e| == size
      modifies this`nodes, this`last, pool
      ensures Valid() && Contents() == if ok then old(Contents()) + [e] else old(Contents())
      ensures pool.refused == old(pool.refused) + (if ok then 0 else 1)
      ensures old(HandedOut()) <= HandedOut() && (!ok ==> nodes == old(nodes))
      ensures old(pool.live) <= pool.live
      ensures Preserves(old(pool.mem), pool.mem, old(pool.live) - {Space(nodes[last], n * size)})
    {
      hide Pool.Valid, Items, Places, Preserves;
      var p := Push();
      ghost var live, was := old(pool.live) - {Space(nodes[last], n * size)}, pool.mem;
      if p.None? {
        PreservesBoth(old(pool.mem), was, was, old(pool.live), live, {});
        return false;
      }
      Fill(e);
      PreservesBoth(old(pool.mem), was, pool.mem, old(pool.live), live, pool.live - {Space(nodes[last], n * size)});
      return true;
    }

    /** The walk over the list that the response printer does. */
    method Walk() returns (s: seq<bytes>)
      requires Valid()
      ensures s == Contents()
    {
      hide Pool.Valid, A.Held, A.Elements;
      s := [];
      var k := 0;
      while k < |nodes|
        invariant k <= |nodes| && s == Items(pool.mem, nodes, size, k)
      {
        var node := nodes[k];
        A.Scaled(node.ndata, n, size);
        A.HeldLength(pool.mem, node.data, size, node.ndata);
        ghost var start := s;
        var i := 0;
        while i < node.ndata
          invariant i <= node.ndata && s == start + A.Held(pool.mem, node.data, size, node.ndata)[..i]
        {
          A.HeldAt(pool.mem, node.data, size, node.ndata, i);
          var at := A.Place(node.data, size, i);
          s := s + [pool.mem[at.chunk][at.off..at.off + size]];
          i := i + 1;
        }
        k := k + 1;
      }
    }
  }

  lemma EmptyList(mem: Memory, data: Addr, size: nat)
    ensures Items(mem, [Node(data, 0)], size, 1) == [] && Places([Node(data, 0)], size, 1) == []
  {
    hide A.Held, A.Elements;
    A.NothingHeld(mem, data, size);
    assert Items(mem, [Node(data, 0)], size, 0) == [] && Places([Node(data, 0)], size, 0) == [];
  }

  lemma LinkedNode(mem: Memory, live: set<Region>, nodes: seq<Node>, size: nat, n: nat, data: Addr)
    requires nodes != [] && Full(nodes, n) && nodes[|nodes| - 1].ndata == n && Spaced(mem, live, nodes, n * size)
    requires data.chunk in mem && data.off + n * size <= |mem[data.chunk]|
    requires Region(data.chunk, data.off, n * size) in live
    requires forall i | 0 <= i < |nodes| :: nodes[i].data != data
    ensures var nodes' := nodes + [Node(data, 0)];
      && Full(nodes', n) && Spaced(mem, live, nodes', n * size)
      && Places(nodes', size, |nodes'|) == Places(nodes, size, |nodes|)
      && Items(mem, nodes', size, |nodes'|) == Items(mem, nodes, size, |nodes|)
  {
    hide A.Held, A.Elements;
    SameNodes(mem, nodes, nodes + [Node(data, 0)], size, |nodes|);
    A.NothingHeld(mem, data, size);
  }

  /** Whatever happens to other allocations of the pool, a list whose bytes are preserved holds what it held. */
  twostate lemma OthersKeepContents(l: List, kept: set<Region>)
    requires old(l.Valid()) && l.pool.Valid() && l.pool.TakesNodes() && unchanged(l)
    requires forall i | 0 <= i < |l.nodes| :: Space(l.nodes[i], l.n * l.size) in kept
    requires kept <= l.pool.live && Preserves(old(l.pool.mem), l.pool.mem, kept)
    ensures l.Valid() && l.Contents() == old(l.Contents())
  {
    hide Pool.Valid, Items, Places;
    ItemsStay(old(l.pool.mem), l.pool.mem, kept, l.nodes, l.size, l.n, |l.nodes|);
  }
}
