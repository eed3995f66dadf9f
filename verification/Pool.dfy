/**
 The pool allocator: first fit over a chain of equal blocks, with larger requests malloced on
 their own and recorded in nodes that are themselves allocated from the pool. A pointer is a
 malloced chunk and an offset into it.
 */
module Pool {
  import opened Bytes

  const MAX_ALLOC_FROM_POOL: nat := 1048576

  /** sizeof(ehd_pool_t) and sizeof(ehd_pool_large_t). */
  const HEADER: nat := 32
  const LARGE_NODE: nat := 16

  datatype Addr = Addr(chunk: nat, off: nat)

  datatype Region = Region(chunk: nat, off: nat, len: nat)

  /** One block: bytes [HEADER, last) are handed out, [last, end) are free. */
  datatype Block = Block(last: nat, end: nat)

  /** A node of the large list: where the node lies, and the chunk it owns, if any. */
  datatype Large = Large(node: Addr, data: Option<nat>)

  type Blocks = map<nat, Block>
  type Memory = map<nat, bytes>

  predicate Disjoint(a: Region, b: Region) {
    a.chunk != b.chunk || a.off + a.len <= b.off || b.off + b.len <= a.off
  }

  predicate HasRoom(b: Block, size: nat) { b.last + size <= b.end }

  // ----- what every operation keeps

  /** An allocation lies inside its chunk, and in a block it lies in the part that is handed out. */
  predicate InBounds(r: Region, block: Blocks, mem: Memory) {
    && r.len > 0 && r.chunk in mem && r.off + r.len <= |mem[r.chunk]|
    && (r.chunk in block ==> HEADER <= r.off && r.off + r.len <= block[r.chunk].last)
  }

  /** All live allocations are in bounds and pairwise disjoint. */
  ghost predicate ValidLive(block: Blocks, mem: Memory, live: set<Region>) {
    && (forall r | r in live :: InBounds(r, block, mem))
    && (forall r, s | r in live && s in live && r != s :: Disjoint(r, s))
  }

  /** The chain runs through every block once, and every block has the head's capacity. */
  ghost predicate ValidBlocks(chain: seq<nat>, block: Blocks, mem: Memory) {
    && chain != [] && (forall i | 0 <= i < |chain| :: chain[i] in block)
    && (forall i, j | 0 <= i < j < |chain| :: chain[i] != chain[j])
    && (forall id | id in block :: id in chain)
    && forall id | id in block ::
         id in mem && HEADER <= block[id].last <= block[id].end == |mem[id]| && block[id].end == block[chain[0]].end
  }

  /** Large nodes lie in blocks; each owns a chunk of its own; blocks and owned chunks are all there is. */
  ghost predicate ValidLarge(block: Blocks, large: seq<Large>, mem: Memory, owned: set<nat>) {
    && (forall i | 0 <= i < |large| :: large[i].node.chunk in block)
    && (forall i | 0 <= i < |large| && large[i].data.Some? :: large[i].data.value in owned)
    && (forall i, j | 0 <= i < j < |large| :: large[i].data.Some? ==> large[i].data != large[j].data)
    && (forall id | id in owned :: exists i :: 0 <= i < |large| && large[i].data == Some(id))
    && mem.Keys == block.Keys + owned && block.Keys !! owned
  }

  ghost predicate NodesKept(large: seq<Large>, nodes: set<Region>) {
    forall i | 0 <= i < |large| :: Region(large[i].node.chunk, large[i].node.off, LARGE_NODE) in nodes
  }

  function Taken(block: Blocks, id: nat, size: nat): Blocks
    requires id in block
  {
    block[id := Block(block[id].last + size, block[id].end)]
  }

  /** The allocation of size bytes at an address; nothing when there are no bytes. */
  function Allocation(chunk: nat, off: nat, size: nat): set<Region> {
    if size == 0 then {} else {Region(chunk, off, size)}
  }

  // ----- bumping a block

  lemma TakeKeepsLive(block: Blocks, mem: Memory, live: set<Region>, id: nat, size: nat)
    requires ValidLive(block, mem, live) && id in block && id in mem
    requires block[id].end == |mem[id]| && HEADER <= block[id].last && HasRoom(block[id], size)
    ensures ValidLive(Taken(block, id, size), mem, live + Allocation(id, block[id].last, size))
    ensures live !! Allocation(id, block[id].last, size)
  {
    var block' := Taken(block, id, size);
    forall r | r in live + Allocation(id, block[id].last, size)
      ensures InBounds(r, block', mem)
    {
      assert r in live ==> InBounds(r, block, mem);
    }
    forall r, s | r in live && s in Allocation(id, block[id].last, size)
      ensures r != s && Disjoint(r, s)
    {
      assert InBounds(r, block, mem);
    }
  }

  /** The large list cares only which chunks there are. */
  lemma SameChunksKeepLarge(block: Blocks, block': Blocks, large: seq<Large>, mem: Memory, mem': Memory,
                            owned: set<nat>)
    requires ValidLarge(block, large, mem, owned) && block'.Keys == block.Keys && mem'.Keys == mem.Keys
    ensures ValidLarge(block', large, mem', owned)
  {
  }

  /** Moving the free part of a block within its bounds. */
  lemma MoveKeepsLists(chain: seq<nat>, block: Blocks, large: seq<Large>, mem: Memory, owned: set<nat>,
                       id: nat, last: nat)
    requires ValidBlocks(chain, block, mem) && ValidLarge(block, large, mem, owned)
    requires id in block && HEADER <= last <= block[id].end
    ensures ValidBlocks(chain, block[id := Block(last, block[id].end)], mem)
    ensures ValidLarge(block[id := Block(last, block[id].end)], large, mem, owned)
  {
    SameChunksKeepLarge(block, block[id := Block(last, block[id].end)], large, mem, mem, owned);
  }

  /** A write inside a chunk. */
  lemma WriteKeepsAll(chain: seq<nat>, block: Blocks, large: seq<Large>, mem: Memory, owned: set<nat>,
                      live: set<Region>, id: nat, text: bytes)
    requires ValidBlocks(chain, block, mem) && ValidLarge(block, large, mem, owned) && ValidLive(block, mem, live)
    requires id in mem && |text| == |mem[id]|
    ensures ValidBlocks(chain, block, mem[id := text]) && ValidLarge(block, large, mem[id := text], owned)
    ensures ValidLive(block, mem[id := text], live)
  {
    assert mem[id := text].Keys == mem.Keys;
    SameChunksKeepLarge(block, block, large, mem, mem[id := text], owned);
    forall r | r in live ensures InBounds(r, block, mem[id := text]) {
      assert InBounds(r, block, mem);
    }
  }

  // ----- what an array does to the last allocation of a block

  /** The last allocation of a block grows in place. */
  lemma GrowKeepsLive(block: Blocks, mem: Memory, live: set<Region>, r: Region, size: nat)
    requires ValidLive(block, mem, live) && r in live && r.chunk in block && r.chunk in mem
    requires block[r.chunk].end == |mem[r.chunk]| && HasRoom(block[r.chunk], size)
    requires r.off + r.len == block[r.chunk].last
    ensures ValidLive(Taken(block, r.chunk, size), mem, live - {r} + {Grown(r, size)})
    ensures Grown(r, size) !in live - {r}
  {
    var block' := Taken(block, r.chunk, size);
    assert InBounds(r, block, mem);
    forall s | s in live - {r} ensures InBounds(s, block', mem) && Disjoint(s, Grown(r, size)) {
      assert InBounds(s, block, mem) && Disjoint(s, r);
    }
  }

  /** The last allocation of a block is given back: everything else lies below it. */
  lemma RetractKeepsLive(block: Blocks, mem: Memory, live: set<Region>, r: Region)
    requires ValidLive(block, mem, live) && r in live && r.chunk in block
    requires r.off + r.len == block[r.chunk].last
    ensures HEADER <= r.off
    ensures ValidLive(block[r.chunk := Block(r.off, block[r.chunk].end)], mem, live - {r})
  {
    var block' := block[r.chunk := Block(r.off, block[r.chunk].end)];
    assert InBounds(r, block, mem);
    forall s | s in live - {r} ensures InBounds(s, block', mem) {
      assert InBounds(s, block, mem) && Disjoint(s, r);
    }
  }

  /** Replacing an allocation of one set within the union of the two. */
  lemma ReplaceInUnion(live: set<Region>, nodes: set<Region>, r: Region, g: Region)
    requires live !! nodes && r in live && g !in live + nodes - {r}
    ensures live - {r} + {g} !! nodes && live - {r} + {g} + nodes == live + nodes - {r} + {g}
    ensures g !in live - {r}
  {
  }

  function Grown(r: Region, size: nat): Region {
    Region(r.chunk, r.off, r.len + size)
  }

  // ----- new chunks

  lemma NewBlockKeepsAll(chain: seq<nat>, block: Blocks, large: seq<Large>, mem: Memory, owned: set<nat>,
                         live: set<Region>, id: nat, text: bytes)
    requires ValidBlocks(chain, block, mem) && ValidLarge(block, large, mem, owned) && ValidLive(block, mem, live)
    requires id !in mem && |text| == block[chain[0]].end
    ensures var block', mem' := block[id := Block(HEADER, |text|)], mem[id := text];
      && ValidBlocks(chain + [id], block', mem') && ValidLarge(block', large, mem', owned)
      && ValidLive(block', mem', live)
  {
    var chain', block', mem' := chain + [id], block[id := Block(HEADER, |text|)], mem[id := text];
    assert id !in block && id !in owned;
    assert id in chain' by { assert chain'[|chain|] == id; }
    forall k | k in block' ensures k in chain' {
      if k != id {
        var i :| 0 <= i < |chain| && chain[i] == k;
        assert chain'[i] == k;
      }
    }
    assert block'.Keys == block.Keys + {id} && mem'.Keys == mem.Keys + {id};
    forall r | r in live ensures InBounds(r, block', mem') {
      assert InBounds(r, block, mem);
    }
  }

  /** A chunk that is not a block leaves the chain and the live allocations alone. */
  lemma NewChunkKeepsBlocks(chain: seq<nat>, block: Blocks, mem: Memory, live: set<Region>, id: nat, text: bytes)
    requires ValidBlocks(chain, block, mem) && ValidLive(block, mem, live) && id !in mem && |text| > 0
    ensures ValidBlocks(chain, block, mem[id := text])
    ensures ValidLive(block, mem[id := text], live + {Region(id, 0, |text|)})
    ensures forall r | r in live :: r.chunk != id
  {
    forall r | r in live ensures InBounds(r, block, mem[id := text]) && r.chunk != id {
      assert InBounds(r, block, mem);
    }
  }

  /** A new chunk owned by a new node at the end of the list, or by a node that had none. */
  lemma NewLargeKeepsLarge(block: Blocks, large: seq<Large>, mem: Memory, owned: set<nat>,
                           i: nat, node: Addr, id: nat, text: bytes)
    requires ValidLarge(block, large, mem, owned) && id !in mem && node.chunk in block
    requires i == |large| || (i < |large| && large[i] == Large(node, None))
    ensures ValidLarge(block, PutLarge(large, i, Large(node, Some(id))), mem[id := text], owned + {id})
  {
    var mem', large' := mem[id := text], PutLarge(large, i, Large(node, Some(id)));
    assert forall j | 0 <= j < |large'| :: large'[j] == if j == i then Large(node, Some(id)) else large[j];
    assert forall j | 0 <= j < |large| && large[j].data.Some? :: large[j].data.value in mem;
    forall k | k in owned + {id} ensures exists j :: 0 <= j < |large'| && large'[j].data == Some(k) {
      if k == id {
        assert large'[i].data == Some(k);
      } else {
        var j :| 0 <= j < |large| && large[j].data == Some(k);
        assert large'[j].data == Some(k);
      }
    }
    assert mem'.Keys == mem.Keys + {id};
  }

  function PutLarge(large: seq<Large>, i: nat, l: Large): seq<Large>
    requires i <= |large|
  {
    if i < |large| then large[i := l] else large + [l]
  }

  class Pool {
    /** The chain of blocks from the head along `next`, and what each block's header says. */
    var chain: seq<nat>
    var block: Blocks
    /** The list from `large` along its `next`. */
    var large: seq<Large>
    /** Every chunk malloced for this pool. */
    var mem: Memory
    var nextId: nat
    /** How often malloc has failed; only malloc counts. */
    ghost var refused: nat
    /** The chunks owned by large nodes, the allocations in use, and those made for large nodes. */
    ghost var owned: set<nat>
    ghost var live: set<Region>
    ghost var nodes: set<Region>

    predicate Small(size: nat)
      reads this
      requires chain != [] && chain[0] in block
    {
      size <= MAX_ALLOC_FROM_POOL && size + HEADER <= block[chain[0]].end
    }

    /**
     A large node fits in a block. Where it does not, the call that allocates one asks for another
     one first, and so on without end.
     */
    predicate TakesNodes()
      reads this
    {
      chain != [] && chain[0] in block && Small(LARGE_NODE)
    }

    /** The lists are well formed, no chunk is unaccounted for, and live allocations never overlap. */
    ghost predicate Valid()
      reads this
    {
      && ValidBlocks(chain, block, mem) && ValidLarge(block, large, mem, owned)
      && ValidLive(block, mem, live + nodes) && live !! nodes && NodesKept(large, nodes)
      && forall id | id in mem :: id < nextId
    }

    /** An allocation in use lies in a chunk of the pool. */
    lemma Holds(r: Region)
      requires Valid() && r in live
      ensures r.len > 0 && r.chunk in mem && r.off + r.len <= |mem[r.chunk]|
      ensures r.chunk in block ==> HEADER <= r.off && r.off + r.len <= block[r.chunk].last
    {
      assert InBounds(r, block, mem);
    }

    lemma BlockFits(id: nat)
      requires Valid() && id in block
      ensures id in mem && HEADER <= block[id].last <= block[id].end == |mem[id]|
    {
    }

    /** The head block is there, and what is free in it lies inside it. */
    lemma HeadIsThere()
      requires Valid()
      ensures chain != [] && chain[0] in block && block[chain[0]].last <= block[chain[0]].end
    {
    }

    /** The bytes of an allocation. */
    function Read(r: Region): bytes
      reads this
      requires r.chunk in mem && r.off + r.len <= |mem[r.chunk]|
    {
      mem[r.chunk][r.off..r.off + r.len]
    }

    /** What is taken from a block: up to a mebibyte, and up to what the block holds behind its header of 32 bytes. */
    lemma SmallMeans(size: nat)
      requires Valid()
      ensures chain != [] && chain[0] in block
      ensures Small(size) <==> size <= 1024 * 1024 && size <= block[chain[0]].end - 32
    {
    }

    /** No byte that was there before has changed. */
    twostate predicate Untouched()
      reads this
    {
      forall id | id in old(mem) :: id in mem && mem[id] == old(mem)[id]
    }

    /** malloc: it may fail, and the memory it hands out holds anything. */
    method Malloc(size: nat) returns (ok: bool, text: bytes)
      modifies this`refused
      ensures |text| == size && refused == old(refused) + (if ok then 0 else 1)
    {
      ok := *;
      refused := refused + (if ok then 0 else 1);
      assert |seq(size, _ => NUL)| == size;
      text :| |text| == size;
    }

    constructor (size: nat)
      requires HEADER <= size
      ensures Valid() && live == {} && nodes == {} && large == []
      ensures |chain| == 1 && block == map[chain[0] := Block(HEADER, size)]
    {
      var text: bytes := seq(size, _ => NUL);
      mem := map[0 := text];
      nextId, refused := 1, 0;
      chain, block := [0], map[0 := Block(HEADER, size)];
      large, owned, live, nodes := [], {}, {}, {};
    }

    /** `m = p->last; p->last = m + size`. */
    method TakeFrom(id: nat, size: nat)
      requires Valid() && id in block && HasRoom(block[id], size)
      modifies this`block, this`live
      ensures Valid() && block == Taken(old(block), id, size)
      ensures live == old(live) + Allocation(id, old(block)[id].last, size)
      ensures old(live) !! Allocation(id, old(block)[id].last, size)
    {
      hide ValidLive, ValidBlocks, ValidLarge, InBounds, Disjoint;
      BlockFits(id);
      TakeKeepsLive(block, mem, live + nodes, id, size);
      ghost var all := live + nodes + Allocation(id, block[id].last, size);
      MoveKeepsLists(chain, block, large, mem, owned, id, block[id].last + size);
      live := live + Allocation(id, block[id].last, size);
      assert live + nodes == all;
      block := block[id := Block(block[id].last + size, block[id].end)];
    }

    /** ehd_create_pool on a chunk just malloced, and `p->next = n`. */
    method LinkBlock(text: bytes)
      requires Valid() && |text| == block[chain[0]].end
      modifies this`chain, this`block, this`mem, this`nextId
      ensures Valid() && nextId == old(nextId) + 1 && old(nextId) !in old(mem)
      ensures chain == old(chain) + [old(nextId)] && mem == old(mem)[old(nextId) := text]
      ensures block == old(block)[old(nextId) := Block(HEADER, |text|)]
    {
      hide ValidLive, ValidLarge, InBounds, Disjoint;
      NewBlockKeepsAll(chain, block, large, mem, owned, live + nodes, nextId, text);
      mem := mem[nextId := text];
      block := block[nextId := Block(HEADER, |text|)];
      chain := chain + [nextId];
      nextId := nextId + 1;
    }

    /** A fresh block at the end of the chain, as large as the last one. */
    method AddBlock() returns (ok: bool)
      requires Valid()
      modifies this`chain, this`block, this`mem, this`nextId, this`refused
      ensures Valid() && Untouched() && refused == old(refused) + (if ok then 0 else 1)
      ensures !ok ==> chain == old(chain) && block == old(block)
      ensures ok ==>
        && chain == old(chain) + [old(nextId)] && old(nextId) !in old(mem)
        && block == old(block)[old(nextId) := Block(HEADER, old(block)[old(chain)[0]].end)]
    {
      var last := chain[|chain| - 1];
      assert last in block && block[last].end == block[chain[0]].end;
      var text;
      ok, text := Malloc(block[last].end);
      if ok {
        LinkBlock(text);
      }
    }

    /** A new block behind the last one serves the request. */
    method PallocNew(size: nat) returns (p: Option<Addr>)
      requires Valid() && Small(size)
      modifies this`chain, this`block, this`mem, this`nextId, this`live, this`refused
      ensures Valid() && Untouched() && refused == old(refused) + (if p.None? then 1 else 0)
      ensures p.None? ==> live == old(live) && chain == old(chain) && block == old(block)
      ensures p.Some? ==>
        && live == old(live) + Allocation(p.value.chunk, p.value.off, size)
        && old(live) !! Allocation(p.value.chunk, p.value.off, size)
        && p.value.chunk in block && p.value.chunk in mem && p.value.off + size <= |mem[p.value.chunk]|
        && p.value.off == HEADER && p.value.chunk !in old(mem) && chain == old(chain) + [p.value.chunk]
      ensures chain != [] && chain[0] == old(chain[0]) && chain[0] in block
      ensures block[chain[0]].end == old(block[chain[0]].end)
    {
      hide ValidLive, ValidLarge, Disjoint, InBounds;
      var ok := AddBlock();
      if !ok {
        return None;
      }
      var id := chain[|chain| - 1];
      TakeFrom(id, size);
      p := Some(Addr(id, HEADER));
    }

    /** The small path: the first block with room, or a new block behind the last one. */
    method PallocSmall(size: nat) returns (p: Option<Addr>)
      requires Valid() && Small(size)
      modifies this`chain, this`block, this`mem, this`nextId, this`live, this`refused
      ensures Valid() && Untouched() && refused == old(refused) + (if p.None? then 1 else 0)
      ensures p.None? ==> live == old(live) && chain == old(chain) && block == old(block)
      ensures p.Some? ==>
        && live == old(live) + Allocation(p.value.chunk, p.value.off, size)
        && old(live) !! Allocation(p.value.chunk, p.value.off, size)
        && p.value.chunk in block && p.value.chunk in mem && p.value.off + size <= |mem[p.value.chunk]|
      ensures chain != [] && chain[0] == old(chain[0]) && chain[0] in block
      ensures block[chain[0]].end == old(block[chain[0]].end)
      ensures forall i: nat | FirstFit(old(chain), old(block), size, i) ::
        && p == Some(Addr(old(chain)[i], old(block)[old(chain)[i]].last))
        && chain == old(chain) && mem == old(mem) && block == Taken(old(block), old(chain)[i], size)
      ensures NoFit(old(chain), old(block), size) && p.Some? ==>
        && p.value.off == HEADER && p.value.chunk !in old(mem) && chain == old(chain) + [p.value.chunk]
    {
      hide ValidLive, ValidLarge, Disjoint, InBounds, FirstFit, NoFit;
      var i := 0;
      while i < |chain|
        invariant 0 <= i <= |chain|
        invariant forall j: nat | j < i :: block[chain[j]].end - block[chain[j]].last < size
      {
        var b := block[chain[i]];
        if b.last + size <= b.end {
          FitFound(chain, block, size, i);
          TakeFrom(chain[i], size);
          return Some(Addr(chain[i], b.last));
        }
        i := i + 1;
      }
      NoFitFound(chain, block, size);
      p := PallocNew(size);
    }

    /** A chunk just malloced is handed to node number i of the large list. */
    method LinkLarge(i: nat, node: Addr, text: bytes)
      requires Valid() && |text| > 0 && node.chunk in block
      requires Region(node.chunk, node.off, LARGE_NODE) in nodes
      requires i == |large| || (i < |large| && large[i] == Large(node, None))
      modifies this`large, this`mem, this`nextId, this`owned, this`live
      ensures Valid() && nextId == old(nextId) + 1 && mem == old(mem)[old(nextId) := text]
      ensures live == old(live) + {Region(old(nextId), 0, |text|)}
      ensures Region(old(nextId), 0, |text|) !in old(live) && old(nextId) !in old(mem)
      ensures large == PutLarge(old(large), i, Large(node, Some(old(nextId))))
      ensures owned == old(owned) + {old(nextId)}
    {
      hide ValidLive, ValidBlocks, ValidLarge, InBounds, Disjoint;
      NewChunkKeepsBlocks(chain, block, mem, live + nodes, nextId, text);
      NewLargeKeepsLarge(block, large, mem, owned, i, node, nextId, text);
      ghost var all := live + nodes + {Region(nextId, 0, |text|)};
      live := live + {Region(nextId, 0, |text|)};
      assert live + nodes == all;
      large := PutLarge(large, i, Large(node, Some(nextId)));
      mem := mem[nextId := text];
      owned := owned + {nextId};
      nextId := nextId + 1;
    }

    /** An allocation is kept for good as the place of a large node. */
    ghost method KeepAsNode(r: Region)
      requires Valid() && r in live
      modifies this`live, this`nodes
      ensures Valid() && live == old(live) - {r} && r in nodes
    {
      hide ValidLive, ValidBlocks, ValidLarge;
      ghost var all := live + nodes;
      live, nodes := live - {r}, nodes + {r};
      assert live + nodes == all;
    }

    /** Node number i of the large list is free to own a chunk; a new node comes from the pool itself. */
    method LargeNode() returns (i: nat, node: Option<Addr>)
      requires Valid() && TakesNodes()
      modifies this
      ensures refused == old(refused) + (if node.None? then 1 else 0)
      ensures Valid() && Untouched() && live == old(live) && large == old(large) && owned == old(owned)
      ensures chain != [] && chain[0] == old(chain[0]) && block[chain[0]].end == old(block[chain[0]].end)
      ensures chain[0] in block
      ensures node.Some? ==>
        && node.value.chunk in block && Region(node.value.chunk, node.value.off, LARGE_NODE) in nodes
        && (i == |large| || (i < |large| && large[i] == Large(node.value, None)))
      decreases 1
    {
      hide ValidLive, ValidBlocks;
      i := 0;
      while i < |large| && large[i].data.Some?
        invariant 0 <= i <= |large|
      {
        i := i + 1;
      }
      if i < |large| {
        return i, Some(large[i].node);
      }
      node := Palloc(LARGE_NODE);
      if node.Some? {
        KeepAsNode(Region(node.value.chunk, node.value.off, LARGE_NODE));
      }
    }

    /** The large path. */
    method PallocLarge(size: nat) returns (p: Option<Addr>)
      requires Valid() && size > 0 && !Small(size) && TakesNodes()
      modifies this
      ensures Valid() && Untouched() && refused == old(refused) + (if p.None? then 1 else 0)
      ensures chain != [] && chain[0] == old(chain[0]) && block[chain[0]].end == old(block[chain[0]].end)
      ensures chain[0] in block
      ensures p.None? ==> live == old(live)
      ensures p.Some? ==>
        && p.value.off == 0 && p.value.chunk !in old(mem) && p.value.chunk in owned
        && p.value.chunk in mem && |mem[p.value.chunk]| == size
        && live == old(live) + {Region(p.value.chunk, 0, size)} && Region(p.value.chunk, 0, size) !in old(live)
      decreases 2
    {
      hide ValidLive, ValidBlocks, ValidLarge;
      var i, node := LargeNode();
      if node.None? {
        return None;
      }
      var ok, text := Malloc(size);
      if !ok {
        return None;
      }
      p := Some(Addr(nextId, 0));
      LinkLarge(i, node.value, text);
    }

    /** ehd_palloc. */
    method Palloc(size: nat) returns (p: Option<Addr>)
      requires Valid() && (Small(size) || TakesNodes())
      modifies this
      ensures Valid() && Untouched() && refused == old(refused) + (if p.None? then 1 else 0)
      ensures chain != [] && chain[0] == old(chain[0]) && block[chain[0]].end == old(block[chain[0]].end)
      ensures chain[0] in block && (old(TakesNodes()) ==> TakesNodes())
      ensures p.None? ==> live == old(live)
      ensures p.Some? ==>
        && live == old(live) + Allocation(p.value.chunk, p.value.off, size)
        && old(live) !! Allocation(p.value.chunk, p.value.off, size)
        && p.value.chunk in mem && p.value.off + size <= |mem[p.value.chunk]|
      ensures old(Small(size)) ==> forall i: nat | FirstFit(old(chain), old(block), size, i) ::
        && p == Some(Addr(old(chain)[i], old(block)[old(chain)[i]].last))
        && chain == old(chain) && mem == old(mem) && block == Taken(old(block), old(chain)[i], size)
      ensures old(Small(size)) && NoFit(old(chain), old(block), size) && p.Some? ==>
        && p.value.off == HEADER && p.value.chunk !in old(mem) && chain == old(chain) + [p.value.chunk]
      ensures old(Small(size)) ==>
        && large == old(large) && owned == old(owned) && nodes == old(nodes)
        && (p.Some? ==> p.value.chunk in block)
      ensures !old(Small(size)) && p.Some? ==>
        p.value.off == 0 && p.value.chunk !in old(mem) && |mem[p.value.chunk]| == size
      decreases if Small(size) then 0 else 3
    {
      hide ValidLive, ValidLarge, Disjoint, InBounds, FirstFit, NoFit;
      if size <= MAX_ALLOC_FROM_POOL && size <= block[chain[0]].end - HEADER {
        p := PallocSmall(size);
      } else {
        p := PallocLarge(size);
      }
    }

    /** The owner of an allocation writes into it; every other allocation keeps its bytes. */
    method Store(r: Region, at: nat, text: bytes)
      requires Valid() && r in live && at + |text| <= r.len
      modifies this`mem
      ensures Valid() && r.chunk in old(mem) && r.off + r.len <= |old(mem)[r.chunk]|
      ensures Preserves(old(mem), mem, live - {r})
      ensures mem == old(mem)[r.chunk := Written(old(mem)[r.chunk], r.off + at, text)]
    {
      hide ValidLarge, ValidBlocks;
      assert InBounds(r, block, mem);
      forall s | s in live - {r} ensures Disjoint(s, Region(r.chunk, r.off + at, |text|)) {
        assert Disjoint(s, r);
      }
      WriteKeepsAll(chain, block, large, mem, owned, live + nodes, r.chunk, Written(mem[r.chunk], r.off + at, text));
      StorePreserves(mem, r.chunk, r.off + at, text, mem, live - {r});
      mem := mem[r.chunk := Written(mem[r.chunk], r.off + at, text)];
    }

    /** ehd_pcalloc: the same memory, cleared; no other allocation is touched. */
    method Pcalloc(size: nat) returns (p: Option<Addr>)
      requires Valid() && (Small(size) || TakesNodes())
      modifies this
      ensures Valid() && (old(TakesNodes()) ==> TakesNodes()) && Preserves(old(mem), mem, old(live))
      ensures refused == old(refused) + (if p.None? then 1 else 0)
      ensures p.None? ==> live == old(live)
      ensures p.Some? ==> live == old(live) + Allocation(p.value.chunk, p.value.off, size)
      ensures p.Some? ==> old(live) !! Allocation(p.value.chunk, p.value.off, size)
      ensures p.Some? && size > 0 ==>
        && p.value.chunk in mem && p.value.off + size <= |mem[p.value.chunk]|
        && Read(Region(p.value.chunk, p.value.off, size)) == seq(size, _ => NUL)
    {
      hide ValidLive, ValidLarge, ValidBlocks, InBounds, Disjoint;
      p := Palloc(size);
      if p.Some? && size > 0 {
        Store(Region(p.value.chunk, p.value.off, size), 0, seq(size, _ => NUL));
      }
    }

    // ----- what an array does to the head block

    /** `p->last += size`: the allocation that ends at the head's last grows. */
    method GrowLast(r: Region, size: nat)
      requires Valid() && r in live && r.chunk == chain[0]
      requires r.off + r.len == block[chain[0]].last && HasRoom(block[chain[0]], size)
      modifies this`block, this`live
      ensures Valid() && block == Taken(old(block), chain[0], size)
      ensures live == old(live) - {r} + {Grown(r, size)} && Grown(r, size) !in old(live) - {r}
    {
      hide ValidLive, ValidBlocks, ValidLarge, InBounds, Disjoint;
      HeadIsThere();
      BlockFits(chain[0]);
      ghost var all := live + nodes;
      GrowKeepsLive(block, mem, all, r, size);
      MoveKeepsLists(chain, block, large, mem, owned, chain[0], block[chain[0]].last + size);
      ReplaceInUnion(live, nodes, r, Grown(r, size));
      live := live - {r} + {Grown(r, size)};
      block := block[chain[0] := Block(block[chain[0]].last + size, block[chain[0]].end)];
    }

    /** `p->last = r`: the allocation that ends at the head's last is given back. */
    method RetractLast(r: Region)
      requires Valid() && r in live && r.chunk == chain[0] && r.off + r.len == block[chain[0]].last
      modifies this`block, this`live
      ensures Valid() && block == old(block)[chain[0] := Block(r.off, old(block)[chain[0]].end)]
      ensures live == old(live) - {r}
    {
      hide ValidLive, ValidBlocks, ValidLarge, InBounds, Disjoint;
      HeadIsThere();
      BlockFits(chain[0]);
      ghost var all := live + nodes;
      RetractKeepsLive(block, mem, all, r);
      MoveKeepsLists(chain, block, large, mem, owned, chain[0], r.off);
      live := live - {r};
      assert live + nodes == all - {r};
      block := block[chain[0] := Block(r.off, block[chain[0]].end)];
    }

    // ----- destruction

    /** free: only of memory that is still there, so nothing is ever freed twice. */
    method Free(id: nat)
      requires id in mem
      modifies this`mem
      ensures mem == old(mem) - {id}
    {
      mem := mem - {id};
    }

    /** The first loop: every chunk that a large node owns. */
    method FreeLarge()
      requires Valid()
      modifies this`mem
      ensures mem == old(mem) - owned
    {
      ghost var gone: set<nat> := {};
      var i := 0;
      while i < |large|
        invariant 0 <= i <= |large| && gone <= owned && mem == old(mem) - gone
        invariant forall j | 0 <= j < i && large[j].data.Some? :: large[j].data.value in gone
        invariant forall id | id in gone :: exists j :: 0 <= j < i && large[j].data == Some(id)
      {
        assert large[i].node.chunk in mem;
        if large[i].data.Some? {
          Free(large[i].data.value);
          gone := gone + {large[i].data.value};
        }
        i := i + 1;
      }
      assert gone == owned;
    }

    /** The second loop: every block of the chain; the next block is still there when it is needed. */
    method FreeBlocks()
      requires chain != [] && mem.Keys == block.Keys
      requires forall i | 0 <= i < |chain| :: chain[i] in block
      requires forall i, j | 0 <= i < j < |chain| :: chain[i] != chain[j]
      requires forall id | id in block :: id in chain
      modifies this`mem
      ensures mem == map[]
    {
      ghost var gone: set<nat> := {};
      var i := 0;
      while true
        invariant 0 <= i < |chain| && mem.Keys == block.Keys - gone
        invariant forall j | i <= j < |chain| :: chain[j] !in gone
        invariant forall j | 0 <= j < i :: chain[j] in gone
        decreases |chain| - i
      {
        Free(chain[i]);
        gone := gone + {chain[i]};
        if i + 1 == |chain| {
          break;
        }
        i := i + 1;
        assert chain[i] in mem;
      }
      assert mem.Keys == {};
    }

    /**
     ehd_destroy_pool: after any history every chunk malloced for the pool is freed, each once,
     and no node or block header is read after its chunk is gone.
     */
    method Destroy()
      requires Valid()
      modifies this`mem
      ensures mem == map[]
    {
      FreeLarge();
      FreeBlocks();
    }
  }

  /** Every one of these allocations still holds the bytes it held before. */
  ghost predicate Preserves(before: Memory, after: Memory, live: set<Region>) {
    forall r | r in live && r.chunk in before && r.off + r.len <= |before[r.chunk]| ::
      && r.chunk in after && r.off + r.len <= |after[r.chunk]|
      && after[r.chunk][r.off..r.off + r.len] == before[r.chunk][r.off..r.off + r.len]
  }

  lemma PreservesItself(mem: Memory, live: set<Region>)
    ensures Preserves(mem, mem, live)
  {
  }

  /** Two steps that each preserve these allocations. */
  lemma PreservesBoth(first: Memory, second: Memory, third: Memory,
                      all: set<Region>, live: set<Region>, live': set<Region>)
    requires Preserves(first, second, all) && live <= all
    requires second == third || (Preserves(second, third, live') && live <= live')
    ensures Preserves(first, third, live)
  {
  }

  /** A write into a region disjoint from all of them preserves them. */
  lemma StorePreserves(m: Memory, chunk: nat, off: nat, text: bytes, before: Memory, live: set<Region>)
    requires chunk in m && off + |text| <= |m[chunk]|
    requires forall id | id in before :: id in m && m[id] == before[id]
    requires text != [] ==> forall r | r in live :: Disjoint(r, Region(chunk, off, |text|))
    ensures Preserves(before, m[chunk := Written(m[chunk], off, text)], live)
  {
    var w := Written(m[chunk], off, text);
    if text == [] {
      assert w == m[chunk];
    }
    forall r | r in live && r.chunk == chunk && r.off + r.len <= |m[chunk]|
      ensures w[r.off..r.off + r.len] == m[chunk][r.off..r.off + r.len]
    {
      assert text != [] ==> Disjoint(r, Region(chunk, off, |text|));
    }
  }

  /** memory m after text was written at off. */
  function Written(m: bytes, off: nat, text: bytes): (r: bytes)
    requires off + |text| <= |m|
    ensures |r| == |m| && r[off..off + |text|] == text
    ensures forall k | 0 <= k < off || off + |text| <= k < |m| :: r[k] == m[k]
  {
    m[..off] + text + m[off + |text|..]
  }

  /** Block i of the chain is the first one with room. */
  ghost predicate FirstFit(chain: seq<nat>, block: Blocks, size: nat, i: nat) {
    && i < |chain| && chain[i] in block && block[chain[i]].end - block[chain[i]].last >= size
    && forall j: nat | j < i :: chain[j] in block && block[chain[j]].end - block[chain[j]].last < size
  }

  /** No block has room. */
  ghost predicate NoFit(chain: seq<nat>, block: Blocks, size: nat) {
    forall j: nat | j < |chain| :: chain[j] in block && block[chain[j]].end - block[chain[j]].last < size
  }

  lemma FitFound(chain: seq<nat>, block: Blocks, size: nat, i: nat)
    requires FirstFit(chain, block, size, i)
    ensures !NoFit(chain, block, size) && forall j: nat :: FirstFit(chain, block, size, j) ==> j == i
  {
  }

  lemma NoFitFound(chain: seq<nat>, block: Blocks, size: nat)
    requires NoFit(chain, block, size)
    ensures forall j: nat :: !FirstFit(chain, block, size, j)
  {
  }
}
