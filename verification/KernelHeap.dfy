/** The kernel heap of kernel/mm.c in its own form: pointers into memory. The list a pointer stands for is a
    ghost argument h. */
module KernelHeap {
  import opened Machine
  import ByteMemory
  import opened HeapModel
  import opened Headers
  import opened HeapMemory
  import opened HeapRuns
  import opened HeapContents

  class Allocator {
    const start: nat
    const end: nat
    // kernel_heap_current and heap_free_list
    var current: nat
    var head: nat
    // The address space.
    const mem: array<bv8>

    ghost function Now(): Image
      reads this, mem
    {
      Image(mem[..], head)
    }

    // The list in memory is h.
    ghost predicate Is(h: Heap)
      reads this, mem
    {
      mem.Length == WORD && h.start == start && h.end == end && h.current == current && Follows(Now(), h)
    }

    // What mm_init sets up.
    constructor (mem: array<bv8>, start: nat, end: nat)
      requires mem.Length == WORD && 0 < start <= end < WORD
      ensures this.mem == mem && this.start == start && this.end == end && Is(Empty(start, end))
    {
      this.mem, this.start, this.end, this.current, this.head := mem, start, end, start, 0;
    }

    // ----- Stores to a header -----

    method Put(a: nat, bytes: seq<bv8>)
      requires a + |bytes| <= mem.Length
      modifies mem
      ensures mem[..] == Store(old(mem[..]), a, bytes)
    {
      forall k | 0 <= k < |bytes| {
        mem[a + k] := bytes[k];
      }
    }

    method PutSize(a: nat, v: nat)
      requires a + HDR <= mem.Length
      modifies mem
      ensures mem[..] == SetSize(old(mem[..]), a, v)
    {
      Put(a, Encode(v, 8));
    }

    method PutUsed(a: nat, used: bool)
      requires a + HDR <= mem.Length
      modifies mem
      ensures mem[..] == SetUsed(old(mem[..]), a, used)
    {
      Put(a + 8, [if used then 1 else 0]);
    }

    method PutNext(a: nat, v: nat)
      requires a + HDR <= mem.Length
      modifies mem
      ensures mem[..] == SetNext(old(mem[..]), a, v)
    {
      Put(a + 16, Encode(v, 8));
    }

    // ----- kmalloc -----

    method Split(a: nat, r: nat, sz: nat)
      requires mem.Length == WORD && a + HDR <= WORD && r + HDR <= WORD
      modifies mem
      ensures mem[..] == SplitStores(old(mem[..]), a, r, sz)
    {
      PutSize(r, Rest(SizeAt(mem[..], a), sz));
      PutUsed(r, false);
      PutNext(r, NextAt(mem[..], a));
      PutSize(a, sz);
      PutNext(a, r);
    }

    // No block fits: a new one at kernel_heap_current, if there is room.
    method Bump(sz: nat) returns (ptr: nat)
      requires mem.Length == WORD && (Up(current, sz) <= end ==> current + HDR <= WORD)
      modifies this`current, this`head, mem
      ensures Up(old(current), sz) > end ==> ptr == 0 && Now() == old(Now()) && current == old(current)
      ensures Up(old(current), sz) <= end ==>
        && ptr == old(current) + HDR && current == Up(old(current), sz)
        && Now() == Image(BumpStores(old(mem[..]), old(current), sz, old(head)), old(current))
    {
      if Up(current, sz) > end {
        return 0;
      }
      PutSize(current, sz);
      PutUsed(current, true);
      PutNext(current, head);
      head := current;
      ptr := current + HDR;
      current := Up(current, sz);
    }

    // The free block at a is taken; size is its size.
    method Take(a: nat, sz: nat, ghost size: nat)
      requires mem.Length == WORD && a + HDR <= WORD && SizeAt(SetUsed(mem[..], a, true), a) == size
      requires size > (sz + HDR) % WORD ==> a + HDR + sz + HDR <= WORD
      modifies mem
      ensures mem[..] == TakeStores(old(mem[..]), a, sz, size)
    {
      PutUsed(a, true);
      if SizeAt(mem[..], a) > (sz + HDR) % WORD {
        Split(a, a + HDR + sz, sz);
      }
    }

    // The walk along the next pointers ends at the first block that fits, or at null.
    method Search(sz: nat, ghost h: Heap) returns (block: nat)
      requires Is(h)
      ensures block == AddrOf(h.blocks, FirstFit(h.blocks, sz)) && (block == 0 <==> FirstFit(h.blocks, sz) == |h.blocks|)
    {
      block := head;
      ghost var i := 0;
      while block != 0
        invariant i <= |h.blocks| && block == AddrOf(h.blocks, i)
        invariant forall j :: 0 <= j < i ==> !Fits(h.blocks[j], sz)
        decreases |h.blocks| - i
      {
        Fields(mem[..], head, h.blocks, i);
        if !UsedAt(mem[..], block) && SizeAt(mem[..], block) >= sz {
          FirstFitIs(h.blocks, sz, i);
          return;
        }
        block := NextAt(mem[..], block);
        i := i + 1;
      }
      NoneFits(mem[..], head, h, sz, i);
    }

    // The memory after the step and the address returned are the specified ones. The list in memory is then the
    // specified one exactly when the header that kmalloc wrote met none of the list.
    method Kmalloc(size: nat, ghost h: Heap) returns (ptr: nat)
      requires Is(h) && Callable(h, MallocOp(size))
      modifies this`current, this`head, mem
      ensures ptr == Malloc(h, size).1 && current == Malloc(h, size).0.current
      ensures Now() == StepMemory(old(Now()), h, MallocOp(size))
      ensures Lists(mem[..], head, Malloc(h, size).0.blocks) <==> Clear(h, size)
    {
      ghost var m, list := mem[..], head;
      HeadersInSpace(m, list, h.blocks);
      if size == 0 {
        ptr := 0;
      } else {
        var sz := Round8(size);
        var block := Search(sz, h);
        if block != 0 {
          TakeMemory(m, list, h, size, FirstFit(h.blocks, sz), block, sz);
          Take(block, sz, h.blocks[FirstFit(h.blocks, sz)].size);
          ptr := block + HDR;
        } else {
          BumpMemory(m, list, h, size, sz);
          ptr := Bump(sz);
        }
      }
      MallocFollows(m, list, h, size);
    }

    // ----- kfree -----

    method Kfree(ptr: nat, ghost h: Heap)
      requires Is(h) && Callable(h, FreeOp(ptr))
      modifies mem
      ensures Now() == StepMemory(old(Now()), h, FreeOp(ptr)) && Is(Free(h, ptr))
    {
      if ptr == 0 {
        return;
      }
      ghost var m := mem[..];
      ghost var i := IndexOf(h.blocks, ptr - HDR);
      var a := ptr - HDR;
      Reads(m, head, h.blocks, i);
      FreeFollows(m, head, h, ptr);
      PutUsed(a, false);
      SetUsedIs(m, a, false);
      var n := NextAt(mem[..], a);
      if n != 0 && !UsedAt(mem[..], n) {
        PutSize(a, Sum(SizeAt(mem[..], a), SizeAt(mem[..], n)));
        PutNext(a, NextAt(mem[..], n));
      }
    }

    // ----- Both in a tiled heap -----

    method TiledKmalloc(size: nat, ghost h: Heap) returns (ptr: nat)
      requires Is(h) && Tiles(h) && size < WORD && !WrapsIn(h, size)
      modifies this`current, this`head, mem
      ensures ptr == Malloc(h, size).1 && Is(Malloc(h, size).0) && Tiles(Malloc(h, size).0)
      ensures Spared(old(mem[..]), mem[..], h.blocks)
    {
      TiledIsClear(h, size);
      HeadersInSpace(mem[..], head, h.blocks);
      MallocSpares(mem[..], head, h, size);
      MallocTiles(h, size);
      ptr := Kmalloc(size, h);
    }

    method TiledKfree(ptr: nat, ghost h: Heap)
      requires Is(h) && Tiles(h) && IsBlock(h, ptr)
      modifies mem
      ensures Is(Free(h, ptr))
      ensures AllSame(old(mem[..]), mem[..], h.blocks)
    {
      Reads(mem[..], head, h.blocks, IndexOf(h.blocks, ptr - HDR));
      FreeSpares(mem[..], head, h, ptr);
      Kfree(ptr, h);
    }

    // ----- krealloc -----

    method Copy(dest: nat, src: nat, n: nat)
      requires dest + n <= mem.Length && src + n <= mem.Length && (dest + n <= src || src + n <= dest)
      modifies mem
      ensures OnlyBytes(old(mem[..]), mem[..], dest, n)
      ensures mem[..][dest..dest + n] == old(mem[..])[src..src + n]
    {
      ByteMemory.Memcpy(mem, 0, dest, src, n);
      CopiedBytes(old(mem[..]), mem[..], dest, src, n);
    }

    // block->size
    method BlockSize(ptr: nat, ghost h: Heap) returns (size: nat)
      requires Is(h) && IsBlock(h, ptr)
      ensures size == BlockAt(h, ptr).size
    {
      Fields(mem[..], head, h.blocks, IndexOf(h.blocks, ptr - HDR));
      size := SizeAt(mem[..], ptr - HDR);
    }

    method CopyBlock(ptr: nat, r: nat, n: nat, ghost m0: Memory, ghost h: Heap, ghost h1: Heap, ghost g: Block, ghost b: Block)
      requires Is(h1) && Allocated(h, h1, g) && b in h.blocks && b.used && n == b.size <= g.size
      requires r == g.Payload() && ptr == b.Payload() && Spared(m0, mem[..], h.blocks)
      modifies mem
      ensures Is(h1) && Spared(m0, mem[..], h.blocks)
      ensures Moved(m0, mem[..], r, ptr, n)
    {
      ghost var m1 := mem[..];
      StillListed(h, h1, g, b);
      assert Same(m0, m1, b.Payload(), b.size);
      Copy(r, ptr, n);
      Copied(m0, m1, mem[..], head, h, h1, g, b, r);
    }

    // The copy and the release: the bytes of b are then in g, and no block of h in use has changed.
    method CopyAndFree(ptr: nat, r: nat, newSize: nat,
                       ghost m0: Memory, ghost h: Heap, ghost h1: Heap, ghost g: Block, ghost b: Block)
      requires Is(h1) && Allocated(h, h1, g) && b in h.blocks && b.used && b.size <= g.size && b.size < newSize
      requires r == g.Payload() && ptr == b.Payload() && Spared(m0, mem[..], h.blocks)
      modifies mem
      ensures IsBlock(h1, ptr) && Is(Free(h1, ptr)) && Spared(m0, mem[..], h.blocks)
      ensures Moved(m0, mem[..], r, ptr, b.size)
    {
      StillListed(h, h1, g, b);
      var size := BlockSize(ptr, h1);
      CopyBlock(ptr, r, if size < newSize then size else newSize, m0, h, h1, g, b);
      ghost var m2 := mem[..];
      TiledKfree(ptr, h1);
      CopiedFreed(m0, m2, mem[..], h, h1, g, b, r, ptr, size);
    }

    method Move(ptr: nat, newSize: nat, ghost h: Heap) returns (r: nat)
      requires Is(h) && Tiles(h) && newSize < WORD && !WrapsIn(h, newSize)
      requires IsBlock(h, ptr) && BlockAt(h, ptr).used && BlockAt(h, ptr).size < newSize && CopyFits(h, ptr, newSize)
      modifies this`current, this`head, mem
      ensures r == Realloc(h, ptr, newSize).1 && Is(Realloc(h, ptr, newSize).0)
      ensures r != 0 ==> Moved(old(mem[..]), mem[..], r, ptr, BlockAt(h, ptr).size)
      ensures Spared(old(mem[..]), mem[..], h.blocks)
    {
      ghost var m0, b := mem[..], BlockAt(h, ptr);
      ReallocMoves(h, ptr, newSize);
      r := TiledKmalloc(newSize, h);
      if r != 0 {
        ghost var g := Allocates(h, ptr, newSize);
        CopyAndFree(ptr, r, newSize, m0, h, Malloc(h, newSize).0, g, b);
      }
    }

    // krealloc on a block in use: the old bytes move along, and no block in use is disturbed.
    method Krealloc(ptr: nat, newSize: nat, ghost h: Heap) returns (r: nat)
      requires Is(h) && Tiles(h) && newSize < WORD && !WrapsIn(h, newSize)
      requires ptr != 0 ==> IsBlock(h, ptr) && BlockAt(h, ptr).used && CopyFits(h, ptr, newSize)
      modifies this`current, this`head, mem
      ensures r == Realloc(h, ptr, newSize).1 && Is(Realloc(h, ptr, newSize).0)
      ensures ptr != 0 && r != 0 ==>
        Moved(old(mem[..]), mem[..], r, ptr, if BlockAt(h, ptr).size < newSize then BlockAt(h, ptr).size else newSize)
      ensures Spared(old(mem[..]), mem[..], h.blocks)
    {
      TiledInside(h);
      if ptr == 0 {
        r := TiledKmalloc(newSize, h);
      } else if newSize == 0 {
        TiledKfree(ptr, h);
        r := 0;
      } else {
        var size := BlockSize(ptr, h);
        if size >= newSize {
          r := ptr;
        } else {
          r := Move(ptr, newSize, h);
        }
      }
    }
  }

  lemma CopiedBytes(before: seq<bv8>, after: seq<bv8>, d: nat, s: nat, n: nat)
    requires ByteMemory.Copied(before, after, d, s, n)
    ensures OnlyBytes(before, after, d, n) && after[d..d + n] == before[s..s + n]
  {
  }

  // krealloc when the block is too small and kmalloc has kept it on the list.
  lemma ReallocMoves(h: Heap, ptr: nat, newSize: nat)
    requires ptr != 0 && newSize != 0 && IsBlock(h, ptr) && BlockAt(h, ptr).size < newSize
    ensures var m := Malloc(h, newSize);
      Realloc(h, ptr, newSize) == if m.1 == 0 || !IsBlock(m.0, ptr) then (h, 0) else (Free(m.0, ptr), m.1)
    ensures Malloc(h, newSize).1 == 0 ==> Malloc(h, newSize).0 == h
  {
  }

  // krealloc in a tiled heap: null asks for a new block, size 0 releases, a block that is large enough stays, and
  // otherwise the block is released once kmalloc has given a new one; without one nothing changes.
  lemma ReallocIs(h: Heap, ptr: nat, newSize: nat)
    requires Tiles(h) && newSize < WORD && !WrapsIn(h, newSize)
    requires ptr != 0 ==> IsBlock(h, ptr) && BlockAt(h, ptr).used
    ensures ptr == 0 ==> Realloc(h, ptr, newSize) == Malloc(h, newSize)
    ensures ptr != 0 && newSize == 0 ==> Realloc(h, ptr, newSize) == (Free(h, ptr), 0)
    ensures ptr != 0 && 0 < newSize <= BlockAt(h, ptr).size ==> Realloc(h, ptr, newSize) == (h, ptr)
    ensures ptr != 0 && newSize > BlockAt(h, ptr).size ==>
      var (h1, r) := Malloc(h, newSize);
      if r == 0 then Realloc(h, ptr, newSize) == (h, 0)
      else IsBlock(h1, ptr) && Realloc(h, ptr, newSize) == (Free(h1, ptr), r)
  {
    if ptr != 0 && newSize > BlockAt(h, ptr).size && Malloc(h, newSize).1 != 0 {
      ListedStays(h, ptr, newSize);
    }
  }

  lemma ListedStays(h: Heap, ptr: nat, newSize: nat)
    requires Tiles(h) && newSize < WORD && !WrapsIn(h, newSize) && IsBlock(h, ptr) && BlockAt(h, ptr).used
    ensures IsBlock(Malloc(h, newSize).0, ptr)
  {
    MallocGives(h, newSize);
    var b, blocks := BlockAt(h, ptr), Malloc(h, newSize).0.blocks;
    assert b in h.blocks && b in blocks;
    var j :| 0 <= j < |blocks| && blocks[j] == b;
  }

  // What the header of block i reads.
  lemma Fields(m: Memory, head: nat, blocks: seq<Block>, i: nat)
    requires Lists(m, head, blocks) && (i < |blocks| || AddrOf(blocks, i) != 0)
    ensures i < |blocks| && blocks[i].addr + HDR <= |m| && SizeAt(m, blocks[i].addr) == blocks[i].size
    ensures UsedAt(m, blocks[i].addr) == blocks[i].used && NextAt(m, blocks[i].addr) == AddrOf(blocks, i + 1)
  {
    Listed(m, head, blocks, i);
  }

  // current + size + sizeof(struct heap_block)
  function Up(current: nat, size: nat): nat { (current + size + HDR) % WORD }

  function TakeStores(m: Memory, a: nat, sz: nat, size: nat): (m': Memory)
    requires a + HDR <= |m| && (size > (sz + HDR) % WORD ==> a + HDR + sz + HDR <= |m|)
    ensures |m'| == |m|
  {
    var taken := SetUsed(m, a, true);
    if size > (sz + HDR) % WORD then SplitStores(taken, a, a + HDR + sz, sz) else taken
  }

  lemma TakenReads(m: Memory, b: Block, next: nat)
    requires Stands(m, b, next)
    ensures SizeAt(SetUsed(m, b.addr, true), b.addr) == b.size
  {
    SetUsedIs(m, b.addr, true);
  }

  lemma TakeMemory(m: Memory, head: nat, h: Heap, size: nat, i: nat, a: nat, sz: nat)
    requires Lists(m, head, h.blocks) && InSpace(h, size) && Within(h.blocks)
    requires size != 0 && sz == Round8(size) && FirstFit(h.blocks, sz) == i < |h.blocks| && h.blocks[i].addr == a
    ensures a + HDR <= |m| && SizeAt(SetUsed(m, a, true), a) == h.blocks[i].size
    ensures h.blocks[i].size > (sz + HDR) % WORD ==> a + HDR + sz + HDR <= |m|
    ensures MallocMemory(m, h, size) == TakeStores(m, a, sz, h.blocks[i].size) && MallocHead(h, head, size) == head
    ensures Malloc(h, size).1 == a + HDR && Malloc(h, size).0.current == h.current
  {
    Listed(m, head, h.blocks, i);
    TakenReads(m, h.blocks[i], AddrOf(h.blocks, i + 1));
    if h.blocks[i].size > (sz + HDR) % WORD {
      TakeSplits(m, head, h, size, i, a, sz);
    } else {
      MarkCase(m, head, h, size);
    }
  }

  lemma TakeSplits(m: Memory, head: nat, h: Heap, size: nat, i: nat, a: nat, sz: nat)
    requires |m| == WORD && InSpace(h, size) && Within(h.blocks) && a + HDR <= |m|
    requires size != 0 && sz == Round8(size) && FirstFit(h.blocks, sz) == i < |h.blocks| && h.blocks[i].addr == a
    requires h.blocks[i].size > (sz + HDR) % WORD
    ensures a + HDR + sz + HDR <= |m| && MallocHead(h, head, size) == head
    ensures MallocMemory(m, h, size) == SplitStores(SetUsed(m, a, true), a, a + HDR + sz, sz)
    ensures Malloc(h, size).1 == a + HDR && Malloc(h, size).0.current == h.current
  {
    SplitCase(m, head, h, size);
  }

  lemma BumpMemory(m: Memory, head: nat, h: Heap, size: nat, sz: nat)
    requires Lists(m, head, h.blocks) && InSpace(h, size) && Within(h.blocks) && 0 < h.current
    requires size != 0 && sz == Round8(size) && FirstFit(h.blocks, sz) == |h.blocks|
    ensures Up(h.current, sz) > h.end ==>
      MallocMemory(m, h, size) == m && MallocHead(h, head, size) == head && Malloc(h, size) == (h, 0)
    ensures Up(h.current, sz) <= h.end ==>
      && h.current + HDR <= WORD && MallocMemory(m, h, size) == BumpStores(m, h.current, sz, head)
      && MallocHead(h, head, size) == h.current && Malloc(h, size).1 == h.current + HDR
      && Malloc(h, size).0.current == Up(h.current, sz)
  {
    if Up(h.current, sz) <= h.end { BumpCase(m, head, h, size); } else { NoChange(m, head, h, size); }
  }

  lemma NoneFits(m: Memory, head: nat, h: Heap, sz: nat, i: nat)
    requires Lists(m, head, h.blocks) && i <= |h.blocks| && AddrOf(h.blocks, i) == 0
    requires forall j :: 0 <= j < i ==> !Fits(h.blocks[j], sz)
    ensures FirstFit(h.blocks, sz) == |h.blocks|
  {
    if i < |h.blocks| { Listed(m, head, h.blocks, i); }
  }

  lemma FirstFitIs(blocks: seq<Block>, size: nat, i: nat)
    requires i <= |blocks| && (forall j :: 0 <= j < i ==> !Fits(blocks[j], size))
    requires i < |blocks| ==> Fits(blocks[i], size)
    ensures FirstFit(blocks, size) == i
  {
  }
}
