/** The bytes behind the blocks: what the stores of kmalloc, kfree and a copy leave alone in a tiled heap. */
module HeapContents {
  import opened Machine
  import opened HeapModel
  import opened Headers
  import opened HeapMemory

  // The n bytes at p are the same.
  ghost predicate Same(m: Memory, m': Memory, p: nat, n: nat) {
    |m'| == |m| && p + n <= |m| && m'[p..p + n] == m[p..p + n]
  }

  // No byte of the header at a lies in the n bytes at p.
  predicate Beside(a: nat, p: nat, n: nat) { a + HDR <= p || p + n <= a }

  // No block changes.
  ghost predicate AllSame(m: Memory, m': Memory, blocks: seq<Block>) {
    forall c :: c in blocks ==> Same(m, m', c.Payload(), c.size)
  }

  // The n bytes at p of m0 are at t in m.
  ghost predicate Moved(m0: Memory, m: Memory, t: nat, p: nat, n: nat) {
    t + n <= |m| && p + n <= |m0| && m[t..t + n] == m0[p..p + n]
  }

  // No block in use changes.
  ghost predicate Spared(m: Memory, m': Memory, blocks: seq<Block>) {
    forall c :: c in blocks && c.used ==> Same(m, m', c.Payload(), c.size)
  }

  lemma SameBeside(m: Memory, m': Memory, a: nat, r: nat, p: nat, n: nat)
    requires OnlyHeaders(m, m', a, r) && Beside(a, p, n) && Beside(r, p, n) && p + n <= |m|
    ensures Same(m, m', p, n)
  {
    assert forall x :: p <= x < p + n ==> m'[x] == m[x];
  }

  lemma SameTwice(m: Memory, m1: Memory, m2: Memory, p: nat, n: nat)
    requires Same(m, m1, p, n) && Same(m1, m2, p, n)
    ensures Same(m, m2, p, n)
  {
  }

  // The header at a lies beside the payload of every block in use.
  ghost predicate BesideUsed(a: nat, blocks: seq<Block>) {
    forall c :: c in blocks && c.used ==> Beside(a, c.Payload(), c.size)
  }

  // The headers kmalloc writes.
  lemma MallocTouches(m: Memory, head: nat, h: Heap, size: nat) returns (a: nat, r: nat)
    requires Lists(m, head, h.blocks) && Tiles(h) && 0 < h.start && size < WORD && !WrapsIn(h, size) && InSpace(h, size)
    requires Within(h.blocks)
    ensures OnlyHeaders(m, MallocMemory(m, h, size), a, r) && BesideUsed(a, h.blocks) && BesideUsed(r, h.blocks)
  {
    var i := FirstFit(h.blocks, Round8(size));
    if Splits(h, size) {
      a, r := h.blocks[i].addr, NewHeader(h, size);
      SplitTouches(m, head, h, size, i, r);
    } else if Marks(h, size) {
      a, r := h.blocks[i].addr, h.blocks[i].addr;
      MarkCase(m, head, h, size);
      SetUsedIs(m, a, true);
      BlockBeside(h, i, a);
    } else if Bumps(h, size) {
      a, r := h.current, h.current;
      BumpTouches(m, head, h, size);
    } else {
      a, r := h.end, h.end;
      TiledInside(h);
      NoChange(m, head, h, size);
    }
  }

  lemma SplitTouches(m: Memory, head: nat, h: Heap, size: nat, i: nat, r: nat)
    requires Lists(m, head, h.blocks) && Tiles(h) && InSpace(h, size) && Splits(h, size) && i == FirstFit(h.blocks, Round8(size))
    requires Within(h.blocks)
    requires r == NewHeader(h, size)
    ensures OnlyHeaders(m, MallocMemory(m, h, size), h.blocks[i].addr, r)
    ensures BesideUsed(h.blocks[i].addr, h.blocks) && BesideUsed(r, h.blocks)
  {
    SplitInside(h, i, Round8(size), r);
    SplitWrites(m, head, h, size, i, r);
  }

  lemma SplitWrites(m: Memory, head: nat, h: Heap, size: nat, i: nat, r: nat)
    requires Lists(m, head, h.blocks) && InSpace(h, size) && Splits(h, size) && i == FirstFit(h.blocks, Round8(size))
    requires Within(h.blocks)
    requires r == NewHeader(h, size) && Apart(h.blocks[i].addr, r)
    ensures OnlyHeaders(m, MallocMemory(m, h, size), h.blocks[i].addr, r)
  {
    SplitCase(m, head, h, size);
    Listed(m, head, h.blocks, i);
    SplitStoresIs(m, h.blocks[i], AddrOf(h.blocks, i + 1), r, Round8(size));
  }

  lemma BumpTouches(m: Memory, head: nat, h: Heap, size: nat)
    requires Lists(m, head, h.blocks) && Tiles(h) && 0 < h.start && InSpace(h, size) && Bumps(h, size)
    requires Within(h.blocks)
    ensures OnlyHeader(m, MallocMemory(m, h, size), h.current) && BesideUsed(h.current, h.blocks)
  {
    BumpCase(m, head, h, size);
    HeadListed(m, head, h.blocks);
    BumpIs(m, h.current, Round8(size), head);
    TiledInside(h);
  }

  lemma TiledInside(h: Heap)
    requires Tiles(h)
    ensures forall c :: c in h.blocks ==> h.start <= c.addr && c.End() <= h.current
  {
    forall c | c in h.blocks ensures h.start <= c.addr && c.End() <= h.current {
      var j :| 0 <= j < |h.blocks| && h.blocks[j] == c;
      TilesApart(h, j, j);
    }
  }

  // A header inside block i is beside every other block.
  lemma BlockBeside(h: Heap, i: nat, a: nat)
    requires Tiles(h) && i < |h.blocks| && !h.blocks[i].used && h.blocks[i].addr <= a && a + HDR <= h.blocks[i].End()
    ensures BesideUsed(a, h.blocks)
  {
    forall c | c in h.blocks && c.used ensures Beside(a, c.Payload(), c.size) {
      var j :| 0 <= j < |h.blocks| && h.blocks[j] == c;
      TilesApart(h, i, j);
    }
  }

  lemma SplitInside(h: Heap, i: nat, sz: nat, r: nat)
    requires Tiles(h) && i < |h.blocks| && Fits(h.blocks[i], sz) && h.blocks[i].size > (sz + HDR) % WORD
    requires r == h.blocks[i].Payload() + sz
    ensures Apart(h.blocks[i].addr, r) && BesideUsed(h.blocks[i].addr, h.blocks) && BesideUsed(r, h.blocks)
  {
    TilesApart(h, i, i);
    BlockBeside(h, i, h.blocks[i].addr);
    BlockBeside(h, i, r);
  }

  // kmalloc changes no byte of a block in use.
  lemma MallocSpares(m: Memory, head: nat, h: Heap, size: nat)
    requires Lists(m, head, h.blocks) && Tiles(h) && 0 < h.start && size < WORD && !WrapsIn(h, size) && InSpace(h, size)
    requires Within(h.blocks)
    ensures Spared(m, MallocMemory(m, h, size), h.blocks)
  {
    var a, r := MallocTouches(m, head, h, size);
    TiledInside(h);
    forall c | c in h.blocks && c.used ensures Same(m, MallocMemory(m, h, size), c.Payload(), c.size) {
      SameBeside(m, MallocMemory(m, h, size), a, r, c.Payload(), c.size);
    }
  }

  lemma FreeTouches(m: Memory, head: nat, h: Heap, ptr: nat)
    requires Lists(m, head, h.blocks) && IsBlock(h, ptr) && ptr <= |m| && NextAt(m, ptr - HDR) + HDR <= |m|
    ensures OnlyHeader(m, FreeMemory(m, ptr), ptr - HDR)
  {
    var i := IndexOf(h.blocks, ptr - HDR);
    var a := ptr - HDR;
    var m1 := SetUsed(m, a, false);
    Reads(m, head, h.blocks, i);
    FreeStores(m, head, h.blocks, i, a);
    SetUsedIs(m, a, false);
    if Merges(h.blocks, i) {
      var x := h.blocks[i := h.blocks[i].(used := false)];
      MarkFollows(m, head, h.blocks, i, false);
      Listed(m1, head, x, i);
      Listed(m1, head, x, i + 1);
      ApartFrom(x, i, i + 1);
      MergeIs(m1, x[i], x[i + 1], AddrOf(x, i + 2));
      OneHeader(m, m1, FreeMemory(m, ptr), a);
    }
  }

  // Neither does kfree.
  lemma FreeSpares(m: Memory, head: nat, h: Heap, ptr: nat)
    requires Lists(m, head, h.blocks) && Tiles(h) && IsBlock(h, ptr) && ptr <= |m| && NextAt(m, ptr - HDR) + HDR <= |m|
    ensures AllSame(m, FreeMemory(m, ptr), h.blocks)
  {
    FreeTouches(m, head, h, ptr);
    TiledInside(h);
    forall c | c in h.blocks ensures Same(m, FreeMemory(m, ptr), c.Payload(), c.size) {
      var j :| 0 <= j < |h.blocks| && h.blocks[j] == c;
      TilesApart(h, IndexOf(h.blocks, ptr - HDR), j);
      SameBeside(m, FreeMemory(m, ptr), ptr - HDR, ptr - HDR, c.Payload(), c.size);
    }
  }

  // ----- A copy into a payload -----

  // Only the n bytes at d differ.
  ghost predicate OnlyBytes(m: Memory, m': Memory, d: nat, n: nat) {
    |m'| == |m| && d + n <= |m| && forall x :: 0 <= x < d || d + n <= x < |m| ==> m'[x] == m[x]
  }

  lemma HeaderStays(m: Memory, m': Memory, d: nat, n: nat, b: Block, next: nat)
    requires OnlyBytes(m, m', d, n) && Beside(b.addr, d, n) && Stands(m, b, next)
    ensures Stands(m', b, next)
  {
    assert m'[b.addr..b.addr + 8] == m[b.addr..b.addr + 8];
    assert m'[b.addr + 16..b.addr + 16 + 8] == m[b.addr + 16..b.addr + 16 + 8];
  }

  // A copy into the payload of block t leaves the list and every other payload as they were.
  lemma CopySpares(m: Memory, m': Memory, head: nat, h: Heap, t: nat, n: nat)
    requires Lists(m, head, h.blocks) && Tiles(h) && t < |h.blocks| && n <= h.blocks[t].size
    requires OnlyBytes(m, m', h.blocks[t].Payload(), n)
    ensures Lists(m', head, h.blocks)
    ensures forall c :: c in h.blocks && c != h.blocks[t] ==> Same(m, m', c.Payload(), c.size)
  {
    var d := h.blocks[t].Payload();
    TiledInside(h);
    forall k | 0 <= k < |h.blocks| ensures ListedAt(m', h.blocks, k) {
      assert ListedAt(m, h.blocks, k);
      TilesApart(h, t, k);
      HeaderStays(m, m', d, n, h.blocks[k], AddrOf(h.blocks, k + 1));
    }
    forall c | c in h.blocks && c != h.blocks[t] ensures Same(m, m', c.Payload(), c.size) {
      var j :| 0 <= j < |h.blocks| && h.blocks[j] == c;
      TilesApart(h, t, j);
      assert forall x :: c.Payload() <= x < c.End() ==> m'[x] == m[x];
    }
  }

  // ----- krealloc -----

  function BlockAt(h: Heap, ptr: nat): Block
    requires IsBlock(h, ptr)
  {
    h.blocks[IndexOf(h.blocks, ptr - HDR)]
  }

  // What krealloc copies fits the block that kmalloc gave it.
  predicate CopyFits(h: Heap, ptr: nat, newSize: nat)
    requires IsBlock(h, ptr)
  {
    var b, r := BlockAt(h, ptr), Malloc(h, newSize);
    b.size < newSize && r.1 != 0 ==> IsBlock(r.0, r.1) && b.size <= BlockAt(r.0, r.1).size
  }

  // The block behind the address kmalloc returned.
  lemma NewBlock(h: Heap, size: nat) returns (b: Block)
    requires Tiles(h) && size < WORD && !WrapsIn(h, size) && Malloc(h, size).1 != 0
    ensures IsBlock(Malloc(h, size).0, Malloc(h, size).1) && b == BlockAt(Malloc(h, size).0, Malloc(h, size).1)
    ensures b.used && b.Payload() == Malloc(h, size).1 && ClearOf(b, h.blocks) && Given(b, size)
    ensures LivesOn(h.blocks, Malloc(h, size).0.blocks) && Tiles(Malloc(h, size).0)
  {
    MallocGives(h, size);
    MallocTiles(h, size);
    b :| b in Malloc(h, size).0.blocks && b.used && b.Payload() == Malloc(h, size).1 && ClearOf(b, h.blocks) && Given(b, size);
    Found(Malloc(h, size).0, b);
  }

  lemma Found(h: Heap, b: Block)
    requires Tiles(h) && b in h.blocks
    ensures IsBlock(h, b.Payload()) && BlockAt(h, b.Payload()) == b
  {
    var i :| 0 <= i < |h.blocks| && h.blocks[i] == b;
    if IndexOf(h.blocks, b.addr) != i { TilesApart(h, i, IndexOf(h.blocks, b.addr)); }
  }

  // A block larger than a header fits the new one exactly when rounding the new size up does not wrap.
  lemma MoveFits(h: Heap, ptr: nat, newSize: nat)
    requires Tiles(h) && newSize < WORD && !WrapsIn(h, newSize) && IsBlock(h, ptr)
    requires BlockAt(h, ptr).size < newSize && Malloc(h, newSize).1 != 0
    ensures newSize + 7 < WORD ==> CopyFits(h, ptr, newSize)
    ensures BlockAt(h, ptr).size > HDR ==> (CopyFits(h, ptr, newSize) <==> newSize + 7 < WORD)
  {
    var b := NewBlock(h, newSize);
  }

  // h1 is h with the block g taken for a request.
  ghost predicate Allocated(h: Heap, h1: Heap, g: Block) {
    && Tiles(h) && Tiles(h1) && g in h1.blocks && ClearOf(g, h.blocks) && LivesOn(h.blocks, h1.blocks)
  }

  lemma Allocates(h: Heap, ptr: nat, newSize: nat) returns (g: Block)
    requires Tiles(h) && newSize < WORD && !WrapsIn(h, newSize) && IsBlock(h, ptr)
    requires Malloc(h, newSize).1 != 0 && CopyFits(h, ptr, newSize) && BlockAt(h, ptr).size < newSize
    ensures Allocated(h, Malloc(h, newSize).0, g) && g.Payload() == Malloc(h, newSize).1
    ensures BlockAt(h, ptr).size <= g.size
  {
    g := NewBlock(h, newSize);
    var r := Malloc(h, newSize);
    var i := IndexOf(r.0.blocks, r.1 - HDR);
    assert r.0.blocks[i] == g;
  }

  // The old block is still listed, and beside the new one.
  lemma StillListed(h: Heap, h1: Heap, g: Block, b: Block)
    requires Allocated(h, h1, g) && b in h.blocks && b.used
    ensures IsBlock(h1, b.Payload()) && BlockAt(h1, b.Payload()) == b
    ensures g.End() <= b.addr || b.End() <= g.addr
    ensures g.End() < WORD && b.End() < WORD
  {
    Found(h1, b);
    TiledInside(h1);
  }

  // The memories of krealloc: before, after kmalloc, after the copy of the n bytes of b into g.
  lemma Copied(m0: Memory, m1: Memory, m2: Memory, head1: nat, h: Heap, h1: Heap, g: Block, b: Block, t: nat)
    requires Allocated(h, h1, g) && b in h.blocks && b.used && b.size <= g.size && t == g.Payload()
    requires Spared(m0, m1, h.blocks)
    requires Lists(m1, head1, h1.blocks) && OnlyBytes(m1, m2, t, b.size)
    ensures Lists(m2, head1, h1.blocks)
    ensures Spared(m0, m2, h.blocks)
  {
    Found(h1, g);
    CopySpares(m1, m2, head1, h1, IndexOf(h1.blocks, t - HDR), b.size);
    forall c | c in h.blocks && c.used ensures Same(m0, m2, c.Payload(), c.size) {
      assert c in h1.blocks && c != g;
      SameTwice(m0, m1, m2, c.Payload(), c.size);
    }
  }

  // And after kfree.
  lemma CopiedFreed(m0: Memory, m2: Memory, m3: Memory, h: Heap, h1: Heap, g: Block, b: Block, t: nat, p: nat, n: nat)
    requires Allocated(h, h1, g) && b in h.blocks && b.used && n == b.size <= g.size && t == g.Payload() && p == b.Payload()
    requires Spared(m0, m2, h.blocks)
    requires AllSame(m2, m3, h1.blocks)
    requires Moved(m0, m2, t, p, n)
    ensures Moved(m0, m3, t, p, n)
    ensures Spared(m0, m3, h.blocks)
  {
    Part(m2, m3, t, g.size, n);
    forall c | c in h.blocks && c.used ensures Same(m0, m3, c.Payload(), c.size) {
      SameTwice(m0, m2, m3, c.Payload(), c.size);
    }
  }

  lemma Part(m: Memory, m': Memory, p: nat, size: nat, n: nat)
    requires Same(m, m', p, size) && n <= size
    ensures Same(m, m', p, n)
  {
    assert m[p..p + n] == m[p..p + size][..n];
    assert m'[p..p + n] == m'[p..p + size][..n];
  }
}
