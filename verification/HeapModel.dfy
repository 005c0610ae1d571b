/** The kernel heap of kernel/mm.c as a list of blocks: what allocation, release and merging do to it. */
module HeapModel {
  import opened Machine

  // sizeof(struct heap_block)
  const HDR: nat := 24

  datatype Block = Block(addr: nat, size: nat, used: bool) {
    function End(): nat { addr + HDR + size }
    function Payload(): nat { addr + HDR }
    predicate Holds(a: nat) { addr <= a < End() }
  }

  // blocks is the list from heap_free_list on; it holds every block, free or not.
  datatype Heap = Heap(start: nat, end: nat, current: nat, blocks: seq<Block>)

  // The heap mm_init sets up: nothing handed out.
  function Empty(start: nat, end: nat): Heap { Heap(start, end, start, []) }

  // ----- The operations -----

  // (size + 7) & ~7 on 64 bits.
  function Round8(size: nat): nat { (size + 7) % WORD / 8 * 8 }

  predicate Fits(b: Block, size: nat) { !b.used && b.size >= size }

  // The first block of the list that fits; |blocks| when none does.
  function FirstFit(blocks: seq<Block>, size: nat): (i: nat)
    ensures i <= |blocks|
    ensures i < |blocks| ==> Fits(blocks[i], size)
    ensures forall j :: 0 <= j < i ==> !Fits(blocks[j], size)
  {
    if blocks == [] then 0 else if Fits(blocks[0], size) then 0 else 1 + FirstFit(blocks[1..], size)
  }

  // The block taken for a request, split when it is larger than the request and another header.
  // (Dafny's % is never negative, so the last line is the unsigned subtraction.)
  function Take(b: Block, size: nat): (r: seq<Block>) {
    if b.size > (size + HDR) % WORD then
      [Block(b.addr, size, true), Block((b.addr + HDR + size) % WORD, (b.size - size - HDR) % WORD, false)]
    else [b.(used := true)]
  }

  function Splice(blocks: seq<Block>, i: nat, n: nat, mid: seq<Block>): seq<Block>
    requires i + n <= |blocks|
  {
    blocks[..i] + mid + blocks[i + n..]
  }

  // The address the bump pointer would move to; the addition wraps.
  function Top(h: Heap, size: nat): nat { (h.current + size + HDR) % WORD }

  // kmalloc; the second result is the address returned, 0 for NULL.
  function Malloc(h: Heap, size: nat): (Heap, nat) {
    var sz := Round8(size);
    var i := FirstFit(h.blocks, sz);
    if size == 0 then (h, 0)
    else if i < |h.blocks| then
      (h.(blocks := Splice(h.blocks, i, 1, Take(h.blocks[i], sz))), h.blocks[i].Payload())
    else if Top(h, sz) > h.end then (h, 0)
    else (h.(current := Top(h, sz), blocks := [Block(h.current, sz, true)] + h.blocks), h.current + HDR)
  }

  // The position of the block whose header is at addr; |blocks| when there is none.
  function IndexOf(blocks: seq<Block>, addr: nat): (i: nat)
    ensures i <= |blocks|
    ensures i < |blocks| ==> blocks[i].addr == addr
    ensures forall j :: 0 <= j < i ==> blocks[j].addr != addr
  {
    if blocks == [] then 0 else if blocks[0].addr == addr then 0 else 1 + IndexOf(blocks[1..], addr)
  }

  // ptr is a payload address of a block on the list.
  predicate IsBlock(h: Heap, ptr: nat) {
    ptr >= HDR && IndexOf(h.blocks, ptr - HDR) < |h.blocks|
  }

  // kfree merges with the next block of the list when that one is free.
  predicate Merges(blocks: seq<Block>, i: nat) { i + 1 < |blocks| && !blocks[i + 1].used }

  function Merged(b: Block, next: Block): Block {
    Block(b.addr, (b.size + (next.size + HDR) % WORD) % WORD, false)
  }

  function Free(h: Heap, ptr: nat): Heap
    requires ptr == 0 || IsBlock(h, ptr)
  {
    if ptr == 0 then h
    else
      var i := IndexOf(h.blocks, ptr - HDR);
      if Merges(h.blocks, i) then
        h.(blocks := Splice(h.blocks, i, 2, [Merged(h.blocks[i], h.blocks[i + 1])]))
      else h.(blocks := h.blocks[i := h.blocks[i].(used := false)])
  }

  // ----- Bytes: how many, and how often each one is owned -----

  function Total(blocks: seq<Block>): nat {
    if blocks == [] then 0 else blocks[0].size + HDR + Total(blocks[1..])
  }

  function Owners(blocks: seq<Block>, a: nat): nat {
    if blocks == [] then 0 else (if blocks[0].Holds(a) then 1 else 0) + Owners(blocks[1..], a)
  }

  ghost predicate Bounded(h: Heap) { h.start <= h.current <= h.end < WORD }

  // The block sizes and headers add up to what the bump pointer has given out.
  ghost predicate Conserved(h: Heap) {
    Bounded(h) && Total(h.blocks) == h.current - h.start
  }

  // Every byte below the bump pointer belongs to exactly one block, and no other byte to any.
  ghost predicate Tiles(h: Heap) {
    Bounded(h) && forall a: nat :: Owners(h.blocks, a) == if h.start <= a < h.current then 1 else 0
  }

  lemma {:induction false} TotalConcat(x: seq<Block>, y: seq<Block>)
    ensures Total(x + y) == Total(x) + Total(y)
  {
    if x == [] {
      assert x + y == y;
    } else {
      TotalConcat(x[1..], y);
      assert (x + y)[1..] == x[1..] + y;
    }
  }

  lemma {:induction false} OwnersConcat(x: seq<Block>, y: seq<Block>, a: nat)
    ensures Owners(x + y, a) == Owners(x, a) + Owners(y, a)
  {
    if x == [] {
      assert x + y == y;
    } else {
      OwnersConcat(x[1..], y, a);
      assert (x + y)[1..] == x[1..] + y;
    }
  }

  lemma SpliceTotal(blocks: seq<Block>, i: nat, n: nat, mid: seq<Block>)
    requires i + n <= |blocks|
    ensures Total(Splice(blocks, i, n, mid)) + Total(blocks[i..i + n]) == Total(blocks) + Total(mid)
  {
    assert blocks == blocks[..i] + blocks[i..i + n] + blocks[i + n..];
    TotalConcat(blocks[..i] + blocks[i..i + n], blocks[i + n..]);
    TotalConcat(blocks[..i], blocks[i..i + n]);
    TotalConcat(blocks[..i] + mid, blocks[i + n..]);
    TotalConcat(blocks[..i], mid);
  }

  lemma SpliceOwners(blocks: seq<Block>, i: nat, n: nat, mid: seq<Block>, a: nat)
    requires i + n <= |blocks|
    ensures Owners(Splice(blocks, i, n, mid), a) + Owners(blocks[i..i + n], a) == Owners(blocks, a) + Owners(mid, a)
  {
    assert blocks == blocks[..i] + blocks[i..i + n] + blocks[i + n..];
    OwnersConcat(blocks[..i] + blocks[i..i + n], blocks[i + n..], a);
    OwnersConcat(blocks[..i], blocks[i..i + n], a);
    OwnersConcat(blocks[..i] + mid, blocks[i + n..], a);
    OwnersConcat(blocks[..i], mid, a);
  }

  lemma {:induction false} OneOfMany(blocks: seq<Block>, i: nat)
    requires i < |blocks|
    ensures blocks[i].size + HDR <= Total(blocks)
  {
    if i > 0 { OneOfMany(blocks[1..], i - 1); }
  }

  lemma {:induction false} OwnersAtLeast(blocks: seq<Block>, i: nat, a: nat)
    requires i < |blocks| && blocks[i].Holds(a)
    ensures Owners(blocks, a) >= 1
  {
    if i > 0 { OwnersAtLeast(blocks[1..], i - 1, a); }
  }

  lemma {:induction false} TwoOwners(blocks: seq<Block>, i: nat, j: nat, a: nat)
    requires i < j < |blocks| && blocks[i].Holds(a) && blocks[j].Holds(a)
    ensures Owners(blocks, a) >= 2
  {
    if i > 0 { TwoOwners(blocks[1..], i - 1, j - 1, a); } else { OwnersAtLeast(blocks[1..], j - 1, a); }
  }

  // In a tiled heap two blocks never overlap, and each lies below the bump pointer.
  lemma TilesApart(h: Heap, i: nat, j: nat)
    requires Tiles(h) && i < |h.blocks| && j < |h.blocks|
    ensures h.start <= h.blocks[i].addr && h.blocks[i].End() <= h.current
    ensures i != j ==> h.blocks[i].End() <= h.blocks[j].addr || h.blocks[j].End() <= h.blocks[i].addr
  {
    var b, c := h.blocks[i], h.blocks[j];
    OwnersAtLeast(h.blocks, i, b.addr);
    OwnersAtLeast(h.blocks, i, b.End() - 1);
    if i != j && b.addr < c.End() && c.addr < b.End() {
      var a := if b.addr < c.addr then c.addr else b.addr;
      TwoOwners(h.blocks, if i < j then i else j, if i < j then j else i, a);
    }
  }

  // ----- Allocation -----

  // The request makes the 64-bit bump addition wrap and still pass the end-of-heap test.
  predicate WrapsIn(h: Heap, size: nat) {
    var sz := Round8(size);
    && size != 0 && FirstFit(h.blocks, sz) == |h.blocks|
    && h.current + sz + HDR >= WORD && Top(h, sz) <= h.end
  }

  lemma TakeKeepsTotal(b: Block, size: nat)
    requires b.size >= size && b.size + HDR < WORD
    ensures Total(Take(b, size)) == Total([b])
  {
    if b.size > (size + HDR) % WORD {
      var t := Take(b, size);
      assert t == [t[0]] + [t[1]];
      TotalConcat([t[0]], [t[1]]);
    }
  }

  lemma TakeKeepsOwners(b: Block, size: nat, a: nat)
    requires b.size >= size && b.End() < WORD
    ensures Owners(Take(b, size), a) == Owners([b], a)
  {
    if b.size > (size + HDR) % WORD {
      var x, y := Block(b.addr, size, true), Block(b.addr + HDR + size, b.size - size - HDR, false);
      assert Take(b, size) == [x] + [y];
      OwnersConcat([x], [y], a);
    }
  }

  // On the list that kmalloc computes the byte count stays exactly when the request does not wrap.
  lemma MallocConserves(h: Heap, size: nat)
    requires Conserved(h) && size < WORD
    ensures Conserved(Malloc(h, size).0) <==> !WrapsIn(h, size)
  {
    var sz := Round8(size);
    var i := FirstFit(h.blocks, sz);
    if size != 0 && i < |h.blocks| {
      SpliceTotal(h.blocks, i, 1, Take(h.blocks[i], sz));
      OneOfMany(h.blocks, i);
      TakeKeepsTotal(h.blocks[i], sz);
      assert h.blocks[i..i + 1] == [h.blocks[i]];
    }
  }

  lemma TakeTiles(h: Heap, i: nat, sz: nat)
    requires Tiles(h) && i < |h.blocks| && sz <= h.blocks[i].size
    ensures Tiles(h.(blocks := Splice(h.blocks, i, 1, Take(h.blocks[i], sz))))
  {
    TilesApart(h, i, i);
    assert h.blocks[i..i + 1] == [h.blocks[i]];
    forall a: nat ensures Owners(Splice(h.blocks, i, 1, Take(h.blocks[i], sz)), a) == Owners(h.blocks, a) {
      SpliceOwners(h.blocks, i, 1, Take(h.blocks[i], sz), a);
      TakeKeepsOwners(h.blocks[i], sz, a);
    }
  }

  lemma BumpTiles(h: Heap, b: Block, top: nat)
    requires Tiles(h) && b.addr == h.current && top <= h.end && top == b.End() % WORD
    ensures Tiles(h.(current := top, blocks := [b] + h.blocks)) <==> b.End() < WORD
  {
    var blocks := [b] + h.blocks;
    forall a: nat ensures Owners(blocks, a) == (if b.Holds(a) then 1 else 0) + Owners(h.blocks, a) {
      OwnersConcat([b], h.blocks, a);
    }
    if b.End() >= WORD {
      assert Owners(blocks, b.addr) == 1;
      assert Owners(blocks, b.End() - 1) == 1;
    }
  }

  // kmalloc keeps the tiling exactly when the request does not wrap.
  lemma MallocTiles(h: Heap, size: nat)
    requires Tiles(h) && size < WORD
    ensures Tiles(Malloc(h, size).0) <==> !WrapsIn(h, size)
  {
    var sz := Round8(size);
    var i := FirstFit(h.blocks, sz);
    if size != 0 && i < |h.blocks| {
      TakeTiles(h, i, sz);
    } else if size != 0 && Top(h, sz) <= h.end {
      BumpTiles(h, Block(h.current, sz, true), Top(h, sz));
    }
  }

  // It happens: a request of 2^64 - 24 - start bytes on the heap mm_init sets up.
  lemma EmptyHeapWraps(start: nat, end: nat)
    requires 0 < start <= end < WORD - HDR && start % 8 == 0
    ensures var h, size := Empty(start, end), WORD - HDR - start;
      Conserved(h) && Tiles(h) && WrapsIn(h, size) && Malloc(h, size).1 != 0 && !Tiles(Malloc(h, size).0)
  {
    var h, size := Empty(start, end), WORD - HDR - start;
    AlignedRound(size, size / 8);
    MallocTiles(h, size);
  }

  lemma AlignedRound(size: nat, k: nat)
    requires size == 8 * k && size + 7 < WORD
    ensures Round8(size) == size
  {
  }

  // Blocks in use stay where they are, at the size they have.
  ghost predicate LivesOn(before: seq<Block>, after: seq<Block>) {
    forall b :: b in before && b.used ==> b in after
  }

  // b shares no byte with a block in use.
  ghost predicate ClearOf(b: Block, blocks: seq<Block>) {
    forall c :: c in blocks && c.used ==> c.End() <= b.addr || b.End() <= c.addr
  }

  lemma RoundUp(size: nat)
    requires size < WORD
    ensures size + 7 < WORD ==> Round8(size) >= size
    ensures size + 7 >= WORD ==> Round8(size) == 0
  {
  }

  // Short of a wrap the rounded size is the next multiple of 8.
  lemma Round8Is(size: nat, sz: nat)
    requires size + 7 < WORD && size <= sz < size + 8 && sz % 8 == 0
    ensures Round8(size) == sz
  {
  }

  lemma {:induction false} FirstFitAt(blocks: seq<Block>, sz: nat, i: nat)
    requires i <= |blocks| && forall j :: 0 <= j < i ==> blocks[j].used || blocks[j].size < sz
    requires i < |blocks| ==> !blocks[i].used && blocks[i].size >= sz
    ensures FirstFit(blocks, sz) == i
  {
    if i > 0 { FirstFitAt(blocks[1..], sz, i - 1); }
  }

  // The list after block i is taken: the rest of it stays free when it is larger than a header.
  ghost predicate Taken(before: seq<Block>, after: seq<Block>, i: nat, sz: nat)
    requires i < |before| && sz <= before[i].size
  {
    var b := before[i];
    after == before[..i] +
      (if b.size > sz + 24 then [Block(b.addr, sz, true), Block(b.addr + 24 + sz, b.size - sz - 24, false)]
       else [Block(b.addr, b.size, true)]) + before[i + 1..]
  }

  // What kmalloc does when no sum wraps, for the request rounded up to sz: it takes block i, the first free one
  // that is large enough; if there is none, a new block of sz bytes and a header at the bump pointer, unless that
  // passes the end of the heap.
  lemma MallocIs(h: Heap, size: nat, sz: nat, i: nat)
    requires 0 < size <= sz < size + 8 && sz % 8 == 0 && size + 7 < WORD
    requires forall j {:trigger h.blocks[j]} :: 0 <= j < |h.blocks| ==> h.blocks[j].addr + 24 + h.blocks[j].size < WORD
    requires i <= |h.blocks| && forall j :: 0 <= j < i ==> h.blocks[j].used || h.blocks[j].size < sz
    requires if i < |h.blocks| then !h.blocks[i].used && h.blocks[i].size >= sz else h.current + 24 + sz < WORD
    ensures var (h', ptr) := Malloc(h, size);
      && h'.start == h.start && h'.end == h.end
      && (i < |h.blocks| ==> ptr == h.blocks[i].addr + 24 && h'.current == h.current && Taken(h.blocks, h'.blocks, i, sz))
      && (i == |h.blocks| && h.current + 24 + sz > h.end ==> ptr == 0 && h' == h)
      && (i == |h.blocks| && h.current + 24 + sz <= h.end ==>
            ptr == h.current + 24 && h'.current == h.current + 24 + sz && h'.blocks == [Block(h.current, sz, true)] + h.blocks)
  {
    Round8Is(size, sz);
    FirstFitAt(h.blocks, sz, i);
  }

  // What kmalloc gives its caller: a block in use made of bytes that belonged to no block in use; everything that
  // was in use is untouched. It is as large as asked for exactly when rounding up does not wrap; when it does, the
  // block is no larger than a header.
  lemma MallocGives(h: Heap, size: nat)
    requires Tiles(h) && size < WORD && !WrapsIn(h, size)
    ensures LivesOn(h.blocks, Malloc(h, size).0.blocks)
    ensures var r := Malloc(h, size);
      r.1 != 0 ==> exists b :: b in r.0.blocks && b.used && b.Payload() == r.1 && ClearOf(b, h.blocks) && Given(b, size)
  {
    var h', ptr := Malloc(h, size).0, Malloc(h, size).1;
    var sz := Round8(size);
    RoundUp(size);
    var i := FirstFit(h.blocks, sz);
    if size != 0 && i < |h.blocks| {
      var old_, mid := h.blocks[i], Take(h.blocks[i], sz);
      TilesApart(h, i, i);
      forall c | c in h.blocks && c.used
        ensures c in h'.blocks && (c.End() <= old_.addr || old_.End() <= c.addr)
      {
        var j :| 0 <= j < |h.blocks| && h.blocks[j] == c;
        SpliceKeeps(h.blocks, i, 1, mid, j);
        TilesApart(h, i, j);
      }
      SpliceHasMid(h.blocks, i, 1, mid, 0);
      assert mid[0] in h'.blocks && mid[0].Payload() == ptr && Given(mid[0], size);
    } else if ptr != 0 {
      var b := Block(h.current, sz, true);
      assert h'.blocks[0] == b && Given(b, size);
      forall c | c in h.blocks && c.used ensures c in h'.blocks && c.End() <= b.addr {
        var j :| 0 <= j < |h.blocks| && h.blocks[j] == c;
        assert h'.blocks[j + 1] == c;
        TilesApart(h, j, j);
      }
    }
  }

  // How large the block for a request is.
  predicate Given(b: Block, size: nat) {
    (b.size >= size <==> size + 7 < WORD) && (size + 7 >= WORD ==> b.size <= HDR)
  }

  // The seven largest sizes wrap in the rounding alone: the empty heap hands out a block of no bytes for them.
  lemma NoBytes(start: nat, end: nat, size: nat)
    requires 0 < start && start + HDR <= end < WORD && WORD - 7 <= size < WORD
    ensures var h := Empty(start, end); var r := Malloc(h, size);
      && Conserved(h) && Tiles(h) && !WrapsIn(h, size)
      && r == (Heap(start, end, start + HDR, [Block(start, 0, true)]), start + HDR)
  {
    RoundUp(size);
    assert [Block(start, 0, true)] + [] == [Block(start, 0, true)];
  }

  lemma SpliceKeeps(blocks: seq<Block>, i: nat, n: nat, mid: seq<Block>, j: nat)
    requires i + n <= |blocks| && j < |blocks| && (j < i || i + n <= j)
    ensures blocks[j] in Splice(blocks, i, n, mid)
  {
  }

  lemma SpliceHasMid(blocks: seq<Block>, i: nat, n: nat, mid: seq<Block>, k: nat)
    requires i + n <= |blocks| && k < |mid|
    ensures mid[k] in Splice(blocks, i, n, mid)
  {
  }

  // ----- Release -----

  // The next block of the list starts where this one ends.
  predicate Adjacent(blocks: seq<Block>, i: nat)
    requires i + 1 < |blocks|
  {
    blocks[i].End() == blocks[i + 1].addr
  }

  lemma PairFits(blocks: seq<Block>, i: nat)
    requires i + 1 < |blocks|
    ensures blocks[i].size + blocks[i + 1].size + 2 * HDR <= Total(blocks)
  {
    TotalConcat(blocks[..i], blocks[i..]);
    assert blocks == blocks[..i] + blocks[i..];
    OneOfMany(blocks[i..][1..], 0);
  }

  lemma MergedSize(h: Heap, i: nat)
    requires Conserved(h) && i + 1 < |h.blocks|
    ensures var b, n := h.blocks[i], h.blocks[i + 1];
      Merged(b, n) == Block(b.addr, b.size + n.size + HDR, false)
      && b.size + n.size + 2 * HDR <= Total(h.blocks)
  {
    PairFits(h.blocks, i);
  }

  lemma PairTotal(b: Block, n: Block, a: nat)
    ensures Total([b, n]) == b.size + n.size + 2 * HDR
    ensures Owners([b, n], a) == (if b.Holds(a) then 1 else 0) + (if n.Holds(a) then 1 else 0)
  {
    assert [b, n] == [b] + [n];
    TotalConcat([b], [n]);
    OwnersConcat([b], [n], a);
  }

  lemma UpdateIsSplice(blocks: seq<Block>, i: nat, b: Block)
    requires i < |blocks|
    ensures blocks[i := b] == Splice(blocks, i, 1, [b]) && blocks[i..i + 1] == [blocks[i]]
  {
  }

  lemma MergeConserves(h: Heap, i: nat)
    requires Conserved(h) && i + 1 < |h.blocks|
    ensures Total(Splice(h.blocks, i, 2, [Merged(h.blocks[i], h.blocks[i + 1])])) == Total(h.blocks)
  {
    var b, n := h.blocks[i], h.blocks[i + 1];
    MergedSize(h, i);
    SpliceTotal(h.blocks, i, 2, [Merged(b, n)]);
    assert h.blocks[i..i + 2] == [b, n];
    PairTotal(b, n, 0);
  }

  // On the list that kfree computes the byte count always stays, whichever blocks it merges.
  lemma FreeConserves(h: Heap, ptr: nat)
    requires Conserved(h) && (ptr == 0 || IsBlock(h, ptr))
    ensures Conserved(Free(h, ptr))
  {
    if ptr != 0 {
      var i := IndexOf(h.blocks, ptr - HDR);
      if Merges(h.blocks, i) {
        MergeConserves(h, i);
      } else {
        var b := h.blocks[i].(used := false);
        UpdateIsSplice(h.blocks, i, b);
        SpliceTotal(h.blocks, i, 1, [b]);
      }
    }
  }

  lemma {:induction false} IndexAt(blocks: seq<Block>, addr: nat, i: nat)
    requires i < |blocks| && blocks[i].addr == addr && forall j :: 0 <= j < i ==> blocks[j].addr != addr
    ensures IndexOf(blocks, addr) == i
  {
    if i > 0 { IndexAt(blocks[1..], addr, i - 1); }
  }

  // What kfree does when no sum wraps: block i is free, and one with the next of the list if that is free too.
  lemma FreeIs(h: Heap, ptr: nat, i: nat)
    requires i < |h.blocks| && h.blocks[i].addr + 24 == ptr && forall j :: 0 <= j < i ==> h.blocks[j].addr + 24 != ptr
    requires i + 1 < |h.blocks| ==> h.blocks[i].size + 24 + h.blocks[i + 1].size < WORD
    ensures Free(h, 0) == h && IsBlock(h, ptr)
    ensures var b := h.blocks[i];
      Free(h, ptr) == h.(blocks := if i + 1 < |h.blocks| && !h.blocks[i + 1].used
        then h.blocks[..i] + [Block(b.addr, b.size + 24 + h.blocks[i + 1].size, false)] + h.blocks[i + 2..]
        else h.blocks[..i] + [Block(b.addr, b.size, false)] + h.blocks[i + 1..])
  {
    IndexAt(h.blocks, ptr - 24, i);
  }

  lemma MergeOwners(h: Heap, i: nat, a: nat)
    requires Conserved(h) && i + 1 < |h.blocks|
    ensures var b, n := h.blocks[i], h.blocks[i + 1]; var m := Block(b.addr, b.size + n.size + HDR, false);
      Owners(Splice(h.blocks, i, 2, [Merged(b, n)]), a) + (if b.Holds(a) then 1 else 0) + (if n.Holds(a) then 1 else 0)
        == Owners(h.blocks, a) + (if m.Holds(a) then 1 else 0)
  {
    var b, n := h.blocks[i], h.blocks[i + 1];
    MergedSize(h, i);
    assert h.blocks[i..i + 2] == [b, n];
    SpliceOwners(h.blocks, i, 2, [Merged(b, n)], a);
    PairTotal(b, n, a);
  }

  // The first or the last byte of the lower block is lost when the neighbours on the list are not
  // neighbours in memory.
  lemma MergeLosesAByte(h: Heap, i: nat) returns (a: nat)
    requires Conserved(h) && Tiles(h) && i + 1 < |h.blocks| && !Adjacent(h.blocks, i)
    ensures h.start <= a < h.current
    ensures Owners(Splice(h.blocks, i, 2, [Merged(h.blocks[i], h.blocks[i + 1])]), a) == 0
  {
    var b, n := h.blocks[i], h.blocks[i + 1];
    TilesApart(h, i, i + 1);
    TilesApart(h, i + 1, i);
    a := if b.addr <= n.addr < b.addr + b.size + n.size + 2 * HDR then n.End() - 1 else n.addr;
    MergeOwners(h, i, a);
  }

  // kfree keeps the tiling exactly when it does not merge or merges physical neighbours; the code tests
  // neither.
  lemma FreeTiles(h: Heap, ptr: nat)
    requires Conserved(h) && Tiles(h) && IsBlock(h, ptr)
    ensures var i := IndexOf(h.blocks, ptr - HDR);
      Tiles(Free(h, ptr)) <==> (Merges(h.blocks, i) ==> Adjacent(h.blocks, i))
  {
    var h' := Free(h, ptr);
    var i := IndexOf(h.blocks, ptr - HDR);
    if !Merges(h.blocks, i) {
      var b := h.blocks[i].(used := false);
      UpdateIsSplice(h.blocks, i, b);
      forall a: nat ensures Owners(h'.blocks, a) == Owners(h.blocks, a) {
        SpliceOwners(h.blocks, i, 1, [b], a);
      }
    } else if Adjacent(h.blocks, i) {
      forall a: nat ensures Owners(h'.blocks, a) == Owners(h.blocks, a) {
        MergeOwners(h, i, a);
      }
    } else {
      var a := MergeLosesAByte(h, i);
    }
  }

  // krealloc, with its second result the address returned.
  function Realloc(h: Heap, ptr: nat, newSize: nat): (Heap, nat)
    requires ptr == 0 || IsBlock(h, ptr)
  {
    if ptr == 0 then Malloc(h, newSize)
    else if newSize == 0 then (Free(h, ptr), 0)
    else if h.blocks[IndexOf(h.blocks, ptr - HDR)].size >= newSize then (h, ptr)
    else
      var m := Malloc(h, newSize);
      if m.1 == 0 || !IsBlock(m.0, ptr) then (h, 0) else (Free(m.0, ptr), m.1)
  }

  // ----- Whole runs -----

  datatype Op = MallocOp(size: nat) | FreeOp(ptr: nat)

  function Step(h: Heap, op: Op): Heap
    requires op.FreeOp? ==> op.ptr == 0 || IsBlock(h, op.ptr)
  {
    match op
    case MallocOp(size) => Malloc(h, size).0
    case FreeOp(ptr) => Free(h, ptr)
  }

  // Frees name blocks on the list and no request wraps 64 bits.
  ghost predicate Legal(h: Heap, ops: seq<Op>)
    decreases |ops|
  {
    ops == [] ||
    (match ops[0]
     case MallocOp(size) => size < WORD && !WrapsIn(h, size) && Legal(Malloc(h, size).0, ops[1..])
     case FreeOp(ptr) => (ptr == 0 || IsBlock(h, ptr)) && Legal(Free(h, ptr), ops[1..]))
  }

  ghost function Run(h: Heap, ops: seq<Op>): Heap
    requires Legal(h, ops)
    decreases |ops|
  {
    if ops == [] then h else Run(Step(h, ops[0]), ops[1..])
  }

  // Every merge of the run joins physical neighbours.
  ghost predicate MergesNeighbours(h: Heap, ops: seq<Op>)
    requires Legal(h, ops)
    decreases |ops|
  {
    ops == [] ||
    ((ops[0].FreeOp? && ops[0].ptr != 0 ==>
        var i := IndexOf(h.blocks, ops[0].ptr - HDR); Merges(h.blocks, i) ==> Adjacent(h.blocks, i))
     && MergesNeighbours(Step(h, ops[0]), ops[1..]))
  }

  // The tiling survives every run whose merges join neighbours.
  lemma {:induction false} RunTiles(h: Heap, ops: seq<Op>)
    requires Conserved(h) && Tiles(h) && Legal(h, ops) && MergesNeighbours(h, ops)
    ensures Tiles(Run(h, ops))
    decreases |ops|
  {
    if ops != [] {
      match ops[0] {
        case MallocOp(size) => MallocConserves(h, size); MallocTiles(h, size);
        case FreeOp(ptr) => FreeConserves(h, ptr); if ptr != 0 { FreeTiles(h, ptr); }
      }
      RunTiles(Step(h, ops[0]), ops[1..]);
    }
  }

  // A run legal from h that ends in h'.
  ghost predicate Ends(h: Heap, ops: seq<Op>, h': Heap) { Legal(h, ops) && Run(h, ops) == h' }

  lemma MallocFirst(h: Heap, size: nat, h1: Heap, ops: seq<Op>, h': Heap)
    requires size < WORD && !WrapsIn(h, size) && Malloc(h, size).0 == h1 && Ends(h1, ops, h')
    ensures Ends(h, [MallocOp(size)] + ops, h')
  {
    assert ([MallocOp(size)] + ops)[1..] == ops;
  }

  lemma FreeFirst(h: Heap, ptr: nat, h1: Heap, ops: seq<Op>, h': Heap)
    requires IsBlock(h, ptr) && Free(h, ptr) == h1 && Ends(h1, ops, h')
    ensures Ends(h, [FreeOp(ptr)] + ops, h')
  {
    assert ([FreeOp(ptr)] + ops)[1..] == ops;
  }

  // Two bump blocks freed in order of allocation merge although the second lies above the first; the
  // next two requests then get payloads that overlap.
  lemma BrokenRun(start: nat, end: nat)
    requires 0 < start && start + 0x1000 <= end < WORD
    ensures var first, second := start + HDR, start + 8 + 2 * HDR;
      var h := Heap(start, end, start + 16 + 2 * HDR, [Block(start + 8 + HDR, 16 + HDR, false)]);
      && Ends(Empty(start, end), [MallocOp(8)] + ([MallocOp(8)] + ([FreeOp(first)] + ([FreeOp(second)] + []))), h)
      && !Tiles(h)
      && var x := Malloc(h, 16 + HDR); var y := Malloc(x.0, 8);
      0 < x.1 < y.1 < x.1 + 16 + HDR
  {
    var b1, b2 := Block(start, 8, true), Block(start + 8 + HDR, 8, true);
    var h1 := Heap(start, end, start + 8 + HDR, [b1]);
    var h2 := Heap(start, end, start + 16 + 2 * HDR, [b2, b1]);
    var h3 := Heap(start, end, start + 16 + 2 * HDR, [b2, b1.(used := false)]);
    var h4 := Heap(start, end, start + 16 + 2 * HDR, [Block(start + 8 + HDR, 16 + HDR, false)]);
    var first, second := start + HDR, start + 8 + 2 * HDR;
    BrokenFrees(start, h2, h3, h4);
    MallocFirst(h1, 8, h2, [FreeOp(first)] + ([FreeOp(second)] + []), h4);
    MallocFirst(Empty(start, end), 8, h1, [MallocOp(8)] + ([FreeOp(first)] + ([FreeOp(second)] + [])), h4);
    assert Owners(h4.blocks, start) == 0;
    OverlappingPayloads(h4, start);
  }

  lemma BrokenFrees(start: nat, h2: Heap, h3: Heap, h4: Heap)
    requires h2.blocks == [Block(start + 8 + HDR, 8, true), Block(start, 8, true)] && start + 0x1000 < WORD
    requires h3 == h2.(blocks := [Block(start + 8 + HDR, 8, true), Block(start, 8, false)])
    requires h4 == h2.(blocks := [Block(start + 8 + HDR, 16 + HDR, false)])
    ensures Ends(h2, [FreeOp(start + HDR)] + ([FreeOp(start + 8 + 2 * HDR)] + []), h4)
  {
    assert IndexOf(h2.blocks[1..], start) == 0;
    assert Free(h2, start + HDR) == h3;
    assert Free(h3, start + 8 + 2 * HDR) == h4;
    FreeFirst(h3, start + 8 + 2 * HDR, h4, [], h4);
    FreeFirst(h2, start + HDR, h3, [FreeOp(start + 8 + 2 * HDR)] + [], h4);
  }

  lemma OverlappingPayloads(h: Heap, start: nat)
    requires h.blocks == [Block(start + 8 + HDR, 16 + HDR, false)] && h.current == start + 16 + 2 * HDR
    requires h.current + 0x800 <= h.end < WORD
    ensures var x := Malloc(h, 16 + HDR); var y := Malloc(x.0, 8); 0 < x.1 < y.1 < x.1 + 16 + HDR
  {
    var x := Malloc(h, 16 + HDR).0;
    assert x.blocks == [Block(start + 8 + HDR, 16 + HDR, true)];
    assert x.blocks[1..] == [];
  }
}
