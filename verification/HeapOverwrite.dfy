/** What becomes of the heap of kernel/mm.c when kmalloc writes a header over one of the list. */
module HeapOverwrite {
  import opened Machine
  import opened HeapModel
  import opened Headers
  import opened HeapMemory

  // Where the list y of a memory goes on from a header that stands in it.
  lemma GoesOn(m: Memory, head: nat, y: seq<Block>, p: nat, b: Block, next: nat)
    requires Lists(m, head, y) && p < |y| && y[p].addr == b.addr && Stands(m, b, next)
    ensures y[p] == b && AddrOf(y, p + 1) == next
    ensures next != 0 ==> p + 1 < |y| && y[p + 1].addr == next
  {
    Listed(m, head, y, p);
  }

  // Along headers that still stand, the list y runs along the blocks.
  lemma {:induction false} RunsAlong(m: Memory, head: nat, y: seq<Block>, p: nat, blocks: seq<Block>, lo: nat, hi: nat, q: nat)
    requires Lists(m, head, y) && p < |y| && lo <= hi < |blocks| && y[p].addr == blocks[lo].addr && q == p + hi - lo
    requires forall k {:trigger ListedAt(m, blocks, k)} :: lo <= k < hi ==> ListedAt(m, blocks, k)
    requires forall k :: 0 <= k < |blocks| ==> blocks[k].addr != 0
    ensures q < |y| && y[q].addr == blocks[hi].addr
    decreases hi - lo
  {
    if lo < hi {
      assert ListedAt(m, blocks, lo);
      GoesOn(m, head, y, p, blocks[lo], blocks[lo + 1].addr);
      RunsAlong(m, head, y, p + 1, blocks, lo + 1, hi, q);
    }
  }

  // No list leads to the same header twice.
  lemma NoReturn(y: seq<Block>, p: nat, q: nat)
    requires HeadersApart(y) && p < q < |y|
    ensures y[p].addr != y[q].addr
  {
    assert Apart(y[p].addr, y[q].addr);
  }

  // Blocks other than j whose headers two stores leave alone.
  lemma OthersStand(m: Memory, m': Memory, head: nat, blocks: seq<Block>, i: nat, j: nat, k: nat)
    requires Lists(m, head, blocks) && i < |blocks| && j < |blocks| && k < |blocks| && k != i && k != j
    requires OnlyHeaders(m, m', blocks[i].addr, blocks[j].addr)
    ensures ListedAt(m', blocks, k)
  {
    assert ListedAt(m, blocks, k);
    ApartFrom(blocks, i, k);
    ApartFrom(blocks, j, k);
    StillStands(m, m', blocks[i].addr, blocks[j].addr, blocks[k], AddrOf(blocks, k + 1));
  }

  // ----- A new block over block j: the list runs in a circle -----

  lemma BumpOver(m: Memory, head: nat, blocks: seq<Block>, j: nat, a: nat, sz: nat, y: seq<Block>)
    requires Lists(m, head, blocks) && j < |blocks| && blocks[j].addr == a && a + HDR <= |m| && sz < WORD
    ensures !Lists(BumpStores(m, a, sz, head), a, y)
  {
    var m' := BumpStores(m, a, sz, head);
    HeadListed(m, head, blocks);
    HeadersInSpace(m, head, blocks);
    BumpIs(m, a, sz, head);
    if Lists(m', a, y) {
      HeadIsNull(m', a, y);
      GoesOn(m', a, y, 0, Block(a, sz, true), head);
      forall k | 0 <= k < j ensures ListedAt(m', blocks, k) { OthersStand(m, m', head, blocks, j, j, k); }
      RunsAlong(m', a, y, 1, blocks, 0, j, j + 1);
      NoReturn(y, 0, j + 1);
    }
  }

  // ----- The remainder of a split over a later block: a circle again -----

  lemma SplitOverLater(m: Memory, m': Memory, head: nat, blocks: seq<Block>, i: nat, j: nat, sz: nat, rest: nat, y: seq<Block>)
    requires Lists(m, head, blocks) && i < j < |blocks| && OnlyHeaders(m, m', blocks[i].addr, blocks[j].addr)
    requires Stands(m', Block(blocks[i].addr, sz, true), blocks[j].addr)
    requires Stands(m', Block(blocks[j].addr, rest, false), blocks[i + 1].addr)
    ensures !Lists(m', head, y)
  {
    HeadersInSpace(m, head, blocks);
    if Lists(m', head, y) {
      HeadIsNull(m', head, y);
      forall k | 0 <= k < j && k != i ensures ListedAt(m', blocks, k) { OthersStand(m, m', head, blocks, i, j, k); }
      RunsAlong(m', head, y, 0, blocks, 0, i, i);
      GoesOn(m', head, y, i, Block(blocks[i].addr, sz, true), blocks[j].addr);
      GoesOn(m', head, y, i + 1, Block(blocks[j].addr, rest, false), blocks[i + 1].addr);
      RunsAlong(m', head, y, i + 2, blocks, i + 1, j, j + 1);
      NoReturn(y, i + 1, j + 1);
    }
  }

  // ----- Over an earlier block: everything between the two drops out -----

  function Cut(blocks: seq<Block>, j: nat, i: nat, rest: nat): (x: seq<Block>)
    requires j <= i < |blocks|
    ensures |x| == |blocks| - (i - j) && x[j] == Block(blocks[j].addr, rest, false)
    ensures forall k :: 0 <= k < j ==> x[k] == blocks[k]
    ensures forall k :: j < k < |x| ==> x[k] == blocks[k + (i - j)]
  {
    Splice(blocks, j, i - j + 1, [Block(blocks[j].addr, rest, false)])
  }

  lemma CutListed(m: Memory, m': Memory, head: nat, blocks: seq<Block>, i: nat, j: nat, rest: nat, k: nat, l: nat)
    requires Lists(m, head, blocks) && j < i < |blocks| && OnlyHeaders(m, m', blocks[i].addr, blocks[j].addr)
    requires Stands(m', Block(blocks[j].addr, rest, false), AddrOf(blocks, i + 1))
    requires k < |Cut(blocks, j, i, rest)| && l == if k < j then k else k + (i - j)
    ensures ListedAt(m', Cut(blocks, j, i, rest), k)
  {
    var x := Cut(blocks, j, i, rest);
    if k == j {
      assert AddrOf(x, k + 1) == AddrOf(blocks, i + 1);
    } else {
      assert x[k] == blocks[l] && AddrOf(x, k + 1) == AddrOf(blocks, l + 1);
      OthersStand(m, m', head, blocks, i, j, l);
    }
  }

  lemma CutApart(blocks: seq<Block>, j: nat, i: nat, rest: nat)
    requires HeadersApart(blocks) && j <= i < |blocks|
    ensures HeadersApart(Cut(blocks, j, i, rest))
  {
    var x := Cut(blocks, j, i, rest);
    forall k, l | 0 <= k < l < |x| ensures Apart(x[k].addr, x[l].addr) {
      assert Apart(blocks[if k <= j then k else k + (i - j)].addr, blocks[if l <= j then l else l + (i - j)].addr);
    }
  }

  lemma SplitOverEarlier(m: Memory, m': Memory, head: nat, blocks: seq<Block>, i: nat, j: nat, rest: nat)
    requires Lists(m, head, blocks) && j < i < |blocks| && OnlyHeaders(m, m', blocks[i].addr, blocks[j].addr)
    requires Stands(m', Block(blocks[j].addr, rest, false), AddrOf(blocks, i + 1))
    ensures Lists(m', head, Cut(blocks, j, i, rest))
  {
    var x := Cut(blocks, j, i, rest);
    forall k | 0 <= k < |x| ensures ListedAt(m', x, k) {
      CutListed(m, m', head, blocks, i, j, rest, k, if k < j then k else k + (i - j));
    }
    CutApart(blocks, j, i, rest);
  }

  lemma CutLoses(blocks: seq<Block>, j: nat, i: nat, n: nat, rest: nat)
    requires j < i < |blocks| && n == i - j + 1 && rest + HDR <= blocks[i].size
    ensures Total(Cut(blocks, j, i, rest)) < Total(blocks)
  {
    var b := Block(blocks[j].addr, rest, false);
    assert Cut(blocks, j, i, rest) == Splice(blocks, j, n, [b]);
    CutTotal(blocks, j, n, b);
  }

  lemma CutTotal(blocks: seq<Block>, j: nat, n: nat, b: Block)
    requires 0 < n && j + n <= |blocks| && b.size + HDR <= blocks[j + n - 1].size
    ensures Total(Splice(blocks, j, n, [b])) < Total(blocks)
  {
    SpliceTotal(blocks, j, n, [b]);
    LastOf(blocks, j, n);
    OneTotal(b);
  }

  lemma OneTotal(b: Block)
    ensures Total([b]) == b.size + HDR
  {
    assert [b][1..] == [];
  }

  lemma LastOf(blocks: seq<Block>, j: nat, n: nat)
    requires 0 < n && j + n <= |blocks|
    ensures blocks[j + n - 1].size + HDR <= Total(blocks[j..j + n])
  {
    OneOfMany(blocks[j..j + n], n - 1);
  }

  // ----- Both -----

  lemma SplitLoses(m: Memory, head: nat, h: Heap, i: nat, sz: nat, j: nat, y: seq<Block>)
    requires Lists(m, head, h.blocks) && Conserved(h) && i < |h.blocks| && j < |h.blocks|
    requires h.blocks[i].addr + HDR <= |m| && h.blocks[j].addr + HDR <= |m|
    requires h.blocks[i].Payload() + sz == h.blocks[j].addr && sz <= h.blocks[i].size && h.blocks[i].size > (sz + HDR) % WORD
    ensures Lists(SplitStores(SetUsed(m, h.blocks[i].addr, true), h.blocks[i].addr, h.blocks[j].addr, sz), head, y) ==>
      Total(y) < h.current - h.start
  {
    var blocks, a, r := h.blocks, h.blocks[i].addr, h.blocks[j].addr;
    var m' := SplitStores(SetUsed(m, a, true), a, r, sz);
    var rest := Rest(blocks[i].size, sz);
    ApartFrom(blocks, i, j);
    Listed(m, head, blocks, i);
    HeadersInSpace(m, head, blocks);
    SplitStoresIs(m, blocks[i], AddrOf(blocks, i + 1), r, sz);
    if Lists(m', head, y) {
      if i < j {
        SplitOverLater(m, m', head, blocks, i, j, sz, rest, y);
      } else {
        SplitOverEarlier(m, m', head, blocks, i, j, rest);
        OneList(m', head, Cut(blocks, j, i, rest), y);
        RestFits(h, i, sz);
        CutLoses(blocks, j, i, i - j + 1, rest);
      }
    }
  }

  lemma RestFits(h: Heap, i: nat, sz: nat)
    requires Conserved(h) && i < |h.blocks| && sz <= h.blocks[i].size && h.blocks[i].size > (sz + HDR) % WORD
    ensures Rest(h.blocks[i].size, sz) + HDR <= h.blocks[i].size
  {
    OneOfMany(h.blocks, i);
  }

  lemma SplitOver(m: Memory, head: nat, h: Heap, size: nat, j: nat, y: seq<Block>)
    requires Lists(m, head, h.blocks) && Conserved(h) && InSpace(h, size) && Within(h.blocks) && Splits(h, size)
    requires j < |h.blocks| && NewHeader(h, size) == h.blocks[j].addr
    ensures Lists(MallocMemory(m, h, size), head, y) ==> Total(y) < h.current - h.start
  {
    var sz := Round8(size);
    SplitCase(m, head, h, size);
    SplitPlace(h, size, FirstFit(h.blocks, sz), sz);
    SplitLoses(m, head, h, FirstFit(h.blocks, sz), sz, j, y);
  }

  lemma SplitPlace(h: Heap, size: nat, i: nat, sz: nat)
    requires Splits(h, size) && sz == Round8(size) && i == FirstFit(h.blocks, sz)
    ensures i < |h.blocks| && h.blocks[i].Payload() + sz == NewHeader(h, size)
    ensures sz <= h.blocks[i].size && h.blocks[i].size > (sz + HDR) % WORD
  {
  }

  // When the header that a request writes falls on that of a listed block, the memory holds no list that accounts
  // for the bytes given out any more.
  lemma OverwriteLoses(m: Memory, head: nat, h: Heap, size: nat, j: nat, y: seq<Block>)
    requires Lists(m, head, h.blocks) && Conserved(h) && 0 < h.start && InSpace(h, size) && Within(h.blocks)
    requires j < |h.blocks| && NewHeader(h, size) == h.blocks[j].addr
    ensures var h' := Malloc(h, size).0;
      Lists(MallocMemory(m, h, size), MallocHead(h, head, size), y) ==> Total(y) < h'.current - h'.start
  {
    HeadersInSpace(m, head, h.blocks);
    if Splits(h, size) {
      SplitCase(m, head, h, size);
      SplitOver(m, head, h, size, j, y);
    } else {
      OnlySplitOrBump(h, size);
      BumpCase(m, head, h, size);
      BumpOver(m, head, h.blocks, j, h.current, Round8(size), y);
    }
  }

  lemma OnlySplitOrBump(h: Heap, size: nat)
    requires NewHeader(h, size) != 0 && !Splits(h, size)
    ensures Bumps(h, size) && NewHeader(h, size) == h.current
  {
  }
}
