/** The heap of kernel/mm.c in memory: block headers are bytes like any others, and a header that kmalloc writes
    may fall on one that is in use. */
module HeapMemory {
  import opened Machine
  import opened HeapModel
  import opened Headers

  // ----- The list in memory -----

  function AddrOf(blocks: seq<Block>, i: nat): nat { if i < |blocks| then blocks[i].addr else 0 }

  // The header of b, with next as its next pointer.
  ghost predicate Stands(m: Memory, b: Block, next: nat) {
    0 < b.addr && b.addr + HDR <= |m| && b.size < WORD && HeaderIs(m, b.addr, b.size, b.used, next)
  }

  ghost predicate ListedAt(m: Memory, blocks: seq<Block>, i: nat)
    requires i < |blocks|
  {
    Stands(m, blocks[i], AddrOf(blocks, i + 1))
  }

  // Every header lies in the address space.
  predicate Within(blocks: seq<Block>) { forall i :: 0 <= i < |blocks| ==> blocks[i].addr + HDR <= WORD }

  // The header at r meets no header of the blocks.
  ghost predicate Misses(r: nat, blocks: seq<Block>) {
    forall i {:trigger Apart(r, blocks[i].addr)} :: 0 <= i < |blocks| ==> Apart(r, blocks[i].addr)
  }

  ghost predicate HeadersApart(blocks: seq<Block>) {
    forall i, j {:trigger Apart(blocks[i].addr, blocks[j].addr)} ::
      0 <= i < j < |blocks| ==> Apart(blocks[i].addr, blocks[j].addr)
  }

  // The headers that the next pointers lead to from head on are exactly the blocks, none over another.
  ghost predicate Lists(m: Memory, head: nat, blocks: seq<Block>) {
    && |m| == WORD && head == AddrOf(blocks, 0) && HeadersApart(blocks)
    && forall i {:trigger ListedAt(m, blocks, i)} :: 0 <= i < |blocks| ==> ListedAt(m, blocks, i)
  }

  // The memory determines the list.
  lemma {:induction false} OneList(m: Memory, head: nat, x: seq<Block>, y: seq<Block>)
    requires Lists(m, head, x) && Lists(m, head, y)
    ensures x == y
    decreases |x|
  {
    HeadIsNull(m, head, x);
    HeadIsNull(m, head, y);
    if x != [] {
      ListsTail(m, head, x);
      ListsTail(m, head, y);
      OneList(m, NextAt(m, head), x[1..], y[1..]);
      assert x == [x[0]] + x[1..] && y == [y[0]] + y[1..];
    }
  }

  lemma HeadIsNull(m: Memory, head: nat, x: seq<Block>)
    requires Lists(m, head, x)
    ensures head == 0 <==> x == []
  {
    if x != [] { assert ListedAt(m, x, 0); }
  }

  lemma ListsTail(m: Memory, head: nat, x: seq<Block>)
    requires Lists(m, head, x) && x != []
    ensures head + HDR <= |m| && x[0] == Block(head, SizeAt(m, head), UsedAt(m, head)) && Lists(m, NextAt(m, head), x[1..])
  {
    assert ListedAt(m, x, 0);
    forall i | 0 <= i < |x| - 1 ensures ListedAt(m, x[1..], i) {
      assert ListedAt(m, x, i + 1);
    }
    forall i, j | 0 <= i < j < |x| - 1 ensures Apart(x[1..][i].addr, x[1..][j].addr) {
      assert Apart(x[i + 1].addr, x[j + 1].addr);
    }
  }

  // What the list says about block i.
  lemma Listed(m: Memory, head: nat, blocks: seq<Block>, i: nat)
    requires Lists(m, head, blocks) && i < |blocks|
    ensures Stands(m, blocks[i], AddrOf(blocks, i + 1))
    ensures AddrOf(blocks, i + 1) + HDR <= WORD && (i + 1 < |blocks| <==> AddrOf(blocks, i + 1) != 0)
  {
    assert ListedAt(m, blocks, i);
    if i + 1 < |blocks| { assert ListedAt(m, blocks, i + 1); }
  }

  lemma HeadListed(m: Memory, head: nat, blocks: seq<Block>)
    requires Lists(m, head, blocks)
    ensures head + HDR <= WORD && (head != 0 <==> blocks != [])
  {
    if blocks != [] { assert ListedAt(m, blocks, 0); }
  }

  // A block whose header neither store reaches stays as it stands.
  lemma StillStands(m: Memory, m': Memory, a: nat, r: nat, b: Block, next: nat)
    requires OnlyHeaders(m, m', a, r) && Apart(a, b.addr) && Apart(r, b.addr) && Stands(m, b, next)
    ensures Stands(m', b, next)
  {
    HeadersKept(m, m', a, r, b.addr, b.size, b.used, next);
  }

  lemma ApartFrom(blocks: seq<Block>, i: nat, j: nat)
    requires HeadersApart(blocks) && i < |blocks| && j < |blocks| && i != j
    ensures Apart(blocks[i].addr, blocks[j].addr)
  {
    if i < j { assert Apart(blocks[i].addr, blocks[j].addr); } else { assert Apart(blocks[j].addr, blocks[i].addr); }
  }

  // ----- What kmalloc stores -----

  // The header that a request makes kmalloc write besides that of the block it takes: that of the remainder of a
  // split, or that of a new block. 0 when there is none.
  function NewHeader(h: Heap, size: nat): nat {
    var sz := Round8(size);
    var i := FirstFit(h.blocks, sz);
    if size == 0 then 0
    else if i < |h.blocks| then
      if h.blocks[i].size > (sz + HDR) % WORD then h.blocks[i].Payload() + sz else 0
    else if Top(h, sz) > h.end then 0
    else h.current
  }

  // It lies in the address space; past its end the pointer arithmetic of the code is undefined.
  predicate InSpace(h: Heap, size: nat) { NewHeader(h, size) + HDR <= WORD }

  // It meets no header of the list.
  ghost predicate Clear(h: Heap, size: nat) { NewHeader(h, size) == 0 || Misses(NewHeader(h, size), h.blocks) }

  // What a split leaves of size bytes.
  function Rest(size: nat, sz: nat): nat { (size - sz - HDR) % WORD }

  // The stores of a split, in their order: first the header of the remainder at r, then that of the block at a.
  function RestStores(m: Memory, a: nat, r: nat, rest: nat): (m': Memory)
    requires a + HDR <= |m| && r + HDR <= |m|
    ensures |m'| == |m|
  {
    var m3 := SetUsed(SetSize(m, r, rest), r, false);
    SetNext(m3, r, NextAt(m3, a))
  }

  function OwnStores(m: Memory, a: nat, r: nat, sz: nat): (m': Memory)
    requires a + HDR <= |m|
    ensures |m'| == |m|
  {
    SetNext(SetSize(m, a, sz), a, r)
  }

  function SplitStores(m: Memory, a: nat, r: nat, sz: nat): (m': Memory)
    requires a + HDR <= |m| && r + HDR <= |m|
    ensures |m'| == |m|
  {
    OwnStores(RestStores(m, a, r, Rest(SizeAt(m, a), sz)), a, r, sz)
  }

  function BumpStores(m: Memory, a: nat, sz: nat, next: nat): (m': Memory)
    requires a + HDR <= |m|
    ensures |m'| == |m|
  {
    SetNext(SetUsed(SetSize(m, a, sz), a, true), a, next)
  }

  // The memory after kmalloc(size), whose search goes over the list h.
  function MallocMemory(m: Memory, h: Heap, size: nat): (m': Memory)
    requires |m| == WORD && InSpace(h, size) && Within(h.blocks)
    ensures |m'| == |m|
  {
    var sz, r := Round8(size), NewHeader(h, size);
    var i := FirstFit(h.blocks, sz);
    if size == 0 then m
    else if i < |h.blocks| then
      var a := h.blocks[i].addr;
      var taken := SetUsed(m, a, true);
      if h.blocks[i].size > (sz + HDR) % WORD then SplitStores(taken, a, r, sz) else taken
    else if Top(h, sz) > h.end then m
    else BumpStores(m, r, sz, AddrOf(h.blocks, 0))
  }

  // heap_free_list after kmalloc.
  function MallocHead(h: Heap, head: nat, size: nat): nat {
    if NewHeader(h, size) != 0 && FirstFit(h.blocks, Round8(size)) == |h.blocks| then h.current else head
  }

  // ----- A split -----

  // The old next pointer is still there when it is read.
  lemma RestIs(m: Memory, a: nat, r: nat, size: nat, used: bool, next: nat, rest: nat)
    requires HeaderIs(m, a, size, used, next) && next < WORD && rest < WORD && r + HDR <= |m| && Apart(a, r)
    ensures var m' := RestStores(m, a, r, rest);
      OnlyHeaders(m, m', a, r) && HeaderIs(m', a, size, used, next) && HeaderIs(m', r, rest, false, next)
  {
    var m2 := SetSize(m, r, rest);
    SetSizeIs(m, r, rest);
    HeaderKept(m, m2, r, a, size, used, next);
    var m3 := SetUsed(m2, r, false);
    SetUsedIs(m2, r, false);
    HeaderKept(m2, m3, r, a, size, used, next);
    SetNextIs(m3, r, next);
    HeaderKept(m3, SetNext(m3, r, next), r, a, size, used, next);
    BothHeaders(m, m2, m3, a, r, r);
    BothHeaders(m, m3, SetNext(m3, r, next), a, r, r);
  }

  lemma OwnIs(m: Memory, a: nat, r: nat, size: nat, used: bool, next: nat, rest: nat, sz: nat)
    requires HeaderIs(m, a, size, used, next) && HeaderIs(m, r, rest, false, next) && sz < WORD && r < WORD && Apart(a, r)
    ensures var m' := OwnStores(m, a, r, sz);
      OnlyHeaders(m, m', a, r) && HeaderIs(m', a, sz, used, r) && HeaderIs(m', r, rest, false, next)
  {
    var m5 := SetSize(m, a, sz);
    SetSizeIs(m, a, sz);
    HeaderKept(m, m5, a, r, rest, false, next);
    SetNextIs(m5, a, r);
    HeaderKept(m5, SetNext(m5, a, r), a, r, rest, false, next);
    BothHeaders(m, m5, SetNext(m5, a, r), a, r, a);
  }

  lemma SplitIs(m: Memory, a: nat, r: nat, sz: nat, size: nat, used: bool, next: nat, rest: nat)
    requires HeaderIs(m, a, size, used, next) && next < WORD && sz < WORD && r + HDR <= |m| && |m| == WORD && Apart(a, r)
    requires rest == Rest(size, sz)
    ensures var m' := SplitStores(m, a, r, sz);
      OnlyHeaders(m, m', a, r) && HeaderIs(m', a, sz, used, r) && HeaderIs(m', r, rest, false, next)
  {
    RestIs(m, a, r, size, used, next, rest);
    OwnIs(RestStores(m, a, r, rest), a, r, size, used, next, rest, sz);
    Together(m, RestStores(m, a, r, rest), SplitStores(m, a, r, sz), a, r);
  }

  lemma Together(m: Memory, m1: Memory, m2: Memory, a: nat, r: nat)
    requires OnlyHeaders(m, m1, a, r) && OnlyHeaders(m1, m2, a, r)
    ensures OnlyHeaders(m, m2, a, r)
  {
  }

  lemma TakenIs(m: Memory, b: Block, next: nat, used: bool)
    requires Stands(m, b, next)
    ensures OnlyHeader(m, SetUsed(m, b.addr, used), b.addr) && Stands(SetUsed(m, b.addr, used), b.(used := used), next)
  {
    SetUsedIs(m, b.addr, used);
  }

  // What taking block b and splitting it at r stores.
  lemma SplitStoresIs(m: Memory, b: Block, next: nat, r: nat, sz: nat)
    requires Stands(m, b, next) && next < WORD && sz < WORD && 0 < r && r + HDR <= |m| && |m| == WORD && Apart(b.addr, r)
    ensures var m' := SplitStores(SetUsed(m, b.addr, true), b.addr, r, sz);
      && OnlyHeaders(m, m', b.addr, r) && Stands(m', Block(b.addr, sz, true), r)
      && Stands(m', Block(r, Rest(b.size, sz), false), next)
  {
    TakenIs(m, b, next, true);
    SplitIs(SetUsed(m, b.addr, true), b.addr, r, sz, b.size, true, next, Rest(b.size, sz));
  }

  // The blocks of the list after a split at i.
  function SplitBlocks(blocks: seq<Block>, i: nat, r: nat, sz: nat): (x: seq<Block>)
    requires i < |blocks|
    ensures |x| == |blocks| + 1
    ensures x[i] == Block(blocks[i].addr, sz, true) && x[i + 1] == Block(r, Rest(blocks[i].size, sz), false)
    ensures forall k :: 0 <= k < i ==> x[k] == blocks[k]
    ensures forall k :: i + 1 < k < |x| ==> x[k] == blocks[k - 1]
  {
    Splice(blocks, i, 1, [Block(blocks[i].addr, sz, true), Block(r, Rest(blocks[i].size, sz), false)])
  }

  // The block of the list before a split that is at k afterwards.
  function Before(k: nat, i: nat): nat
    requires k != i && k != i + 1
  {
    if k < i then k else k - 1
  }

  lemma SplitListed(m: Memory, head: nat, blocks: seq<Block>, i: nat, r: nat, sz: nat, m': Memory, k: nat)
    requires Lists(m, head, blocks) && i < |blocks| && Misses(r, blocks) && OnlyHeaders(m, m', blocks[i].addr, r)
    requires Stands(m', Block(blocks[i].addr, sz, true), r)
    requires Stands(m', Block(r, Rest(blocks[i].size, sz), false), AddrOf(blocks, i + 1))
    requires k <= |blocks|
    ensures ListedAt(m', SplitBlocks(blocks, i, r, sz), k)
  {
    var x := SplitBlocks(blocks, i, r, sz);
    if k != i && k != i + 1 {
      var j := Before(k, i);
      assert x[k] == blocks[j] && AddrOf(x, k + 1) == AddrOf(blocks, j + 1);
      assert ListedAt(m, blocks, j);
      ApartFrom(blocks, i, j);
      assert Apart(r, blocks[j].addr);
      StillStands(m, m', blocks[i].addr, r, blocks[j], AddrOf(blocks, j + 1));
    } else if k == i + 1 {
      assert AddrOf(x, k + 1) == AddrOf(blocks, i + 1);
    }
  }

  lemma SplitApart(blocks: seq<Block>, i: nat, r: nat, sz: nat)
    requires HeadersApart(blocks) && i < |blocks|
    ensures HeadersApart(SplitBlocks(blocks, i, r, sz)) <==> Misses(r, blocks)
  {
    var x := SplitBlocks(blocks, i, r, sz);
    if Misses(r, blocks) {
      forall k, l | 0 <= k < l < |x| ensures Apart(x[k].addr, x[l].addr) {
        SplitPair(blocks, i, r, sz, k, l);
      }
    } else {
      var j :| 0 <= j < |blocks| && !Apart(r, blocks[j].addr);
      if j <= i { assert !Apart(x[j].addr, x[i + 1].addr); } else { assert !Apart(x[i + 1].addr, x[j + 1].addr); }
    }
  }

  lemma SplitPair(blocks: seq<Block>, i: nat, r: nat, sz: nat, k: nat, l: nat)
    requires HeadersApart(blocks) && i < |blocks| && Misses(r, blocks) && k < l <= |blocks|
    ensures Apart(SplitBlocks(blocks, i, r, sz)[k].addr, SplitBlocks(blocks, i, r, sz)[l].addr)
  {
    var p, q := if k <= i then k else k - 1, if l <= i then l else l - 1;
    if k == i + 1 {
      assert Apart(r, blocks[q].addr);
    } else if l == i + 1 {
      assert Apart(r, blocks[p].addr);
    } else {
      assert Apart(blocks[p].addr, blocks[q].addr);
    }
  }

  // The split is in memory what it is on the list exactly when the header of the remainder misses all others.
  lemma SplitFollows(m: Memory, head: nat, blocks: seq<Block>, i: nat, r: nat, sz: nat)
    requires Lists(m, head, blocks) && i < |blocks| && sz < WORD && 0 < r && r + HDR <= WORD
    requires blocks[i].addr + HDR <= |m|
    ensures var a := blocks[i].addr;
      Lists(SplitStores(SetUsed(m, a, true), a, r, sz), head, SplitBlocks(blocks, i, r, sz)) <==> Misses(r, blocks)
  {
    var x := SplitBlocks(blocks, i, r, sz);
    var m' := SplitStores(SetUsed(m, blocks[i].addr, true), blocks[i].addr, r, sz);
    SplitApart(blocks, i, r, sz);
    if Misses(r, blocks) {
      Listed(m, head, blocks, i);
      assert Apart(r, blocks[i].addr);
      SplitStoresIs(m, blocks[i], AddrOf(blocks, i + 1), r, sz);
      forall k | 0 <= k < |x| ensures ListedAt(m', x, k) {
        SplitListed(m, head, blocks, i, r, sz, m', k);
      }
    }
  }

  // ----- A mark -----

  // One header changes, and of it all but address and next pointer.
  lemma ChangeFollows(m: Memory, m': Memory, head: nat, blocks: seq<Block>, i: nat, b: Block)
    requires Lists(m, head, blocks) && i < |blocks| && b.addr == blocks[i].addr
    requires OnlyHeader(m, m', b.addr) && Stands(m', b, AddrOf(blocks, i + 1))
    ensures Lists(m', head, blocks[i := b])
  {
    var x := blocks[i := b];
    forall k | 0 <= k < |x| ensures ListedAt(m', x, k) {
      assert AddrOf(x, k + 1) == AddrOf(blocks, k + 1);
      if k != i {
        assert ListedAt(m, blocks, k);
        ApartFrom(blocks, i, k);
        StillStands(m, m', b.addr, b.addr, blocks[k], AddrOf(blocks, k + 1));
      }
    }
    forall k, l | 0 <= k < l < |x| ensures Apart(x[k].addr, x[l].addr) {
      assert Apart(blocks[k].addr, blocks[l].addr);
    }
  }

  // Only the mark of block i changes.
  lemma MarkFollows(m: Memory, head: nat, blocks: seq<Block>, i: nat, used: bool)
    requires Lists(m, head, blocks) && i < |blocks| && blocks[i].addr + HDR <= |m|
    ensures Lists(SetUsed(m, blocks[i].addr, used), head, blocks[i := blocks[i].(used := used)])
  {
    Listed(m, head, blocks, i);
    TakenIs(m, blocks[i], AddrOf(blocks, i + 1), used);
    ChangeFollows(m, SetUsed(m, blocks[i].addr, used), head, blocks, i, blocks[i].(used := used));
  }

  // ----- A new block -----

  lemma BumpIs(m: Memory, a: nat, sz: nat, next: nat)
    requires 0 < a && a + HDR <= |m| && sz < WORD && next < WORD
    ensures OnlyHeader(m, BumpStores(m, a, sz, next), a) && Stands(BumpStores(m, a, sz, next), Block(a, sz, true), next)
  {
    var m1 := SetSize(m, a, sz);
    SetSizeIs(m, a, sz);
    var m2 := SetUsed(m1, a, true);
    SetUsedIs(m1, a, true);
    SetNextIs(m2, a, next);
  }

  lemma BumpApart(blocks: seq<Block>, b: Block)
    requires HeadersApart(blocks)
    ensures HeadersApart([b] + blocks) <==> Misses(b.addr, blocks)
  {
    var x := [b] + blocks;
    if Misses(b.addr, blocks) {
      forall k, l | 0 <= k < l < |x| ensures Apart(x[k].addr, x[l].addr) {
        if k == 0 { assert Apart(b.addr, blocks[l - 1].addr); } else { assert Apart(blocks[k - 1].addr, blocks[l - 1].addr); }
      }
    } else {
      var j :| 0 <= j < |blocks| && !Apart(b.addr, blocks[j].addr);
      assert !Apart(x[0].addr, x[j + 1].addr);
    }
  }

  lemma BumpFollows(m: Memory, head: nat, blocks: seq<Block>, a: nat, sz: nat)
    requires Lists(m, head, blocks) && 0 < a && a + HDR <= WORD && sz < WORD
    ensures Lists(BumpStores(m, a, sz, head), a, [Block(a, sz, true)] + blocks) <==> Misses(a, blocks)
  {
    var m', x := BumpStores(m, a, sz, head), [Block(a, sz, true)] + blocks;
    BumpApart(blocks, Block(a, sz, true));
    if Misses(a, blocks) {
      HeadListed(m, head, blocks);
      BumpIs(m, a, sz, head);
      forall k | 0 <= k < |x| ensures ListedAt(m', x, k) {
        assert AddrOf(x, k + 1) == AddrOf(blocks, k);
        if k > 0 {
          assert ListedAt(m, blocks, k - 1) && Apart(a, blocks[k - 1].addr);
          StillStands(m, m', a, a, blocks[k - 1], AddrOf(blocks, k));
        }
      }
    }
  }

  // ----- kmalloc follows the list exactly when the new header is clear -----

  lemma HeadersInSpace(m: Memory, head: nat, blocks: seq<Block>)
    requires Lists(m, head, blocks)
    ensures Within(blocks) && forall i :: 0 <= i < |blocks| ==> blocks[i].addr != 0
  {
    forall i | 0 <= i < |blocks| ensures blocks[i].addr != 0 && blocks[i].addr + HDR <= |m| {
      assert ListedAt(m, blocks, i);
    }
  }

  // The three ways a request changes the heap.
  predicate Splits(h: Heap, size: nat) {
    var i := FirstFit(h.blocks, Round8(size));
    size != 0 && i < |h.blocks| && h.blocks[i].size > (Round8(size) + HDR) % WORD
  }

  predicate Marks(h: Heap, size: nat) {
    var i := FirstFit(h.blocks, Round8(size));
    size != 0 && i < |h.blocks| && h.blocks[i].size <= (Round8(size) + HDR) % WORD
  }

  predicate Bumps(h: Heap, size: nat) {
    size != 0 && FirstFit(h.blocks, Round8(size)) == |h.blocks| && Top(h, Round8(size)) <= h.end
  }

  lemma NoChange(m: Memory, head: nat, h: Heap, size: nat)
    requires |m| == WORD && InSpace(h, size) && Within(h.blocks)
    requires !Splits(h, size) && !Marks(h, size) && !Bumps(h, size)
    ensures MallocMemory(m, h, size) == m && MallocHead(h, head, size) == head && Malloc(h, size) == (h, 0)
    ensures NewHeader(h, size) == 0
  {
  }

  lemma TakeSplit(b: Block, sz: nat)
    requires b.size > (sz + HDR) % WORD && b.Payload() + sz < WORD
    ensures Take(b, sz) == [Block(b.addr, sz, true), Block(b.Payload() + sz, Rest(b.size, sz), false)]
  {
  }

  lemma SplitCase(m: Memory, head: nat, h: Heap, size: nat)
    requires |m| == WORD && InSpace(h, size) && Within(h.blocks)
    requires Splits(h, size)
    ensures var sz := Round8(size); var i := FirstFit(h.blocks, sz); var a := h.blocks[i].addr; var r := NewHeader(h, size);
      && MallocMemory(m, h, size) == SplitStores(SetUsed(m, a, true), a, r, sz) && MallocHead(h, head, size) == head
      && Malloc(h, size) == (h.(blocks := SplitBlocks(h.blocks, i, r, sz)), a + HDR)
  {
    TakeSplit(h.blocks[FirstFit(h.blocks, Round8(size))], Round8(size));
  }

  lemma MarkCase(m: Memory, head: nat, h: Heap, size: nat)
    requires |m| == WORD && InSpace(h, size) && Within(h.blocks)
    requires Marks(h, size)
    ensures var i := FirstFit(h.blocks, Round8(size)); var a := h.blocks[i].addr;
      && MallocMemory(m, h, size) == SetUsed(m, a, true) && MallocHead(h, head, size) == head
      && Malloc(h, size) == (h.(blocks := h.blocks[i := h.blocks[i].(used := true)]), a + HDR)
    ensures NewHeader(h, size) == 0
  {
    var i := FirstFit(h.blocks, Round8(size));
    assert h.blocks[i := h.blocks[i].(used := true)] == Splice(h.blocks, i, 1, [h.blocks[i].(used := true)]);
  }

  lemma BumpCase(m: Memory, head: nat, h: Heap, size: nat)
    requires |m| == WORD && InSpace(h, size) && Within(h.blocks)
    requires Bumps(h, size) && 0 < h.current
    ensures var sz := Round8(size);
      && MallocMemory(m, h, size) == BumpStores(m, h.current, sz, AddrOf(h.blocks, 0))
      && MallocHead(h, head, size) == h.current && NewHeader(h, size) == h.current
      && Malloc(h, size) == (h.(current := Top(h, sz), blocks := [Block(h.current, sz, true)] + h.blocks), h.current + HDR)
  {
  }

  // The list in memory after kmalloc is the one that Malloc computes exactly when the header kmalloc writes meets
  // no header of the list.
  lemma MallocFollows(m: Memory, head: nat, h: Heap, size: nat)
    requires Lists(m, head, h.blocks) && 0 < h.current && InSpace(h, size)
    requires Within(h.blocks)
    ensures Lists(MallocMemory(m, h, size), MallocHead(h, head, size), Malloc(h, size).0.blocks) <==> Clear(h, size)
  {
    var sz, r := Round8(size), NewHeader(h, size);
    var i := FirstFit(h.blocks, sz);
    if Splits(h, size) {
      SplitCase(m, head, h, size);
      SplitFollows(m, head, h.blocks, i, r, sz);
    } else if Marks(h, size) {
      MarkCase(m, head, h, size);
      MarkFollows(m, head, h.blocks, i, true);
    } else if Bumps(h, size) {
      BumpCase(m, head, h, size);
      BumpFollows(m, head, h.blocks, r, sz);
    } else {
      NoChange(m, head, h, size);
    }
  }

  // ----- kfree always follows the list -----

  function Sum(size: nat, next: nat): nat { (size + (next + HDR) % WORD) % WORD }

  function MergeStores(m: Memory, a: nat, n: nat): (m': Memory)
    requires a + HDR <= |m| && n + HDR <= |m|
    ensures |m'| == |m|
  {
    var m2 := SetSize(m, a, Sum(SizeAt(m, a), SizeAt(m, n)));
    SetNext(m2, a, NextAt(m2, n))
  }

  // The memory after kfree(ptr), whose header names a next one inside the address space.
  function FreeMemory(m: Memory, ptr: nat): (m': Memory)
    requires HDR <= ptr <= |m| && NextAt(m, ptr - HDR) + HDR <= |m|
    ensures |m'| == |m|
  {
    var m1 := SetUsed(m, ptr - HDR, false);
    var n := NextAt(m, ptr - HDR);
    if n == 0 || UsedAt(m1, n) then m1 else MergeStores(m1, ptr - HDR, n)
  }

  lemma MergeIs(m: Memory, b: Block, n: Block, next: nat)
    requires Stands(m, b, n.addr) && Stands(m, n, next) && Apart(b.addr, n.addr) && next < WORD && !b.used
    ensures var m' := MergeStores(m, b.addr, n.addr); OnlyHeader(m, m', b.addr) && Stands(m', Merged(b, n), next)
  {
    var sum := Sum(b.size, n.size);
    var m2 := SetSize(m, b.addr, sum);
    SetSizeIs(m, b.addr, sum);
    HeaderKept(m, m2, b.addr, n.addr, n.size, n.used, next);
    SetNextIs(m2, b.addr, next);
    OneHeader(m, m2, SetNext(m2, b.addr, next), b.addr);
  }

  lemma OneHeader(m: Memory, m1: Memory, m2: Memory, a: nat)
    requires OnlyHeader(m, m1, a) && OnlyHeader(m1, m2, a)
    ensures OnlyHeader(m, m2, a)
  {
  }

  // The blocks of the list after the one at i took in the next.
  function MergeBlocks(blocks: seq<Block>, i: nat): (x: seq<Block>)
    requires i + 1 < |blocks|
    ensures |x| == |blocks| - 1 && x[i] == Merged(blocks[i], blocks[i + 1])
    ensures forall k :: 0 <= k < i ==> x[k] == blocks[k]
    ensures forall k :: i < k < |x| ==> x[k] == blocks[k + 1]
  {
    Splice(blocks, i, 2, [Merged(blocks[i], blocks[i + 1])])
  }

  lemma MergeListed(m: Memory, head: nat, blocks: seq<Block>, i: nat, m': Memory, k: nat)
    requires Lists(m, head, blocks) && i + 1 < |blocks| && OnlyHeader(m, m', blocks[i].addr) && k < |blocks| - 1
    requires Stands(m', Merged(blocks[i], blocks[i + 1]), AddrOf(blocks, i + 2))
    ensures ListedAt(m', MergeBlocks(blocks, i), k)
  {
    var x := MergeBlocks(blocks, i);
    if k == i {
      assert AddrOf(x, k + 1) == AddrOf(blocks, i + 2);
    } else {
      var j := if k < i then k else k + 1;
      assert x[k] == blocks[j] && AddrOf(x, k + 1) == AddrOf(blocks, j + 1);
      assert ListedAt(m, blocks, j);
      ApartFrom(blocks, i, j);
      StillStands(m, m', blocks[i].addr, blocks[i].addr, blocks[j], AddrOf(blocks, j + 1));
    }
  }

  lemma MergeApart(blocks: seq<Block>, i: nat)
    requires HeadersApart(blocks) && i + 1 < |blocks|
    ensures HeadersApart(MergeBlocks(blocks, i))
  {
    var x := MergeBlocks(blocks, i);
    forall k, l | 0 <= k < l < |x| ensures Apart(x[k].addr, x[l].addr) {
      assert Apart(blocks[if k <= i then k else k + 1].addr, blocks[if l <= i then l else l + 1].addr);
    }
  }

  lemma MergeFollows(m: Memory, head: nat, blocks: seq<Block>, i: nat)
    requires Lists(m, head, blocks) && i + 1 < |blocks| && !blocks[i].used
    requires blocks[i].addr + HDR <= |m| && blocks[i + 1].addr + HDR <= |m|
    ensures Lists(MergeStores(m, blocks[i].addr, blocks[i + 1].addr), head, MergeBlocks(blocks, i))
  {
    var m' := MergeStores(m, blocks[i].addr, blocks[i + 1].addr);
    Listed(m, head, blocks, i);
    Listed(m, head, blocks, i + 1);
    assert Apart(blocks[i].addr, blocks[i + 1].addr);
    MergeIs(m, blocks[i], blocks[i + 1], AddrOf(blocks, i + 2));
    forall k | 0 <= k < |blocks| - 1 ensures ListedAt(m', MergeBlocks(blocks, i), k) {
      MergeListed(m, head, blocks, i, m', k);
    }
    MergeApart(blocks, i);
  }

  lemma Reads(m: Memory, head: nat, blocks: seq<Block>, i: nat)
    requires Lists(m, head, blocks) && i < |blocks|
    ensures blocks[i].addr + HDR <= |m| && NextAt(m, blocks[i].addr) == AddrOf(blocks, i + 1)
    ensures AddrOf(blocks, i + 1) + HDR <= |m|
  {
    Listed(m, head, blocks, i);
  }

  // Whether kfree reads a free next header.
  lemma ReadsNext(m: Memory, head: nat, blocks: seq<Block>, i: nat)
    requires Lists(m, head, blocks) && i < |blocks| && blocks[i].addr + HDR <= |m|
    ensures var n := AddrOf(blocks, i + 1); var m1 := SetUsed(m, blocks[i].addr, false);
      n + HDR <= |m| && (n == 0 || UsedAt(m1, n) <==> !Merges(blocks, i))
  {
    Listed(m, head, blocks, i);
    if i + 1 < |blocks| {
      MarkFollows(m, head, blocks, i, false);
      Listed(SetUsed(m, blocks[i].addr, false), head, blocks[i := blocks[i].(used := false)], i + 1);
    }
  }

  // What kfree stores, and what it does to the list.
  lemma FreeStores(m: Memory, head: nat, blocks: seq<Block>, i: nat, a: nat)
    requires Lists(m, head, blocks) && i < |blocks| && blocks[i].addr == a && a + HDR <= |m|
    requires NextAt(m, a) + HDR <= |m| && AddrOf(blocks, i + 1) + HDR <= |m|
    ensures var m1 := SetUsed(m, a, false);
      FreeMemory(m, a + HDR) == if Merges(blocks, i) then MergeStores(m1, a, AddrOf(blocks, i + 1)) else m1
  {
    Reads(m, head, blocks, i);
    ReadsNext(m, head, blocks, i);
  }

  lemma FreeBlocks(h: Heap, i: nat)
    requires i < |h.blocks| && IndexOf(h.blocks, h.blocks[i].addr) == i
    ensures var marked := h.blocks[i := h.blocks[i].(used := false)];
      Free(h, h.blocks[i].Payload()) == h.(blocks := if Merges(h.blocks, i) then MergeBlocks(marked, i) else marked)
  {
    if Merges(h.blocks, i) { MarkedMerges(h.blocks, i, h.blocks[i].(used := false)); }
  }

  lemma MarkedMerges(blocks: seq<Block>, i: nat, b: Block)
    requires i + 1 < |blocks| && b == blocks[i].(used := false)
    ensures MergeBlocks(blocks[i := b], i) == MergeBlocks(blocks, i)
  {
    assert Merged(b, blocks[i + 1]) == Merged(blocks[i], blocks[i + 1]);
  }

  // The list in memory after kfree is always the one that Free computes.
  lemma FreeFollows(m: Memory, head: nat, h: Heap, ptr: nat)
    requires Lists(m, head, h.blocks) && IsBlock(h, ptr) && ptr <= |m| && NextAt(m, ptr - HDR) + HDR <= |m|
    ensures Lists(FreeMemory(m, ptr), head, Free(h, ptr).blocks)
  {
    var i := IndexOf(h.blocks, ptr - HDR);
    Reads(m, head, h.blocks, i);
    FreeStores(m, head, h.blocks, i, ptr - HDR);
    FreeBlocks(h, i);
    FreedFollows(m, head, h.blocks, i, ptr - HDR);
  }

  lemma FreedFollows(m: Memory, head: nat, blocks: seq<Block>, i: nat, a: nat)
    requires Lists(m, head, blocks) && i < |blocks| && blocks[i].addr == a && a + HDR <= |m|
    requires AddrOf(blocks, i + 1) + HDR <= |m|
    ensures var m1, marked := SetUsed(m, a, false), blocks[i := blocks[i].(used := false)];
      if Merges(blocks, i) then Lists(MergeStores(m1, a, AddrOf(blocks, i + 1)), head, MergeBlocks(marked, i))
      else Lists(m1, head, marked)
  {
    MarkFollows(m, head, blocks, i, false);
    if Merges(blocks, i) {
      MergeFollows(SetUsed(m, a, false), head, blocks[i := blocks[i].(used := false)], i);
    }
  }
}
