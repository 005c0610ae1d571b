/** Runs of the heap of kernel/mm.c in memory: when the list in memory stays the one that accounts for every byte. */
module HeapRuns {
  import opened Machine
  import opened HeapModel
  import opened Headers
  import opened HeapMemory

  // The address space with heap_free_list.
  datatype Image = Image(mem: Memory, head: nat)

  // The list in memory is that of h.
  ghost predicate Follows(s: Image, h: Heap) { 0 < h.start <= h.current && Lists(s.mem, s.head, h.blocks) }

  // A step the code can be asked for: frees name blocks, the pointer arithmetic of kmalloc is defined.
  ghost predicate Callable(h: Heap, op: Op) {
    match op
    case MallocOp(size) => size < WORD && InSpace(h, size)
    case FreeOp(ptr) => ptr == 0 || IsBlock(h, ptr)
  }

  ghost function StepMemory(s: Image, h: Heap, op: Op): Image
    requires Follows(s, h) && Callable(h, op)
  {
    HeadersInSpace(s.mem, s.head, h.blocks);
    match op
    case MallocOp(size) => Image(MallocMemory(s.mem, h, size), MallocHead(h, s.head, size))
    case FreeOp(ptr) =>
      if ptr == 0 then s
      else
        Reads(s.mem, s.head, h.blocks, IndexOf(h.blocks, ptr - HDR));
        Image(FreeMemory(s.mem, ptr), s.head)
  }

  // The request neither wraps the bump addition nor writes its header over one of the list.
  ghost predicate Harmless(h: Heap, op: Op) { op.MallocOp? ==> !WrapsIn(h, op.size) && Clear(h, op.size) }

  // After the step the list in memory is the specified one and accounts for every byte given out.
  ghost predicate Accounted(s: Image, h: Heap) { Lists(s.mem, s.head, h.blocks) && Conserved(h) }

  // One step, exactly.
  lemma StepConserves(s: Image, h: Heap, op: Op)
    requires Follows(s, h) && Conserved(h) && Callable(h, op)
    ensures Accounted(StepMemory(s, h, op), Step(h, op)) <==> Harmless(h, op)
  {
    HeadersInSpace(s.mem, s.head, h.blocks);
    match op {
      case MallocOp(size) =>
        MallocFollows(s.mem, s.head, h, size);
        MallocConserves(h, size);
      case FreeOp(ptr) =>
        FreeConserves(h, ptr);
        if ptr != 0 {
          Reads(s.mem, s.head, h.blocks, IndexOf(h.blocks, ptr - HDR));
          FreeFollows(s.mem, s.head, h, ptr);
        }
    }
  }

  // The bytes that the list in memory accounts for, whatever list that is.
  lemma AccountedTotal(s: Image, h: Heap, y: seq<Block>)
    requires Accounted(s, h) && Lists(s.mem, s.head, y)
    ensures Total(y) == h.current - h.start
  {
    OneList(s.mem, s.head, h.blocks, y);
  }

  // ----- Whole runs -----

  ghost predicate CallableRun(h: Heap, ops: seq<Op>)
    decreases |ops|
  {
    ops == [] || (Callable(h, ops[0]) && CallableRun(Step(h, ops[0]), ops[1..]))
  }

  ghost predicate HarmlessRun(h: Heap, ops: seq<Op>)
    requires CallableRun(h, ops)
    decreases |ops|
  {
    ops == [] || (Harmless(h, ops[0]) && HarmlessRun(Step(h, ops[0]), ops[1..]))
  }

  // Every state of the run is accounted for.
  ghost predicate AccountedThroughout(s: Image, h: Heap, ops: seq<Op>)
    requires Follows(s, h) && CallableRun(h, ops)
    decreases |ops|
  {
    ops == [] ||
    (Accounted(StepMemory(s, h, ops[0]), Step(h, ops[0]))
     && AccountedThroughout(StepMemory(s, h, ops[0]), Step(h, ops[0]), ops[1..]))
  }

  ghost function RunMemory(s: Image, h: Heap, ops: seq<Op>): Image
    requires Follows(s, h) && CallableRun(h, ops) && AccountedThroughout(s, h, ops)
    decreases |ops|
  {
    if ops == [] then s else RunMemory(StepMemory(s, h, ops[0]), Step(h, ops[0]), ops[1..])
  }

  // The list in memory accounts for every byte throughout a run exactly when no step wraps or writes a header over
  // one in use.
  lemma {:induction false} RunConserves(s: Image, h: Heap, ops: seq<Op>)
    requires Follows(s, h) && Conserved(h) && CallableRun(h, ops)
    ensures AccountedThroughout(s, h, ops) <==> HarmlessRun(h, ops)
    ensures HarmlessRun(h, ops) ==> Legal(h, ops) && Accounted(RunMemory(s, h, ops), Run(h, ops))
    decreases |ops|
  {
    if ops != [] {
      StepConserves(s, h, ops[0]);
      if Harmless(h, ops[0]) {
        RunConserves(StepMemory(s, h, ops[0]), Step(h, ops[0]), ops[1..]);
      }
    }
  }

  // ----- Tiled heaps -----

  // In a tiled heap the header that a request writes lies in free bytes.
  lemma TiledIsClear(h: Heap, size: nat)
    requires Tiles(h) && size < WORD && !WrapsIn(h, size)
    ensures InSpace(h, size) && Clear(h, size)
  {
    var r := NewHeader(h, size);
    if r != 0 {
      var i := FirstFit(h.blocks, Round8(size));
      if i < |h.blocks| { TilesApart(h, i, i); }
      forall j | 0 <= j < |h.blocks| ensures Apart(r, h.blocks[j].addr) {
        TilesApart(h, j, j);
        if i < |h.blocks| { TilesApart(h, i, j); }
      }
    }
  }

  // So a run whose merges join neighbours is harmless, and every byte stays accounted for.
  lemma {:induction false} NeighboursAreHarmless(h: Heap, ops: seq<Op>)
    requires Conserved(h) && Tiles(h) && Legal(h, ops) && MergesNeighbours(h, ops)
    ensures CallableRun(h, ops) && HarmlessRun(h, ops)
    decreases |ops|
  {
    if ops != [] {
      match ops[0] {
        case MallocOp(size) => MallocConserves(h, size); MallocTiles(h, size); TiledIsClear(h, size);
        case FreeOp(ptr) => FreeConserves(h, ptr); if ptr != 0 { FreeTiles(h, ptr); }
      }
      NeighboursAreHarmless(Step(h, ops[0]), ops[1..]);
    }
  }

  lemma TiledRunConserves(s: Image, h: Heap, ops: seq<Op>)
    requires Follows(s, h) && Conserved(h) && Tiles(h) && Legal(h, ops) && MergesNeighbours(h, ops)
    ensures CallableRun(h, ops) && AccountedThroughout(s, h, ops)
    ensures Accounted(RunMemory(s, h, ops), Run(h, ops)) && Tiles(Run(h, ops))
  {
    NeighboursAreHarmless(h, ops);
    RunConserves(s, h, ops);
    RunTiles(h, ops);
  }

  // ----- A run that loses blocks -----

  // A run that does no harm ends in h'.
  ghost predicate RunsTo(h: Heap, ops: seq<Op>, h': Heap) {
    CallableRun(h, ops) && HarmlessRun(h, ops) && Legal(h, ops) && Run(h, ops) == h'
  }

  lemma FirstStep(h: Heap, op: Op, h1: Heap, ops: seq<Op>, h': Heap)
    requires Callable(h, op) && Harmless(h, op) && Step(h, op) == h1 && RunsTo(h1, ops, h')
    ensures RunsTo(h, [op] + ops, h')
  {
    assert ([op] + ops)[1..] == ops;
  }

  // A request for 8 bytes that no block fits.
  lemma Request8(h: Heap, h1: Heap, ops: seq<Op>, h': Heap)
    requires FirstFit(h.blocks, 8) == |h.blocks| && 0 < h.current && h.current + 32 <= h.end < WORD
    requires forall i :: 0 <= i < |h.blocks| ==> h.blocks[i].addr + HDR <= h.current
    requires h1 == h.(current := h.current + 32, blocks := [Block(h.current, 8, true)] + h.blocks) && RunsTo(h1, ops, h')
    ensures RunsTo(h, [MallocOp(8)] + ops, h')
  {
    assert Round8(8) == 8 && Top(h, 8) == h.current + 32;
    FirstStep(h, MallocOp(8), h1, ops, h');
  }

  // Three blocks of 8 bytes, the last one given out first on the list.
  function Three(s: nat, end: nat, freed: bool): Heap {
    Heap(s, end, s + 96, [Block(s + 64, 8, true), Block(s + 32, 8, true), Block(s, 8, !freed)])
  }

  // Freed in order of allocation, the first two make one block that reaches over the header of the third.
  function TwoMerged(s: nat, end: nat): Heap {
    Heap(s, end, s + 96, [Block(s + 64, 8, true), Block(s + 32, 40, false)])
  }

  function Five(s: nat): seq<Op> {
    [MallocOp(8)] + ([MallocOp(8)] + ([MallocOp(8)] + TwoFrees(s)))
  }

  function TwoFrees(s: nat): seq<Op> { [FreeOp(s + 24)] + [FreeOp(s + 56)] }

  lemma RunTwoFrees(s: nat, end: nat)
    requires 0 < s && s + 0x1000 <= end < WORD
    ensures RunsTo(Three(s, end, false), TwoFrees(s), TwoMerged(s, end))
  {
    var h, h4, h5 := Three(s, end, false), Three(s, end, true), TwoMerged(s, end);
    assert IndexOf(h.blocks[1..][1..], s) == 0 && IndexOf(h.blocks[1..], s) == 1;
    assert Step(h, FreeOp(s + 24)) == h4;
    assert IndexOf(h4.blocks[1..], s + 32) == 0;
    assert Step(h4, FreeOp(s + 56)) == h5;
    FirstStep(h4, FreeOp(s + 56), h5, [], h5);
    assert [FreeOp(s + 56)] + [] == [FreeOp(s + 56)];
    FirstStep(h, FreeOp(s + 24), h4, [FreeOp(s + 56)], h5);
  }

  lemma RunFive(s: nat, end: nat)
    requires 0 < s && s + 0x1000 <= end < WORD
    ensures RunsTo(Empty(s, end), Five(s), TwoMerged(s, end))
  {
    var b1, b2 := Block(s, 8, true), Block(s + 32, 8, true);
    var h1, h2 := Heap(s, end, s + 32, [b1]), Heap(s, end, s + 64, [b2, b1]);
    RunTwoFrees(s, end);
    assert h2.blocks[1..] == [b1] && FirstFit([b1], 8) == 1;
    Request8(h2, Three(s, end, false), TwoFrees(s), TwoMerged(s, end));
    Request8(h1, h2, [MallocOp(8)] + TwoFrees(s), TwoMerged(s, end));
    Request8(Empty(s, end), h1, [MallocOp(8)] + ([MallocOp(8)] + TwoFrees(s)), TwoMerged(s, end));
  }

  // The sixth request splits the merged block. Its remainder's header falls on that of the third block, which
  // nobody freed: memory then lists that block alone, as free.
  lemma SixthRequest(h: Heap, s: nat, end: nat)
    requires 0 < s && s + 0x1000 <= end < WORD && h == TwoMerged(s, end)
    ensures Splits(h, 8) && FirstFit(h.blocks, 8) == 1 && Round8(8) == 8 && NewHeader(h, 8) == s + 64
    ensures Callable(h, MallocOp(8)) && !WrapsIn(h, 8) && !Clear(h, 8)
  {
    assert FirstFit(h.blocks[1..], 8) == 0;
    assert !Apart(s + 64, h.blocks[0].addr);
  }

  lemma SixthInMemory(t: Image, h: Heap, s: nat, end: nat)
    requires 0 < s && s + 0x1000 <= end < WORD && h == TwoMerged(s, end) && Follows(t, h) && Callable(h, MallocOp(8))
    ensures var t' := StepMemory(t, h, MallocOp(8)); Lists(t'.mem, t'.head, [Block(s + 64, 8, false)])
  {
    var one := Block(s + 64, 8, false);
    SixthRequest(h, s, end);
    HeadersInSpace(t.mem, t.head, h.blocks);
    Listed(t.mem, t.head, h.blocks, 1);
    SplitCase(t.mem, t.head, h, 8);
    SplitStoresIs(t.mem, h.blocks[1], 0, s + 64, 8);
    OneBlock(StepMemory(t, h, MallocOp(8)).mem, one);
  }

  lemma OneBlock(m: Memory, b: Block)
    requires |m| == WORD && Stands(m, b, 0)
    ensures Lists(m, b.addr, [b])
  {
    assert ListedAt(m, [b], 0);
  }

  lemma LostBlocks(mem: Memory, s: nat, end: nat)
    requires |mem| == WORD && 0 < s && s + 0x1000 <= end < WORD
    ensures var i := Image(mem, 0); var h := Empty(s, end);
      && Follows(i, h) && Conserved(h) && CallableRun(h, Five(s)) && AccountedThroughout(i, h, Five(s))
      && Legal(h, Five(s)) && Run(h, Five(s)) == TwoMerged(s, end)
      && Follows(RunMemory(i, h, Five(s)), TwoMerged(s, end)) && Callable(TwoMerged(s, end), MallocOp(8))
      && var t := StepMemory(RunMemory(i, h, Five(s)), TwoMerged(s, end), MallocOp(8));
      && forall y :: Lists(t.mem, t.head, y) ==> y == [Block(s + 64, 8, false)] && Total(y) == 32
  {
    var i, h := Image(mem, 0), Empty(s, end);
    RunFive(s, end);
    RunConserves(i, h, Five(s));
    SixthRequest(TwoMerged(s, end), s, end);
    SixthInMemory(RunMemory(i, h, Five(s)), TwoMerged(s, end), s, end);
    var t := StepMemory(RunMemory(i, h, Five(s)), TwoMerged(s, end), MallocOp(8));
    var one := [Block(s + 64, 8, false)];
    assert Total(one[1..]) == 0;
    forall y | Lists(t.mem, t.head, y) ensures y == one {
      OneList(t.mem, t.head, one, y);
    }
  }
}
