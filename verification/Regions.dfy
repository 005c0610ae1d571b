/** Heap regions of one address space (kernel/mm.c): the frame allocator and the page tables composed. */
module Regions {
  import opened Machine
  import opened Frames
  import opened PageEntries
  import opened PageWalk
  import opened Mmu

  datatype Region = Region(start: nat, end: nat, flags: bv32)

  // PAGE_ALIGN on a 64-bit size: the addition wraps.
  function PageAlign(size: nat): nat { (size + PAGE_SIZE - 1) % WORD / PAGE_SIZE * PAGE_SIZE }

  // The address of heap page k.
  function PageAddr(k: nat): nat { HEAP_START + k * PAGE_SIZE }

  predicate Covers(r: Region, k: nat) { r.start <= PageAddr(k) < r.end }

  predicate Inside(regions: seq<Region>, a: nat) {
    exists i :: 0 <= i < |regions| && regions[i].start <= a < regions[i].end
  }

  // ----- The restart scan -----

  // How many regions end above a; each restart of the scan lowers it.
  function EndsAbove(regions: seq<Region>, a: nat): nat {
    if regions == [] then 0
    else (if a < regions[0].end then 1 else 0) + EndsAbove(regions[1..], a)
  }

  lemma {:induction false} EndsAboveFalls(regions: seq<Region>, a: nat, b: nat)
    requires a <= b
    ensures EndsAbove(regions, b) <= EndsAbove(regions, a)
    ensures (exists i :: 0 <= i < |regions| && a < regions[i].end <= b) ==>
      EndsAbove(regions, b) < EndsAbove(regions, a)
  {
    if regions != [] {
      EndsAboveFalls(regions[1..], a, b);
      if i :| 0 <= i < |regions| && a < regions[i].end <= b {
        if i > 0 {
          assert regions[1..][i - 1] == regions[i];
        }
      }
    }
  }

  // The search loop of mm_alloc_region, on any region list: it ends, at the first address from
  // "from" on that lies in no region.
  method Scan(regions: seq<Region>, from: nat) returns (addr: nat)
    ensures from <= addr && !Inside(regions, addr)
    ensures forall a :: from <= a < addr ==> Inside(regions, a)
  {
    addr := from;
    var i := 0;
    while i < |regions|
      invariant 0 <= i <= |regions| && from <= addr
      invariant forall a :: from <= a < addr ==> Inside(regions, a)
      invariant forall j :: 0 <= j < i ==> !(regions[j].start <= addr < regions[j].end)
      decreases EndsAbove(regions, addr), |regions| - i
    {
      if regions[i].start <= addr < regions[i].end {
        EndsAboveFalls(regions, addr, regions[i].end);
        forall a | from <= a < regions[i].end ensures Inside(regions, a) {
          if addr <= a { assert regions[i].start <= a < regions[i].end; }
        }
        addr := regions[i].end;
        i := 0;
      } else {
        i := i + 1;
      }
    }
  }

  // ----- Page numbers on the heap -----

  // The heap window stays below 2^48, so its pages have different page numbers.
  const MAX_FRAMES: nat := 0xFFF0_0000

  lemma HeapPages(c: Config, k: nat, m: nat)
    requires k < MAX_FRAMES && m < MAX_FRAMES
    ensures PathOf(PageAddr(k)) == PathOf(PageAddr(m)) <==> k == m
    ensures c.reserved <= (set j | 0 <= j < 4 :: (0, j)) ==> Managed(c, PathOf(PageAddr(k)))
  {
    HeapPageNumber(k);
    HeapPageNumber(m);
    SamePath(PageAddr(k), PageAddr(m));
    HeapAvoidsBoot(k);
  }

  lemma HeapPageNumber(k: nat)
    requires k < MAX_FRAMES
    ensures PageNumber(PageAddr(k)) == 0x10_0000 + k
  {
  }

  lemma HeapAvoidsBoot(k: nat)
    requires k < MAX_FRAMES
    ensures var p := PathOf(PageAddr(k)); p.i4 == 0 ==> p.i3 >= 4
  {
  }

  lemma WholePages(size: nat)
    ensures PageAlign(size) == PageAlign(size) / PAGE_SIZE * PAGE_SIZE
    ensures forall free: int :: PageAlign(size) / PAGE_SIZE <= free <==> PageAlign(size) <= free * PAGE_SIZE
  {
  }

  // PAGE_ALIGN gives the least multiple of the page size from size on, or 0 when the addition wraps.
  lemma RoundsUp(size: nat)
    requires size < WORD
    ensures PageAlign(size) % PAGE_SIZE == 0
    ensures size + PAGE_SIZE <= WORD ==> size <= PageAlign(size) < size + PAGE_SIZE
    ensures size + PAGE_SIZE > WORD ==> PageAlign(size) == 0
  {
  }

  // A region of the rounded size, and the frames it takes.
  lemma RegionSize(size: nat, n: nat, addr: nat, end: nat, free: nat)
    requires size < WORD && n == PageAlign(size) / PAGE_SIZE && end == addr + n * PAGE_SIZE
    ensures size + PAGE_SIZE <= WORD ==> addr + size <= end < addr + size + PAGE_SIZE
    ensures size + PAGE_SIZE > WORD ==> end == addr
    ensures n <= free <==> size + PAGE_SIZE > WORD || size <= free * PAGE_SIZE
  {
    RoundsUp(size);
    WholePages(size);
  }

  // A region is given back under the size it was asked for exactly when that size is whole pages.
  lemma ReleaseMatches(addr: nat, size: nat)
    requires size < WORD && addr + PageAlign(size) < WORD
    ensures (addr + size) % WORD == addr + PageAlign(size) <==> size % PAGE_SIZE == 0
  {
  }

  // ----- Which frame stands behind which heap page -----

  datatype Page = Page(frame: nat, flags: bv32)
  type Backing = map<nat, Page>

  // The heap window of the space shows exactly the pages of the backing.
  ghost predicate Backed(c: Config, v: View, root: nat, base: nat, backing: Backing) {
    forall k :: 0 <= k < MAX_FRAMES ==>
      && (root, PathOf(PageAddr(k))) in v
      && v[(root, PathOf(PageAddr(k)))] == PageView(c, root, base, backing, k)
  }

  function PageView(c: Config, root: nat, base: nat, backing: Backing, k: nat): Translation {
    if k in backing then Outcome(c, Map(root, PageAddr(k), base + backing[k].frame * PAGE_SIZE, backing[k].flags))
    else Unmapped
  }

  lemma BackedAfterSet(c: Config, v: View, root: nat, base: nat, backing: Backing, backing': Backing, k: nat)
    requires Backed(c, v, root, base, backing) && k < MAX_FRAMES
    requires forall m :: m != k ==> (m in backing' <==> m in backing) && (m in backing ==> backing'[m] == backing[m])
    ensures Backed(c, Set(c, v, root, PathOf(PageAddr(k)), PageView(c, root, base, backing', k)), root, base, backing')
  {
    forall m | 0 <= m < MAX_FRAMES
      ensures PathOf(PageAddr(m)) == PathOf(PageAddr(k)) <==> m == k
      ensures m != k ==> PageView(c, root, base, backing', m) == PageView(c, root, base, backing, m)
    {
      HeapPages(c, m, k);
    }
  }

  lemma FrameAddress(base: nat, total: nat, frame: nat)
    requires base % PAGE_SIZE == 0 && base + total * PAGE_SIZE <= PHYS_LIMIT && frame < total
    ensures (base + frame * PAGE_SIZE) % PAGE_SIZE == 0 && base + frame * PAGE_SIZE < PHYS_LIMIT
  {
  }

  // No two pages share a frame, and the allocator still counts each of their frames as held.
  ghost predicate FramesOk(backing: Backing, held: set<nat>, total: nat) {
    && (forall k :: k in backing ==> k < total && backing[k].frame < total && backing[k].frame in held)
    && (forall k, m :: k in backing && m in backing && k != m ==> backing[k].frame != backing[m].frame)
  }

  lemma FramesOkAfterMap(backing: Backing, held: set<nat>, total: nat, k: nat, p: Page)
    requires FramesOk(backing, held, total) && k < total && p.frame < total && p.frame in held
    requires forall m :: m in backing ==> backing[m].frame != p.frame
    ensures FramesOk(backing[k := p], held, total)
  {
  }

  // The regions are whole pages above HEAP_START, newest first, each below the one before it.
  ghost predicate RegionsOk(regions: seq<Region>, heapEnd: nat) {
    && HEAP_START <= heapEnd && heapEnd % PAGE_SIZE == 0
    && (forall i :: 0 <= i < |regions| ==>
          HEAP_START <= regions[i].start <= regions[i].end <= heapEnd
          && regions[i].start % PAGE_SIZE == 0 && regions[i].end % PAGE_SIZE == 0)
    && (forall i, j :: 0 <= i < j < |regions| ==> regions[j].end <= regions[i].start)
  }

  // A page is backed exactly when a live region covers it, with that region's flags.
  ghost predicate Covered(regions: seq<Region>, backing: Backing) {
    && (forall i, k: nat :: 0 <= i < |regions| && Covers(regions[i], k) ==>
          k in backing && backing[k].flags == regions[i].flags)
    && (forall k :: k in backing ==> Live(regions, k))
  }

  // Some region covers page k.
  ghost predicate Live(regions: seq<Region>, k: nat) { exists i :: 0 <= i < |regions| && Covers(regions[i], k) }

  function Min(a: int, b: int): int { if a < b then a else b }

  // The pages k0 .. k0 + n - 1.
  ghost predicate InRun(k: nat, k0: nat, n: nat) { k0 <= k < k0 + n }

  ghost predicate Extended(before: Backing, after: Backing, k0: nat, n: nat, flags: bv32) {
    && (forall k :: k in after <==> k in before || InRun(k, k0, n))
    && (forall k :: k in before && !InRun(k, k0, n) ==> after[k] == before[k])
    && (forall k :: InRun(k, k0, n) ==> after[k].flags == flags)
  }

  // No page of the run is backed.
  ghost predicate Unbacked(backing: Backing, k0: nat, n: nat) { forall k :: InRun(k, k0, n) ==> k !in backing }

  // Pages that are backed stay so.
  ghost predicate Grows(before: Backing, after: Backing) { forall k :: k in before ==> k in after && after[k] == before[k] }

  lemma ExtendedGrows(before: Backing, after: Backing, k0: nat, n: nat, flags: bv32)
    requires Extended(before, after, k0, n, flags) && Unbacked(before, k0, n)
    ensures Grows(before, after)
  {
  }

  // Pages k0, k0 + 1, ... added one after the other, backed by the frames fs.
  ghost function Grown(before: Backing, k0: nat, fs: seq<nat>, flags: bv32): Backing
    decreases |fs|
  {
    if fs == [] then before
    else
      var n := |fs| - 1;
      Grown(before, k0, fs[..n], flags)[k0 + n := Page(fs[n], flags)]
  }

  lemma GrownByOne(before: Backing, k0: nat, fs: seq<nat>, flags: bv32, k: nat, f: nat)
    requires k == k0 + |fs|
    ensures Grown(before, k0, fs + [f], flags) == Grown(before, k0, fs, flags)[k := Page(f, flags)]
  {
  }

  lemma {:induction false} GrownExtends(before: Backing, k0: nat, fs: seq<nat>, flags: bv32)
    ensures Extended(before, Grown(before, k0, fs, flags), k0, |fs|, flags)
    decreases |fs|
  {
    if fs != [] {
      GrownExtends(before, k0, fs[..|fs| - 1], flags);
    }
  }

  // Pages k0, ..., k0 + j - 1 removed one after the other.
  ghost function Shrunk(b: Backing, k0: nat, j: nat): Backing {
    if j == 0 then b else Shrunk(b, k0, j - 1) - {k0 + j - 1}
  }

  lemma ShrunkByOne(b: Backing, k0: nat, j: nat, k: nat)
    requires k == k0 + j
    ensures Shrunk(b, k0, j + 1) == Shrunk(b, k0, j) - {k}
  {
  }

  lemma {:induction false} ShrunkIs(b: Backing, k0: nat, j: nat)
    ensures forall k :: k in Shrunk(b, k0, j) <==> k in b && !InRun(k, k0, j)
    ensures forall k :: k in Shrunk(b, k0, j) ==> Shrunk(b, k0, j)[k] == b[k]
  {
    if j > 0 {
      ShrunkIs(b, k0, j - 1);
    }
  }

  // Removing what was added gives back the start.
  lemma ShrunkUndoesGrown(before: Backing, k0: nat, fs: seq<nat>, flags: bv32)
    requires Unbacked(before, k0, |fs|)
    ensures Shrunk(Grown(before, k0, fs, flags), k0, |fs|) == before
  {
    GrownExtends(before, k0, fs, flags);
    ShrunkIs(Grown(before, k0, fs, flags), k0, |fs|);
  }

  lemma NewRegionCovers(r: Region, k0: nat, n: nat, k: nat)
    requires r.start == PageAddr(k0) && r.end == PageAddr(k0 + n)
    ensures Covers(r, k) <==> InRun(k, k0, n)
  {
  }

  lemma CoveredAfterAlloc(regions: seq<Region>, before: Backing, after: Backing, k0: nat, n: nat, r: Region)
    requires r.start == PageAddr(k0) && r.end == PageAddr(k0 + n)
    requires Covered(regions, before) && Extended(before, after, k0, n, r.flags) && Unbacked(before, k0, n)
    ensures Covered([r] + regions, after)
  {
    var regions' := [r] + regions;
    forall i, k: nat | 0 <= i < |regions'| && Covers(regions'[i], k)
      ensures k in after && after[k].flags == regions'[i].flags
    {
      NewRegionCovers(r, k0, n, k);
      if i > 0 {
        assert regions'[i] == regions[i - 1];
        LivePage(regions, before, i - 1, k);
      }
    }
    forall k | k in after ensures Live(regions', k) {
      NewRegionCovers(r, k0, n, k);
      if InRun(k, k0, n) {
        assert Covers(regions'[0], k);
      } else {
        var i :| 0 <= i < |regions| && Covers(regions[i], k);
        assert regions'[i + 1] == regions[i];
      }
    }
  }

  function Without(regions: seq<Region>, i: nat): (rest: seq<Region>)
    requires i < |regions|
    ensures |rest| == |regions| - 1
    ensures forall j :: 0 <= j < |rest| ==> rest[j] == regions[if j < i then j else j + 1]
  {
    regions[..i] + regions[i + 1..]
  }

  lemma RegionsOkAfterFree(regions: seq<Region>, heapEnd: nat, i: nat)
    requires RegionsOk(regions, heapEnd) && i < |regions|
    ensures RegionsOk(Without(regions, i), heapEnd)
  {
  }

  lemma OtherRegionKept(regions: seq<Region>, heapEnd: nat, before: Backing, i: nat, j: nat, k: nat)
    requires RegionsOk(regions, heapEnd) && Covered(regions, before) && i < |regions|
    requires j < |Without(regions, i)| && Covers(Without(regions, i)[j], k)
    ensures k in before && before[k].flags == Without(regions, i)[j].flags && !Covers(regions[i], k)
  {
  }

  lemma StillCovered(regions: seq<Region>, before: Backing, i: nat, k: nat)
    requires Covered(regions, before) && i < |regions| && k in before && !Covers(regions[i], k)
    ensures Live(Without(regions, i), k)
  {
    var j :| 0 <= j < |regions| && Covers(regions[j], k);
    assert Without(regions, i)[if j < i then j else j - 1] == regions[j];
  }

  lemma CoveredAfterFree(regions: seq<Region>, heapEnd: nat, before: Backing, after: Backing, i: nat)
    requires RegionsOk(regions, heapEnd) && Covered(regions, before) && i < |regions|
    requires forall k :: k in after <==> k in before && !Covers(regions[i], k)
    requires forall k :: k in after ==> after[k] == before[k]
    ensures Covered(Without(regions, i), after)
  {
    var rest := Without(regions, i);
    forall j, k: nat | 0 <= j < |rest| && Covers(rest[j], k) ensures k in after && after[k].flags == rest[j].flags {
      OtherRegionKept(regions, heapEnd, before, i, j, k);
    }
    forall k | k in after ensures Live(rest, k) {
      StillCovered(regions, before, i, k);
    }
  }

  // The first region with these bounds; |regions| when there is none.
  function FirstMatch(regions: seq<Region>, start: nat, end: nat): (i: nat)
    ensures i <= |regions|
    ensures i < |regions| ==> regions[i].start == start && regions[i].end == end
    ensures forall j :: 0 <= j < i ==> !(regions[j].start == start && regions[j].end == end)
  {
    if regions == [] then 0
    else if regions[0].start == start && regions[0].end == end then 0
    else 1 + FirstMatch(regions[1..], start, end)
  }

  // Although only the start address is tested for conflicts, the new region begins above all others.
  lemma ScanFindsHeapEnd(regions: seq<Region>, heapEnd: nat, addr: nat)
    requires RegionsOk(regions, heapEnd) && heapEnd <= addr
    requires forall a :: heapEnd <= a < addr ==> Inside(regions, a)
    ensures addr == heapEnd
  {
    assert !Inside(regions, heapEnd);
  }

  lemma HeapEndPage(heapEnd: nat, k0: nat, used: nat)
    requires HEAP_START <= heapEnd <= PageAddr(used) && heapEnd % PAGE_SIZE == 0
    requires k0 == (heapEnd - HEAP_START) / PAGE_SIZE
    ensures heapEnd == PageAddr(k0) && k0 <= used
  {
  }

  lemma NothingAbove(regions: seq<Region>, heapEnd: nat, backing: Backing, k0: nat)
    requires RegionsOk(regions, heapEnd) && Covered(regions, backing) && heapEnd == PageAddr(k0)
    ensures forall k :: k >= k0 ==> k !in backing
  {
  }

  lemma RegionsOkAfterAlloc(regions: seq<Region>, heapEnd: nat, k0: nat, n: nat, r: Region)
    requires RegionsOk(regions, heapEnd) && heapEnd == PageAddr(k0)
    requires r.start == heapEnd && r.end == PageAddr(k0 + n)
    ensures RegionsOk([r] + regions, r.end)
  {
  }

  lemma PagesUpTo(k0: nat, n: nat, used: nat)
    requires k0 + n <= used
    ensures PageAddr(k0) + n * PAGE_SIZE == PageAddr(k0 + n) <= PageAddr(used)
  {
  }

  lemma RegionPages(regions: seq<Region>, heapEnd: nat, i: nat, k0: nat, n: nat)
    requires RegionsOk(regions, heapEnd) && i < |regions|
    requires k0 == (regions[i].start - HEAP_START) / PAGE_SIZE && n == (regions[i].end - regions[i].start) / PAGE_SIZE
    ensures regions[i].start == PageAddr(k0) && regions[i].end == PageAddr(k0 + n)
    ensures forall k :: Covers(regions[i], k) <==> InRun(k, k0, n)
  {
  }

  lemma RegionInPool(regions: seq<Region>, heapEnd: nat, backing: Backing, held: set<nat>, total: nat, i: nat,
                     k0: nat, n: nat)
    requires RegionsOk(regions, heapEnd) && Covered(regions, backing) && FramesOk(backing, held, total) && i < |regions|
    requires k0 == (regions[i].start - HEAP_START) / PAGE_SIZE && n == (regions[i].end - regions[i].start) / PAGE_SIZE
    ensures n > 0 ==> k0 + n <= total
  {
    RegionPages(regions, heapEnd, i, k0, n);
    if n > 0 {
      var k := k0 + n - 1;
      assert Covers(regions[i], k);
      assert k in backing;
    }
  }

  lemma BackedIsLive(regions: seq<Region>, backing: Backing, k: nat)
    requires Covered(regions, backing)
    ensures k in backing <==> Inside(regions, PageAddr(k))
  {
    if i :| 0 <= i < |regions| && regions[i].start <= PageAddr(k) < regions[i].end {
      assert Covers(regions[i], k);
    }
  }

  lemma LivePage(regions: seq<Region>, backing: Backing, i: nat, k: nat)
    requires Covered(regions, backing) && i < |regions| && Covers(regions[i], k)
    ensures k in backing && backing[k].flags == regions[i].flags
  {
  }

  predicate Bounds(r: Region, start: nat, end: nat) { r.start == start && r.end == end }

  ghost predicate FirstWith(regions: seq<Region>, i: int, start: nat, end: nat) {
    0 <= i < |regions| && Bounds(regions[i], start, end) && forall j :: 0 <= j < i ==> !Bounds(regions[j], start, end)
  }

  // ----- Heap addresses -----

  const HEAP_LIMIT: nat := HEAP_START + MAX_FRAMES * PAGE_SIZE

  // The heap page that holds the byte at a.
  function PageOf(a: nat): nat
    requires HEAP_START <= a
  {
    (a - HEAP_START) / PAGE_SIZE
  }

  lemma SplitAddress(a: nat) returns (n: nat, d: nat)
    requires HEAP_START <= a < HEAP_LIMIT
    ensures a == n * PAGE_SIZE + d && d < PAGE_SIZE && n == 0x10_0000 + PageOf(a) && PageOf(a) < MAX_FRAMES
    ensures PageAddr(PageOf(a)) == n * PAGE_SIZE
  {
    n, d := a / PAGE_SIZE, a % PAGE_SIZE;
  }

  lemma SamePageNumber(n: nat, d: nat)
    requires d < PAGE_SIZE
    ensures PageNumber(n * PAGE_SIZE + d) == PageNumber(n * PAGE_SIZE)
  {
    assert (n * PAGE_SIZE + d) / PAGE_SIZE == n && n * PAGE_SIZE / PAGE_SIZE == n;
  }

  lemma PageOfIs(a: nat)
    requires HEAP_START <= a < HEAP_LIMIT
    ensures PageOf(a) < MAX_FRAMES && PathOf(PageAddr(PageOf(a))) == PathOf(a)
  {
    var n, d := SplitAddress(a);
    SamePageNumber(n, d);
    SamePath(n * PAGE_SIZE, a);
  }

  lemma PageBetween(s: nat, e: nat, n: nat, d: nat)
    requires d < PAGE_SIZE
    ensures s * PAGE_SIZE <= n * PAGE_SIZE < e * PAGE_SIZE <==> s * PAGE_SIZE <= n * PAGE_SIZE + d < e * PAGE_SIZE
  {
  }

  lemma ByteCovered(r: Region, a: nat)
    requires HEAP_START <= a < HEAP_LIMIT && r.start % PAGE_SIZE == 0 && r.end % PAGE_SIZE == 0
    ensures Covers(r, PageOf(a)) <==> r.start <= a < r.end
  {
    var n, d := SplitAddress(a);
    PageBetween(r.start / PAGE_SIZE, r.end / PAGE_SIZE, n, d);
    assert r.start == r.start / PAGE_SIZE * PAGE_SIZE && r.end == r.end / PAGE_SIZE * PAGE_SIZE;
  }

  // Every byte of the heap window is seen as the backing of its page says.
  ghost predicate Shows(c: Config, tables: Store, root: nat, base: nat, b: Backing) {
    forall a :: HEAP_START <= a < HEAP_LIMIT ==> Translate(tables, root, PathOf(a)) == PageView(c, root, base, b, PageOf(a))
  }

  lemma BackedShows(c: Config, tables: Store, place: map<nat, Label>, root: nat, base: nat, b: Backing)
    requires Backed(c, ViewOf(c, tables, place), root, base, b)
    ensures Shows(c, tables, root, base, b)
  {
    forall a | HEAP_START <= a < HEAP_LIMIT
      ensures Translate(tables, root, PathOf(a)) == PageView(c, root, base, b, PageOf(a))
    {
      PageOfIs(a);
    }
  }

  // Every byte from start up to end is mapped with the permissions flags ask for.
  ghost predicate MappedAs(tables: Store, root: nat, start: nat, end: nat, flags: bv32) {
    forall a :: start <= a < end ==>
      var t := Translate(tables, root, PathOf(a));
      t.Mapped? && t.writable == (flags & 0x2 != 0) && t.noExec == (flags & 0x4 == 0)
  }

  // Every other byte of the heap window translates as before.
  ghost predicate SameOutside(t0: Store, t1: Store, root: nat, start: nat, end: nat) {
    forall a :: HEAP_START <= a < HEAP_LIMIT && !(start <= a < end) ==>
      Translate(t1, root, PathOf(a)) == Translate(t0, root, PathOf(a))
  }

  ghost predicate UnmappedIn(tables: Store, root: nat, start: nat, end: nat) {
    forall a :: start <= a < end ==> Translate(tables, root, PathOf(a)) == Unmapped
  }

  lemma SameBacking(c: Config, t0: Store, t1: Store, root: nat, base: nat, b: Backing)
    requires Shows(c, t0, root, base, b) && Shows(c, t1, root, base, b)
    ensures SameOutside(t0, t1, root, 0, 0)
  {
  }

  // What the end of a region changes in the heap window.
  lemma FreeEffect(c: Config, t0: Store, t1: Store, root: nat, base: nat, b0: Backing, b1: Backing, r: Region)
    requires Shows(c, t0, root, base, b0) && Shows(c, t1, root, base, b1)
    requires forall k :: k in b1 <==> k in b0 && !Covers(r, k)
    requires forall k :: k in b1 ==> b1[k] == b0[k]
    requires HEAP_START <= r.start && r.end <= HEAP_LIMIT && r.start % PAGE_SIZE == 0 && r.end % PAGE_SIZE == 0
    ensures UnmappedIn(t1, root, r.start, r.end) && SameOutside(t0, t1, root, r.start, r.end)
  {
    forall a | r.start <= a < r.end ensures Translate(t1, root, PathOf(a)) == Unmapped {
      ByteCovered(r, a);
    }
    forall a | HEAP_START <= a < HEAP_LIMIT && !(r.start <= a < r.end)
      ensures Translate(t1, root, PathOf(a)) == Translate(t0, root, PathOf(a))
    {
      ByteCovered(r, a);
    }
  }

  // Where the new region covers no page, the backing is as before.
  lemma OldPage(b0: Backing, b1: Backing, regions0: seq<Region>, r: Region, k: nat)
    requires Covered(regions0, b0) && Covered([r] + regions0, b1) && Grows(b0, b1) && !Covers(r, k)
    ensures (k in b1 <==> k in b0) && (k in b0 ==> b1[k] == b0[k])
  {
    if k in b1 {
      var i :| 0 <= i < |[r] + regions0| && Covers(([r] + regions0)[i], k);
      assert Covers(regions0[i - 1], k);
    }
  }

  // What a new region changes in the heap window.
  lemma AllocEffect(c: Config, t0: Store, t1: Store, root: nat, base: nat, b0: Backing, b1: Backing,
                    regions0: seq<Region>, r: Region)
    requires Shows(c, t0, root, base, b0) && Shows(c, t1, root, base, b1)
    requires Covered(regions0, b0) && Covered([r] + regions0, b1) && Grows(b0, b1)
    requires HEAP_START <= r.start && r.end <= HEAP_LIMIT && r.start % PAGE_SIZE == 0 && r.end % PAGE_SIZE == 0
    ensures MappedAs(t1, root, r.start, r.end, r.flags) && SameOutside(t0, t1, root, r.start, r.end)
  {
    forall a | r.start <= a < r.end
      ensures var t := Translate(t1, root, PathOf(a));
        t.Mapped? && t.writable == (r.flags & 0x2 != 0) && t.noExec == (r.flags & 0x4 == 0)
    {
      ByteCovered(r, a);
      LivePage([r] + regions0, b1, 0, PageOf(a));
    }
    forall a | HEAP_START <= a < HEAP_LIMIT && !(r.start <= a < r.end)
      ensures Translate(t1, root, PathOf(a)) == Translate(t0, root, PathOf(a))
    {
      ByteCovered(r, a);
      OldPage(b0, b1, regions0, r, PageOf(a));
    }
  }

  // A mapping with the permissions flags ask for.
  predicate Allows(t: Translation, flags: bv32, user: bool) {
    t.Mapped? && t.writable == (flags & 0x2 != 0) && t.noExec == (flags & 0x4 == 0) && t.user == user
  }

  lemma ReleaseKeeps(regions: seq<Region>, heapEnd: nat, before: Backing, i: nat, k0: nat, n: nat)
    requires RegionsOk(regions, heapEnd) && Covered(regions, before) && i < |regions|
    requires k0 == (regions[i].start - HEAP_START) / PAGE_SIZE && n == (regions[i].end - regions[i].start) / PAGE_SIZE
    ensures RegionsOk(Without(regions, i), heapEnd) && Covered(Without(regions, i), Shrunk(before, k0, n))
    ensures forall k :: k in Shrunk(before, k0, n) <==> k in before && !Covers(regions[i], k)
    ensures forall k :: k in Shrunk(before, k0, n) ==> Shrunk(before, k0, n)[k] == before[k]
  {
    RegionPages(regions, heapEnd, i, k0, n);
    ShrunkIs(before, k0, n);
    RegionsOkAfterFree(regions, heapEnd, i);
    CoveredAfterFree(regions, heapEnd, before, Shrunk(before, k0, n), i);
  }

  // ----- One address space -----

  class MemorySpace {
    const mmu: PageTables
    const frames: FrameAllocator
    const root: nat
    var regions: seq<Region>
    var heapEnd: nat
    ghost var backing: Backing

    ghost predicate Machine()
      reads this, mmu, frames, frames.bitmap
    {
      && mmu.Valid() && frames.Valid() && mmu.IsSpace(root)
      && mmu.config.reserved <= (set j | 0 <= j < 4 :: (0, j))
      && frames.base % PAGE_SIZE == 0 && frames.base + frames.total * PAGE_SIZE <= PHYS_LIMIT
      && frames.total <= MAX_FRAMES
      && Backed(mmu.config, mmu.View(), root, frames.base, backing)
      && FramesOk(backing, frames.Held(), frames.total)
    }

    ghost predicate Valid()
      reads this, mmu, frames, frames.bitmap
    {
      && Machine()
      && RegionsOk(regions, heapEnd) && Covered(regions, backing)
      && heapEnd <= PageAddr(frames.used)
    }

    // The space mm_create_space returns, on which no heap page is mapped yet.
    constructor (mmu: PageTables, frames: FrameAllocator, root: nat)
      requires mmu.Valid() && frames.Valid() && mmu.IsSpace(root)
      requires mmu.config.reserved <= set j | 0 <= j < 4 :: (0, j)
      requires frames.base % PAGE_SIZE == 0 && frames.base + frames.total * PAGE_SIZE <= PHYS_LIMIT
      requires frames.total <= MAX_FRAMES
      requires forall k :: 0 <= k < MAX_FRAMES ==> Translate(mmu.tables, root, PathOf(PageAddr(k))) == Unmapped
      ensures Valid() && regions == [] && heapEnd == HEAP_START
      ensures this.mmu == mmu && this.frames == frames && this.root == root
    {
      this.mmu, this.frames, this.root := mmu, frames, root;
      regions, heapEnd, backing := [], HEAP_START, map[];
      new;
      forall k | 0 <= k < MAX_FRAMES ensures Managed(mmu.config, PathOf(PageAddr(k))) {
        HeapPages(mmu.config, k, k);
      }
    }

    // What the processor makes of heap page k of this space.
    ghost function PageAt(k: nat): Translation
      reads this, mmu
    {
      Translate(mmu.tables, root, PathOf(PageAddr(k)))
    }

    // Live regions do not overlap and end at or below heapEnd; each of their pages is mapped with the region's
    // permissions.
    lemma LiveRegions(i: nat, j: nat, k: nat)
      requires Valid() && i < |regions|
      ensures regions[i].end <= heapEnd && (i < j < |regions| ==> regions[j].end <= regions[i].start)
      ensures Covers(regions[i], k) ==> Allows(PageAt(k), regions[i].flags, !Shared(mmu.config, PathOf(PageAddr(k)).i4))
    {
      PageAtIs(k);
      if Covers(regions[i], k) { LivePage(regions, backing, i, k); }
    }

    // A heap page is mapped exactly when a live region covers it, also when no region is left.
    lemma OnlyLivePages(k: nat)
      requires Valid() && k < MAX_FRAMES
      ensures PageAt(k) == Unmapped <==> !Inside(regions, PageAddr(k))
    {
      PageAtIs(k);
      BackedIsLive(regions, backing, k);
    }

    // No two heap pages share a frame.
    lemma NoSharedFrame(k: nat, m: nat)
      requires Valid() && k < MAX_FRAMES && m < MAX_FRAMES && k != m && PageAt(k).Mapped? && PageAt(m).Mapped?
      ensures PageAt(k).phys != PageAt(m).phys
    {
      PageAtIs(k);
      PageAtIs(m);
    }

    lemma PageAtIs(k: nat)
      requires Valid()
      ensures k in backing ==> k < frames.total
      ensures k < MAX_FRAMES ==> PageAt(k) == PageView(mmu.config, root, frames.base, backing, k)
    {
    }

    // mm_map_page on heap page k.
    method MapHeapPage(k: nat, phys: nat, ghost frame: nat, flags: bv32)
      requires Machine() && k < frames.total && |mmu.pool| >= 3
      requires phys == frames.base + frame * PAGE_SIZE && frame < frames.total
      modifies mmu
      ensures mmu.Valid() && mmu.IsSpace(root) && |mmu.pool| >= |old(mmu.pool)| - 3
      ensures Backed(mmu.config, mmu.View(), root, frames.base, backing[k := Page(frame, flags)])
    {
      HeapPages(mmu.config, k, k);
      FrameAddress(frames.base, frames.total, frame);
      BackedAfterSet(mmu.config, mmu.View(), root, frames.base, backing, backing[k := Page(frame, flags)], k);
      mmu.SetPage(root, PageAddr(k), phys, flags);
    }

    // One turn of the mapping loop: a new frame behind page k.
    method MapFrame(k: nat, phys: nat, ghost frame: nat, flags: bv32)
      requires Machine() && k < frames.total && k !in backing
      requires phys == frames.base + frame * PAGE_SIZE && frame < frames.total && frame in frames.Held()
      requires forall m :: m in backing ==> backing[m].frame != frame
      requires |mmu.pool| >= 3
      modifies mmu, this`backing
      ensures Machine() && backing == old(backing)[k := Page(frame, flags)]
      ensures |mmu.pool| >= |old(mmu.pool)| - 3
    {
      FramesOkAfterMap(backing, frames.Held(), frames.total, k, Page(frame, flags));
      MapHeapPage(k, phys, frame, flags);
      backing := backing[k := Page(frame, flags)];
    }

    // mm_unmap_page on heap page k.
    method UnmapHeapPage(k: nat)
      requires Machine() && k < frames.total
      modifies mmu
      ensures mmu.Valid() && mmu.IsSpace(root) && mmu.pool == old(mmu.pool)
      ensures Backed(mmu.config, mmu.View(), root, frames.base, backing - {k})
    {
      HeapPages(mmu.config, k, k);
      BackedAfterSet(mmu.config, mmu.View(), root, frames.base, backing, backing - {k}, k);
      mmu.ClearPage(root, PageAddr(k));
    }

    method UnmapFrame(k: nat)
      requires Machine() && k < frames.total
      modifies mmu, this`backing
      ensures Machine() && backing == old(backing) - {k}
      ensures mmu.pool == old(mmu.pool)
    {
      UnmapHeapPage(k);
      backing := backing - {k};
    }

    // The mapping loop of mm_alloc_region, with its rollback. A failed run gives no frame back.
    method MapRun(k0: nat, n: nat, flags: bv32) returns (ok: bool)
      requires Machine() && k0 <= frames.used
      requires Unbacked(backing, k0, n)
      requires |mmu.pool| >= 3 * Min(n, frames.total - frames.used)
      modifies mmu, frames`used, frames.bitmap, this`backing
      ensures Machine()
      ensures ok <==> n <= frames.total - old(frames.used)
      ensures ok ==> Extended(old(backing), backing, k0, n, flags) && frames.used == old(frames.used) + n
      ensures !ok ==> backing == old(backing) && frames.used == frames.total
      ensures old(frames.Held()) <= frames.Held()
    {
      var i := 0;
      ok := true;
      ghost var fs, start, held, used := [], backing, frames.Held(), frames.used;
      while i < n && ok
        invariant 0 <= i <= n && Mapping(start, held, used, k0, fs, flags, i)
        invariant ok ==> |mmu.pool| >= 3 * Min(n - i, frames.total - frames.used)
        invariant !ok ==> i < n && frames.used == frames.total
        decreases n - i, ok
      {
        var mapped, frame := MapAnother(k0 + i, flags, start, held, used, k0, fs, i);
        if mapped {
          fs := fs + [frame];
          i := i + 1;
        } else {
          ok := false;
        }
      }
      GrownExtends(start, k0, fs, flags);
      if !ok {
        Rollback(k0, i);
        ShrunkUndoesGrown(start, k0, fs, flags);
      }
    }

    // Where the mapping loop stands after i pages.
    ghost predicate Mapping(start: Backing, held: set<nat>, used: nat, k0: nat, fs: seq<nat>, flags: bv32, i: nat)
      reads this, mmu, frames, frames.bitmap
    {
      && Machine() && |fs| == i && backing == Grown(start, k0, fs, flags)
      && frames.used == used + i <= frames.total && held <= frames.Held()
    }

    method MapAnother(k: nat, flags: bv32, ghost start: Backing, ghost held: set<nat>, ghost used: nat, ghost k0: nat,
                      ghost fs: seq<nat>, ghost i: nat) returns (ok: bool, ghost frame: nat)
      requires Mapping(start, held, used, k0, fs, flags, i) && k == k0 + i && k0 <= used && k !in start
      requires frames.used < frames.total ==> |mmu.pool| >= 3
      modifies mmu, frames`used, frames.bitmap, this`backing
      ensures ok <==> old(frames.used) < frames.total
      ensures ok ==> Mapping(start, held, used, k0, fs + [frame], flags, i + 1) && |mmu.pool| >= |old(mmu.pool)| - 3
      ensures !ok ==> Mapping(start, held, used, k0, fs, flags, i) && frames.used == frames.total
    {
      GrownExtends(start, k0, fs, flags);
      ok, frame := MapNext(k, flags);
      GrownByOne(start, k0, fs, flags, k, frame);
    }

    // pm_alloc_page followed by mm_map_page.
    method MapNext(k: nat, flags: bv32) returns (ok: bool, ghost frame: nat)
      requires Machine() && k <= frames.used && k !in backing
      requires frames.used < frames.total ==> |mmu.pool| >= 3
      modifies mmu, frames`used, frames.bitmap, this`backing
      ensures Machine() && old(frames.Held()) <= frames.Held() && frames.used <= frames.total
      ensures ok <==> old(frames.used) < frames.total
      ensures ok ==> backing == old(backing)[k := Page(frame, flags)]
      ensures ok ==> frames.used == old(frames.used) + 1 && |mmu.pool| >= |old(mmu.pool)| - 3
      ensures !ok ==> backing == old(backing) && frames.used == frames.total && mmu.pool == old(mmu.pool)
    {
      ghost var before := frames.Held();
      var phys;
      phys, frame := frames.Alloc();
      if phys == 0 {
        return false, 0;
      }
      assert before <= frames.Held();
      MapFrame(k, phys, frame, flags);
      ok := true;
    }

    // pm_free_page(0), the call the rollback makes.
    method FreeNothing()
      requires Machine()
      modifies frames`used, frames.bitmap
      ensures Machine() && frames.Held() == old(frames.Held()) && frames.used == old(frames.used)
    {
      frames.Free(0);
      assert frames.Held() == old(frames.Held());
    }

    // Where the rollback stands after j pages.
    ghost predicate RolledBack(start: Backing, held: set<nat>, used: nat, k0: nat, j: nat)
      reads this, mmu, frames, frames.bitmap
    {
      Machine() && backing == Shrunk(start, k0, j) && frames.Held() == held && frames.used == used
    }

    // One turn of the rollback loop.
    method RollbackPage(k: nat, ghost start: Backing, ghost held: set<nat>, ghost used: nat, ghost k0: nat, ghost j: nat)
      requires RolledBack(start, held, used, k0, j) && k == k0 + j < frames.total
      modifies mmu, frames`used, frames.bitmap, this`backing
      ensures RolledBack(start, held, used, k0, j + 1)
    {
      ShrunkByOne(start, k0, j, k);
      FreeNothing();
      UnmapFrame(k);
    }

    // The rollback loop: it unmaps the pages but its pm_free_page(0) is outside the pool and frees nothing.
    method Rollback(k0: nat, i: nat)
      requires Machine() && k0 + i <= frames.total
      modifies mmu, frames`used, frames.bitmap, this`backing
      ensures Machine() && backing == Shrunk(old(backing), k0, i)
      ensures frames.Held() == old(frames.Held()) && frames.used == old(frames.used)
    {
      var j := 0;
      ghost var start, held, used := backing, frames.Held(), frames.used;
      while j < i
        invariant 0 <= j <= i && RolledBack(start, held, used, k0, j)
      {
        RollbackPage(k0 + j, start, held, used, k0, j);
        j := j + 1;
      }
    }

    // The frames for a region of n pages from heapEnd on.
    method MapRegion(k0: nat, n: nat, flags: bv32) returns (ok: bool)
      requires Valid() && heapEnd == PageAddr(k0) && k0 <= frames.used
      requires Unbacked(backing, k0, n)
      requires |mmu.pool| >= 3 * Min(n, frames.total - frames.used)
      modifies mmu, frames`used, frames.bitmap, this`backing
      ensures Machine() && Grows(old(backing), backing) && (ok <==> n <= frames.total - old(frames.used))
      ensures ok ==> Extended(old(backing), backing, k0, n, flags) && frames.used == old(frames.used) + n
      ensures ok ==> heapEnd + n * PAGE_SIZE == PageAddr(k0 + n) <= PageAddr(frames.used)
      ensures !ok ==> Valid() && backing == old(backing) && frames.used == frames.total
    {
      ok := MapRun(k0, n, flags);
      if ok {
        PagesUpTo(k0, n, frames.used);
        ExtendedGrows(old(backing), backing, k0, n, flags);
      } else {
        PagesUpTo(k0, 0, frames.used);
      }
    }

    // mm_alloc_region once the size is known to be n pages; 0 stands for NULL. The C code does not check
    // its kmalloc calls, hence the demand on the table pool.
    method AllocPages(n: nat, flags: bv32) returns (addr: nat)
      requires Valid()
      requires |mmu.pool| >= 3 * Min(n, frames.total - frames.used)
      modifies this`regions, this`heapEnd, this`backing, mmu, frames`used, frames.bitmap
      ensures Valid()
      ensures addr != 0 <==> n <= frames.total - old(frames.used)
      ensures addr == 0 ==>
        regions == old(regions) && heapEnd == old(heapEnd) && backing == old(backing) && frames.used == frames.total
      ensures addr != 0 ==>
        && addr == old(heapEnd) && heapEnd == addr + n * PAGE_SIZE
        && regions == [Region(addr, heapEnd, flags)] + old(regions)
        && frames.used == old(frames.used) + n
      ensures Grows(old(backing), backing)
    {
      var k0;
      addr, k0 := FindFreePage(n);
      ghost var before := backing;
      var ok := MapRegion(k0, n, flags);
      if ok {
        AddRegion(Region(addr, addr + n * PAGE_SIZE, flags), before, k0, n);
      } else {
        addr := 0;
      }
    }

    // The scan at the start of mm_alloc_region, and the page it finds.
    method FindFreePage(ghost n: nat) returns (addr: nat, k0: nat)
      requires Valid()
      ensures addr == heapEnd == PageAddr(k0) && k0 <= frames.used && addr != 0
      ensures Unbacked(backing, k0, n)
    {
      addr := Scan(regions, heapEnd);
      ScanFindsHeapEnd(regions, heapEnd, addr);
      k0 := (addr - HEAP_START) / PAGE_SIZE;
      HeapEndPage(heapEnd, k0, frames.used);
      NothingAbove(regions, heapEnd, backing, k0);
    }

    // The bookkeeping at the end of mm_alloc_region, for the n pages from k0 on.
    method AddRegion(r: Region, ghost before: Backing, ghost k0: nat, ghost n: nat)
      requires Machine() && r.start == PageAddr(k0) == heapEnd && r.end == PageAddr(k0 + n)
      requires RegionsOk(regions, heapEnd) && Covered(regions, before) && Extended(before, backing, k0, n, r.flags)
      requires Unbacked(before, k0, n)
      requires r.end <= PageAddr(frames.used)
      modifies this`regions, this`heapEnd
      ensures Valid() && heapEnd == r.end && regions == [r] + old(regions)
    {
      CoveredAfterAlloc(regions, before, backing, k0, n, r);
      RegionsOkAfterAlloc(regions, heapEnd, k0, n, r);
      regions := [r] + regions;
      heapEnd := r.end;
    }

    // The table memory shows what the backing says, byte by byte.
    lemma HeapShows()
      requires Valid()
      ensures Shows(mmu.config, mmu.tables, root, frames.base, backing)
    {
      BackedShows(mmu.config, mmu.tables, mmu.place, root, frames.base, backing);
    }

    // mm_alloc_region on n pages, with what it changes in the heap window.
    method AllocMapped(n: nat, flags: bv32) returns (addr: nat)
      requires Valid()
      requires |mmu.pool| >= 3 * Min(n, frames.total - frames.used)
      modifies this`regions, this`heapEnd, this`backing, mmu, frames`used, frames.bitmap
      ensures Valid()
      ensures addr != 0 <==> n <= frames.total - old(frames.used)
      ensures addr == 0 ==> regions == old(regions) && heapEnd == old(heapEnd) && frames.used == frames.total
      ensures addr != 0 ==> addr == old(heapEnd) && heapEnd == addr + n * PAGE_SIZE
      ensures addr != 0 ==> regions == [Region(addr, heapEnd, flags)] + old(regions)
      ensures addr != 0 ==> MappedAs(mmu.tables, root, addr, heapEnd, flags)
      ensures SameOutside(old(mmu.tables), mmu.tables, root, addr, if addr != 0 then heapEnd else 0)
    {
      ghost var tables, b0, regions0 := mmu.tables, backing, regions;
      HeapShows();
      addr := AllocPages(n, flags);
      HeapShows();
      if addr != 0 {
        AllocEffect(mmu.config, tables, mmu.tables, root, frames.base, b0, backing, regions0, regions[0]);
      } else {
        SameBacking(mmu.config, tables, mmu.tables, root, frames.base, backing);
      }
    }

    // mm_alloc_region. The region is the request rounded up to whole pages, at the old heap_end, and each of its
    // bytes is mapped as asked for; a size that rounding up wraps to 0 gives an empty region.
    method AllocRegion(size: nat, flags: bv32) returns (addr: nat)
      requires Valid() && size < WORD
      requires |mmu.pool| >= 3 * Min(PageAlign(size) / PAGE_SIZE, frames.total - frames.used)
      modifies this`regions, this`heapEnd, this`backing, mmu, frames`used, frames.bitmap
      ensures Valid()
      ensures addr != 0 <==> size + PAGE_SIZE > WORD || size <= (frames.total - old(frames.used)) * PAGE_SIZE
      ensures addr == 0 ==> regions == old(regions) && heapEnd == old(heapEnd) && frames.used == frames.total
      ensures addr != 0 ==> addr == old(heapEnd) && regions == [Region(addr, heapEnd, flags)] + old(regions)
      ensures heapEnd % PAGE_SIZE == 0
      ensures addr != 0 && size + PAGE_SIZE <= WORD ==> addr + size <= heapEnd < addr + size + PAGE_SIZE
      ensures addr != 0 && size + PAGE_SIZE > WORD ==> heapEnd == addr
      ensures addr != 0 ==> forall a :: addr <= a < heapEnd ==>
        var t := Translate(mmu.tables, root, PathOf(a));
        t.Mapped? && t.writable == (flags & 0x2 != 0) && t.noExec == (flags & 0x4 == 0)
      ensures forall a :: HEAP_START <= a < HEAP_LIMIT && !(addr != 0 && addr <= a < heapEnd) ==>
        Translate(mmu.tables, root, PathOf(a)) == old(Translate(mmu.tables, root, PathOf(a)))
    {
      var n := PageAlign(size) / PAGE_SIZE;
      RegionSize(size, n, heapEnd, heapEnd + n * PAGE_SIZE, frames.total - frames.used);
      addr := AllocMapped(n, flags);
    }

    // The unmapping loop of mm_free_region.
    method UnmapRun(k0: nat, n: nat)
      requires Machine() && (n > 0 ==> k0 + n <= frames.total)
      modifies mmu, this`backing
      ensures Machine() && backing == Shrunk(old(backing), k0, n)
    {
      var j := 0;
      ghost var start := backing;
      while j < n
        invariant 0 <= j <= n && Machine()
        invariant backing == Shrunk(start, k0, j)
      {
        var k := k0 + j;
        ShrunkByOne(start, k0, j, k);
        UnmapFrame(k);
        j := j + 1;
      }
    }

    // The search of mm_free_region: the first region with exactly these bounds goes, and no page of it stays mapped.
    method FreeFirst(addr: nat, size: nat)
      requires Valid() && addr < WORD && size < WORD
      modifies this`regions, this`backing, mmu
      ensures Valid()
      ensures var i := FirstMatch(old(regions), addr, (addr + size) % WORD);
        && (i == |old(regions)| ==> regions == old(regions) && backing == old(backing) && mmu.tables == old(mmu.tables))
        && (i < |old(regions)| ==>
              && regions == Without(old(regions), i)
              && (forall k :: k in backing <==> k in old(backing) && !Covers(old(regions)[i], k))
              && (forall k :: k in backing ==> backing[k] == old(backing)[k]))
    {
      var i := 0;
      while i < |regions|
        invariant 0 <= i <= |regions|
        invariant FirstMatch(regions, addr, (addr + size) % WORD) == i + FirstMatch(regions[i..], addr, (addr + size) % WORD)
      {
        if regions[i].start == addr && regions[i].end == (addr + size) % WORD {
          ReleaseRegion(i);
          return;
        }
        i := i + 1;
      }
    }

    // mm_free_region. The first region with exactly these bounds leaves the list, its bytes are unmapped, and all
    // other bytes of the heap window translate as before; without such a region nothing changes.
    method FreeRegion(addr: nat, size: nat) returns (ghost end: nat)
      requires Valid() && addr < WORD && size < WORD
      modifies this`regions, this`backing, mmu
      ensures Valid() && end == (addr + size) % WORD
      ensures (forall i :: 0 <= i < |old(regions)| ==> !Bounds(old(regions)[i], addr, end)) ==>
        regions == old(regions) && mmu.tables == old(mmu.tables)
      ensures forall i :: FirstWith(old(regions), i, addr, end) ==>
        && regions == old(regions)[..i] + old(regions)[i + 1..]
        && UnmappedIn(mmu.tables, root, addr, end) && SameOutside(old(mmu.tables), mmu.tables, root, addr, end)
    {
      end := (addr + size) % WORD;
      ghost var tables, b0, regions0, i := mmu.tables, backing, regions, FirstMatch(regions, addr, end);
      HeapShows();
      FreeFirst(addr, size);
      HeapShows();
      if i < |regions0| {
        FreeEffect(mmu.config, tables, mmu.tables, root, frames.base, b0, backing, regions0[i]);
      }
    }

    method ReleaseRegion(i: nat)
      requires Valid() && i < |regions|
      modifies this`regions, this`backing, mmu
      ensures Valid() && regions == Without(old(regions), i)
      ensures forall k :: k in backing <==> k in old(backing) && !Covers(old(regions)[i], k)
      ensures forall k :: k in backing ==> backing[k] == old(backing)[k]
    {
      var r := regions[i];
      var k0, n := (r.start - HEAP_START) / PAGE_SIZE, (r.end - r.start) / PAGE_SIZE;
      ReleaseKeeps(regions, heapEnd, backing, i, k0, n);
      RegionInPool(regions, heapEnd, backing, frames.Held(), frames.total, i, k0, n);
      UnmapRun(k0, n);
      regions := Without(regions, i);
    }
  }
}
