/** The physical frame allocator of kernel/mm.c: one bit per 4 KB frame, packed into bytes. */
module Frames {
  import opened Machine

  // 1 << k inside one byte.
  function Bit(k: nat): bv8
    requires k < 8
  {
    if k == 0 then 1 else Bit(k - 1) << 1
  }

  lemma BitValues()
    ensures Bit(0) == 0x01 && Bit(1) == 0x02 && Bit(2) == 0x04 && Bit(3) == 0x08
    ensures Bit(4) == 0x10 && Bit(5) == 0x20 && Bit(6) == 0x40 && Bit(7) == 0x80
  {
  }

  predicate Has(b: bv8, k: nat)
    requires k < 8
  {
    b & Bit(k) != 0
  }

  function With(b: bv8, k: nat): bv8
    requires k < 8
  {
    b | Bit(k)
  }

  function Less(b: bv8, k: nat): bv8
    requires k < 8
  {
    b & !Bit(k)
  }

  predicate BitSet(bytes: seq<bv8>, i: nat)
    requires i / 8 < |bytes|
  {
    Has(bytes[i / 8], i % 8)
  }

  // The frames a bitmap marks as used.
  ghost function Marked(bytes: seq<bv8>, total: nat): set<nat>
    requires total <= 8 * |bytes|
  {
    set i: nat | i < total && BitSet(bytes, i)
  }

  // Different bits have masks in different places.
  lemma Masks(k: nat, j: nat)
    requires k < 8 && j < 8
    ensures Bit(k) != 0 && (Bit(k) == Bit(j) <==> k == j) && (k != j ==> Bit(k) & Bit(j) == 0)
  {
    BitValues();
  }

  lemma SetMask(b: bv8, m: bv8, n: bv8)
    requires n != 0 && (m == n || m & n == 0)
    ensures (b | m) & n != 0 <==> m == n || b & n != 0
  {
  }

  lemma ClearMask(b: bv8, m: bv8, n: bv8)
    requires m == n || m & n == 0
    ensures (b & !m) & n != 0 <==> m != n && b & n != 0
  {
  }

  lemma SetThenTest(b: bv8, k: nat, j: nat)
    requires k < 8 && j < 8
    ensures Has(With(b, k), j) <==> j == k || Has(b, j)
  {
    Masks(j, k);
    SetMask(b, Bit(k), Bit(j));
  }

  lemma ClearThenTest(b: bv8, k: nat, j: nat)
    requires k < 8 && j < 8
    ensures Has(Less(b, k), j) <==> j != k && Has(b, j)
  {
    Masks(j, k);
    ClearMask(b, Bit(k), Bit(j));
  }

  // The frames 0 .. n-1.
  function Below(n: nat): (r: set<nat>)
    ensures |r| == n
    ensures forall j: nat :: j in r <==> j < n
  {
    if n == 0 then {} else Below(n - 1) + {n - 1}
  }

  // bitmap_set_bit and bitmap_clear_bit on the whole bitmap.
  function WithBit(bytes: seq<bv8>, i: nat): seq<bv8>
    requires i / 8 < |bytes|
  {
    bytes[i / 8 := With(bytes[i / 8], i % 8)]
  }

  function WithoutBit(bytes: seq<bv8>, i: nat): seq<bv8>
    requires i / 8 < |bytes|
  {
    bytes[i / 8 := Less(bytes[i / 8], i % 8)]
  }

  lemma ByteAt(bytes: seq<bv8>, q: nat, b: bv8, q2: nat)
    requires q < |bytes| && q2 < |bytes|
    ensures bytes[q := b][q2] == if q2 == q then b else bytes[q2]
  {
  }

  lemma SetBitAt(bytes: seq<bv8>, q: nat, r: nat, q2: nat, r2: nat)
    requires q < |bytes| && r < 8 && q2 < |bytes| && r2 < 8
    ensures Has(bytes[q := With(bytes[q], r)][q2], r2) <==> (q2 == q && r2 == r) || Has(bytes[q2], r2)
  {
    ByteAt(bytes, q, With(bytes[q], r), q2);
    if q2 == q { SetThenTest(bytes[q], r, r2); }
  }

  lemma ClearBitAt(bytes: seq<bv8>, q: nat, r: nat, q2: nat, r2: nat)
    requires q < |bytes| && r < 8 && q2 < |bytes| && r2 < 8
    ensures Has(bytes[q := Less(bytes[q], r)][q2], r2) <==> !(q2 == q && r2 == r) && Has(bytes[q2], r2)
  {
    ByteAt(bytes, q, Less(bytes[q], r), q2);
    if q2 == q { ClearThenTest(bytes[q], r, r2); }
  }

  lemma BitAfterSet(bytes: seq<bv8>, i: nat, j: nat)
    requires i / 8 < |bytes| && j / 8 < |bytes|
    ensures BitSet(WithBit(bytes, i), j) <==> j == i || BitSet(bytes, j)
  {
    SetBitAt(bytes, i / 8, i % 8, j / 8, j % 8);
    SameBit(i, j);
  }

  lemma BitAfterClear(bytes: seq<bv8>, i: nat, j: nat)
    requires i / 8 < |bytes| && j / 8 < |bytes|
    ensures BitSet(WithoutBit(bytes, i), j) <==> j != i && BitSet(bytes, j)
  {
    ClearBitAt(bytes, i / 8, i % 8, j / 8, j % 8);
    SameBit(i, j);
  }

  // Setting one bit of the bitmap adds exactly that frame.
  lemma MarkedAfterSet(bytes: seq<bv8>, total: nat, i: nat)
    requires i < total <= 8 * |bytes|
    ensures Marked(WithBit(bytes, i), total) == Marked(bytes, total) + {i}
  {
    forall j: nat | j < total ensures BitSet(WithBit(bytes, i), j) <==> j == i || BitSet(bytes, j) {
      BitAfterSet(bytes, i, j);
    }
  }

  // Clearing one bit removes exactly that frame.
  lemma MarkedAfterClear(bytes: seq<bv8>, total: nat, i: nat)
    requires i < total <= 8 * |bytes|
    ensures Marked(WithoutBit(bytes, i), total) == Marked(bytes, total) - {i}
  {
    forall j: nat | j < total ensures BitSet(WithoutBit(bytes, i), j) <==> j != i && BitSet(bytes, j) {
      BitAfterClear(bytes, i, j);
    }
  }

  lemma NothingMarked(bytes: seq<bv8>, total: nat)
    requires total <= 8 * |bytes| && forall k :: 0 <= k < |bytes| ==> bytes[k] == 0
    ensures Marked(bytes, total) == {}
  {
  }

  // All frames are held exactly when the count says so.
  lemma HeldCount(held: set<nat>, total: nat)
    requires held <= Below(total)
    ensures |held| <= total
    ensures |held| == total <==> forall j: nat :: j < total ==> j in held
  {
    SubsetSize(held, Below(total));
    if |held| == total {
      assert Below(total) - held == {};
      forall j: nat | j < total ensures j in held {
        assert j in Below(total);
      }
    } else {
      var j :| j in Below(total) - held;
    }
  }

  lemma SubsetSize(a: set<nat>, b: set<nat>)
    requires a <= b
    ensures |a| <= |b| && |b - a| == |b| - |a|
  {
  }

  lemma PagesBelow(j: nat, end: nat)
    ensures j < (end + PAGE_SIZE - 1) / PAGE_SIZE <==> j * PAGE_SIZE < end
  {
  }

  lemma SameBit(i: nat, j: nat)
    ensures i / 8 == j / 8 && i % 8 == j % 8 <==> i == j
  {
  }

  class FrameAllocator {
    var bitmap: array<bv8>
    var total: nat
    var used: nat
    var base: nat

    // The allocator's own invariant; the last line is what keeps 0 free to mean "no memory"
    // and keeps the unsigned subtraction in Free from landing back inside the pool.
    ghost predicate Valid()
      reads this, bitmap
    {
      && bitmap.Length == (total + 7) / 8
      && used == |Held()| && used <= total
      && 0 < base && base + total * PAGE_SIZE <= WORD
    }

    // The abstract state: the frames handed out (or reserved) and not given back.
    ghost function Held(): set<nat>
      requires total <= 8 * bitmap.Length
      reads this, bitmap
    {
      Marked(bitmap[..], total)
    }

    // pm_init_region, with kernel_heap_end as the parameter kernelEnd.
    constructor (start: nat, size: nat, kernelEnd: nat)
      requires 0 < start && start + size <= WORD && kernelEnd + PAGE_SIZE <= WORD
      ensures Valid() && fresh(bitmap)
      ensures base == start && total == size / PAGE_SIZE
      ensures Held() == set i: nat | i < total && i * PAGE_SIZE < kernelEnd
    {
      base, total, used := start, size / PAGE_SIZE, 0;
      bitmap := new bv8[(size / PAGE_SIZE + 7) / 8](_ => 0);
      new;
      NothingMarked(bitmap[..], total);
      ReserveKernel(kernelEnd);
    }

    // The loop of pm_init_region: the frames below kernel_heap_end, counted from frame 0.
    method ReserveKernel(kernelEnd: nat)
      requires Valid() && Held() == {} && kernelEnd + PAGE_SIZE <= WORD
      modifies this`used, bitmap
      ensures Valid()
      ensures Held() == set i: nat | i < total && i * PAGE_SIZE < kernelEnd
    {
      var kernelPages := (kernelEnd + PAGE_SIZE - 1) / PAGE_SIZE;
      var i := 0;
      while i < kernelPages && i < total
        invariant 0 <= i <= kernelPages && i <= total
        invariant bitmap.Length == (total + 7) / 8
        invariant Held() == Below(i) && used == i
      {
        assert i !in Below(i) && Below(i) + {i} == Below(i + 1);
        SetBit(i);
        used := used + 1;
        i := i + 1;
      }
      forall j: nat ensures j < kernelPages <==> j * PAGE_SIZE < kernelEnd {
        PagesBelow(j, kernelEnd);
      }
    }

    // bitmap_set_bit
    method SetBit(i: nat)
      requires i < total <= 8 * bitmap.Length
      modifies bitmap
      ensures Held() == old(Held()) + {i}
    {
      MarkedAfterSet(bitmap[..], total, i);
      ghost var before := bitmap[..];
      bitmap[i / 8] := With(bitmap[i / 8], i % 8);
      assert bitmap[..] == WithBit(before, i);
    }

    // bitmap_clear_bit
    method ClearBit(i: nat)
      requires i < total <= 8 * bitmap.Length
      modifies bitmap
      ensures Held() == old(Held()) - {i}
    {
      MarkedAfterClear(bitmap[..], total, i);
      ghost var before := bitmap[..];
      bitmap[i / 8] := Less(bitmap[i / 8], i % 8);
      assert bitmap[..] == WithoutBit(before, i);
    }

    // bitmap_find_free_page: the lowest free frame, or the all-ones word when there is none.
    method FindFree() returns (i: nat)
      requires Valid()
      ensures i < total ==> i !in Held() && forall j: nat :: j < i ==> j in Held()
      ensures i >= total ==> i == WORD - 1 && forall j: nat :: j < total ==> j in Held()
    {
      i := 0;
      while i < total
        invariant 0 <= i <= total
        invariant forall j: nat :: j < i ==> j in Held()
      {
        if !Has(bitmap[i / 8], i % 8) {
          assert !BitSet(bitmap[..], i);
          return;
        }
        assert BitSet(bitmap[..], i);
        i := i + 1;
      }
      i := WORD - 1;
    }

    // pm_alloc_page: frame is the index of the page returned; 0 means that every frame is held.
    method Alloc() returns (phys: nat, ghost frame: nat)
      requires Valid()
      modifies this`used, bitmap
      ensures Valid()
      ensures phys == 0 <==> old(used) == total
      ensures phys == 0 ==> Held() == old(Held()) && forall j: nat :: j < total ==> j in Held()
      ensures phys != 0 ==> phys == base + frame * PAGE_SIZE && frame < total
      ensures phys != 0 ==> frame !in old(Held()) && Held() == old(Held()) + {frame}
      ensures phys != 0 ==> forall j: nat :: j < frame ==> j in old(Held())
    {
      HeldCount(Held(), total);
      var i := FindFree();
      phys, frame := 0, 0;
      if i != WORD - 1 {
        SetBit(i);
        used := used + 1;
        phys, frame := base + i * PAGE_SIZE, i;
      }
    }

    // pm_free_page: only a held frame's address changes anything; the subtraction wraps.
    method Free(phys: nat)
      requires Valid() && phys < WORD
      modifies this`used, bitmap
      ensures Valid()
      ensures Held() == if base <= phys && (phys - base) / PAGE_SIZE < total
                        then old(Held()) - {(phys - base) / PAGE_SIZE} else old(Held())
    {
      var i := (if phys >= base then phys - base else phys - base + WORD) / PAGE_SIZE;
      if i < total {
        assert phys >= base;
        if Has(bitmap[i / 8], i % 8) {
          assert BitSet(bitmap[..], i);
          assert i in Held();
          ClearBit(i);
          used := used - 1;
        } else {
          assert !BitSet(bitmap[..], i);
        }
      }
    }

    // mm_get_available_memory: the bytes of the frames nobody holds.
    method Available() returns (bytes: nat)
      requires Valid()
      ensures bytes == |Below(total) - Held()| * PAGE_SIZE
    {
      SubsetSize(Held(), Below(total));
      bytes := (total - used) * PAGE_SIZE;
    }
  }
}
