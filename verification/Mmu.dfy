/** Address spaces of kernel/mm.c: creating one, mapping and unmapping a page, and what whole runs of these do. */
module Mmu {
  import opened Machine
  import opened PageEntries
  import opened PageWalk

  // What every page of every space translates to.
  type View = imap<(nat, Path), Translation>

  ghost function ViewOf(c: Config, store: Store, place: map<nat, Label>): View {
    imap k: (nat, Path) | IsRoot(place, k.0) && Managed(c, k.1) :: Translate(store, k.0, k.1)
  }

  lemma HangView(c: Config, store: Store, place: map<nat, Label>, t: nat, i: nat, a: nat)
    requires Hangable(c, store, place, t, i, a)
    ensures |store[t]| == 512
    ensures ViewOf(c, Hang(store, t, i, a), place[a := Child(c, place[t], i)]) == ViewOf(c, store, place)
  {
    HangEverywhere(c, store, place, t, i, a);
    var place' := place[a := Child(c, place[t], i)];
    forall s ensures IsRoot(place', s) <==> IsRoot(place, s) {
    }
  }

  lemma PutView(c: Config, store: Store, place: map<nat, Label>, root: nat, p: Path, t: nat, e: nat)
    requires Inv(c, store, place) && IsRoot(place, root) && Managed(c, p) && Reaches(store, root, p, t)
    requires t in store && |store[t]| == 512
    ensures ViewOf(c, Put(store, t, p.i1, e), place) == Set(c, ViewOf(c, store, place), root, p, Leaf(c, p.i4, e))
  {
    forall s, q | IsRoot(place, s) && Managed(c, q)
      ensures Translate(Put(store, t, p.i1, e), s, q) ==
        if q == p && (s == root || Shared(c, p.i4)) then Leaf(c, p.i4, e) else Translate(store, s, q)
    {
      PutTranslates(c, store, place, root, p, t, e, s, q);
    }
  }

  ghost predicate Hits(c: Config, root: nat, p: Path, k: (nat, Path)) {
    k.1 == p && (k.0 == root || Shared(c, p.i4))
  }

  // Page p of the space root now translates to x; spaces share the page when they share its top-level slot.
  ghost function Set(c: Config, v: View, root: nat, p: Path, x: Translation): View {
    imap k | k in v :: if Hits(c, root, p, k) then x else v[k]
  }

  // One update of the view, page by page.
  lemma ViewAfterSet(c: Config, before: Store, place0: map<nat, Label>, after: Store, place: map<nat, Label>, root: nat,
                     p: Path, x: Translation)
    requires ViewOf(c, after, place) == Set(c, ViewOf(c, before, place0), root, p, x)
    requires IsRoot(place0, root) && Managed(c, p)
    ensures Translate(after, root, p) == x
    ensures forall s, q: Path :: IsRoot(place0, s) && Managed(c, q) && (q != p || (s != root && !Shared(c, q.i4))) ==>
      Translate(after, s, q) == Translate(before, s, q)
  {
    assert (root, p) in ViewOf(c, before, place0);
    assert ViewOf(c, after, place)[(root, p)] == x;
    forall s, q: Path | IsRoot(place0, s) && Managed(c, q) && (q != p || (s != root && !Shared(c, q.i4)))
      ensures Translate(after, s, q) == Translate(before, s, q)
    {
      assert (s, q) in ViewOf(c, before, place0) && !Hits(c, root, p, (s, q));
      assert ViewOf(c, after, place)[(s, q)] == ViewOf(c, before, place0)[(s, q)];
    }
  }

  // ----- Whole runs of mapping and unmapping, over any number of spaces -----

  datatype Op = Map(root: nat, va: nat, phys: nat, flags: bv32) | Unmap(root: nat, va: nat)

  function Outcome(c: Config, op: Op): Translation {
    match op
    case Map(_, va, phys, flags) =>
      Mapped(phys, WantsWrite(flags), !Shared(c, PathOf(va).i4), !WantsExec(flags))
    case Unmap(_, _) => Unmapped
  }

  ghost function Run(c: Config, v: View, ops: seq<Op>): View
    decreases |ops|
  {
    if ops == [] then v
    else
      var op := ops[|ops| - 1];
      Set(c, Run(c, v, ops[..|ops| - 1]), op.root, PathOf(op.va), Outcome(c, op))
  }

  // The last operation of the run that concerns page p of space s.
  function LastHit(c: Config, ops: seq<Op>, s: nat, p: Path): (r: int)
    ensures -1 <= r < |ops|
    decreases |ops|
  {
    if ops == [] then -1
    else
      var n := |ops| - 1;
      if PathOf(ops[n].va) == p && (ops[n].root == s || Shared(c, p.i4)) then n else LastHit(c, ops[..n], s, p)
  }

  // A page of a space translates to what the last operation that concerns it left there.
  lemma {:induction false} LastOperationDecides(c: Config, v: View, ops: seq<Op>, s: nat, p: Path)
    requires (s, p) in v
    ensures (s, p) in Run(c, v, ops)
    ensures var n := LastHit(c, ops, s, p);
      Run(c, v, ops)[(s, p)] == if n == -1 then v[(s, p)] else Outcome(c, ops[n])
    decreases |ops|
  {
    if ops != [] {
      LastOperationDecides(c, v, ops[..|ops| - 1], s, p);
    }
  }

  // The operations issued on one space.
  function OnlySpace(ops: seq<Op>, s: nat): seq<Op>
    decreases |ops|
  {
    if ops == [] then []
    else
      var rest := OnlySpace(ops[..|ops| - 1], s);
      if ops[|ops| - 1].root == s then rest + [ops[|ops| - 1]] else rest
  }

  // Separation: below a top-level slot the kernel does not own, a space looks as if the operations on
  // all other spaces had never happened.
  lemma {:induction false} Separation(c: Config, v: View, ops: seq<Op>, s: nat, p: Path)
    requires (s, p) in v && !Shared(c, p.i4)
    ensures (s, p) in Run(c, v, ops) && (s, p) in Run(c, v, OnlySpace(ops, s))
    ensures Run(c, v, ops)[(s, p)] == Run(c, v, OnlySpace(ops, s))[(s, p)]
    decreases |ops|
  {
    if ops != [] {
      var n := |ops| - 1;
      Separation(c, v, ops[..n], s, p);
      var before := OnlySpace(ops[..n], s);
      if ops[n].root == s {
        assert OnlySpace(ops, s) == before + [ops[n]];
        RunOneMore(c, v, before, ops[n]);
      }
    }
  }

  lemma RunOneMore(c: Config, v: View, ops: seq<Op>, op: Op)
    ensures Run(c, v, ops + [op]) == Set(c, Run(c, v, ops), op.root, PathOf(op.va), Outcome(c, op))
  {
  }

  // Sharing: below a slot the kernel does own, spaces that start out alike stay alike.
  lemma {:induction false} Sharing(c: Config, v: View, ops: seq<Op>, r: nat, s: nat, p: Path)
    requires (r, p) in v && (s, p) in v && v[(r, p)] == v[(s, p)] && Shared(c, p.i4)
    ensures (r, p) in Run(c, v, ops) && (s, p) in Run(c, v, ops)
    ensures Run(c, v, ops)[(r, p)] == Run(c, v, ops)[(s, p)]
    decreases |ops|
  {
    if ops != [] {
      Sharing(c, v, ops[..|ops| - 1], r, s, p);
    }
  }

  // Where every heap starts.
  const HEAP_START: nat := 0x1_0000_0000

  // The heaps of two spaces collide exactly when the first top-level slot is the kernel's: then the
  // first page mapped on the heap of one replaces the first page on the heap of the other.
  lemma HeapsCollide(c: Config, v: View, a: nat, b: nat, phys: nat, phys': nat, flags: bv32)
    requires a != b && phys != phys' && (a, PathOf(HEAP_START)) in v && (b, PathOf(HEAP_START)) in v
    ensures var end := Run(c, v, [Map(a, HEAP_START, phys, flags), Map(b, HEAP_START, phys', flags)]);
      && (a, PathOf(HEAP_START)) in end && end[(a, PathOf(HEAP_START))].Mapped?
      && end[(a, PathOf(HEAP_START))].phys == if Shared(c, 0) then phys' else phys
  {
    var p := PathOf(HEAP_START);
    assert p == Path(0, 4, 0, 0);
    var ops := [Map(a, HEAP_START, phys, flags), Map(b, HEAP_START, phys', flags)];
    LastOperationDecides(c, v, ops, a, p);
    assert ops[..1] == [Map(a, HEAP_START, phys, flags)];
  }

  // The one new table starts with the kernel's first 256 entries; the other 256 are empty.
  ghost predicate CopiesTop(c: Config, before: Store, after: Store, root: nat) {
    && root !in before && root in after && |after[root]| == |c.pml4| == 512 && after == before[root := after[root]]
    && forall i :: 0 <= i < 512 ==> after[root][i] == if i < 256 then c.pml4[i] else 0
  }

  class PageTables {
    var tables: Store
    // The zero-filled pages kmalloc will hand out for tables, in order.
    var pool: seq<nat>
    const config: Config
    ghost var place: map<nat, Label>

    ghost predicate Valid()
      reads this
    {
      && Inv(config, tables, place)
      && (forall i :: 0 <= i < |pool| ==> Fresh(tables, pool[i]))
      && (forall i, j :: 0 <= i < j < |pool| ==> pool[i] != pool[j])
    }

    ghost predicate IsSpace(root: nat)
      reads this
    {
      IsRoot(place, root)
    }

    ghost function View(): View
      reads this
    {
      ViewOf(config, tables, place)
    }

    // The state right after init_page_tables; boot is the table memory it filled.
    constructor (config: Config, boot: Store, ghost place: map<nat, Label>, pool: seq<nat>)
      requires Inv(config, boot, place)
      requires forall i :: 0 <= i < |pool| ==> Fresh(boot, pool[i])
      requires forall i, j :: 0 <= i < j < |pool| ==> pool[i] != pool[j]
      ensures Valid() && this.config == config && this.tables == boot && this.place == place && this.pool == pool
    {
      this.config, this.tables, this.place, this.pool := config, boot, place, pool;
    }

    // kmalloc(PAGE_SIZE)
    method TakePage() returns (a: nat)
      requires Valid() && pool != []
      modifies this`pool
      ensures Valid() && Fresh(tables, a) && a == old(pool)[0] && pool == old(pool)[1..] && a !in pool
    {
      a := pool[0];
      pool := pool[1..];
    }

    // mm_create_space; 0 stands for NULL.
    method CreateSpace() returns (root: nat)
      requires Valid()
      modifies this
      ensures Valid()
      ensures root == 0 ==> old(pool) == [] && View() == old(View())
      ensures root != 0 ==> CopiesTop(config, old(tables), tables, root)
      ensures root != 0 ==> !old(IsSpace(root)) && IsSpace(root)
      ensures root != 0 ==> forall k :: k in old(View()) ==> k in View() && View()[k] == old(View())[k]
      ensures root != 0 ==> forall s, p :: (s, p) in View() ==> s == root || (s, p) in old(View())
      ensures root != 0 ==> forall p: Path :: Managed(config, p) && !Shared(config, p.i4) ==>
        View()[(root, p)] == Unmapped
      ensures root != 0 ==> forall s, p: Path :: old(IsSpace(s)) && Managed(config, p) && Shared(config, p.i4) ==>
        View()[(root, p)] == View()[(s, p)]
    {
      if pool == [] {
        return 0;
      }
      root := TakePage();
      NewSpaceKeepsInv(config, tables, place, root);
      forall s, p | IsRoot(place, s) && Managed(config, p)
        ensures Translate(tables[root := FreshTop(config)], s, p) == Translate(tables, s, p)
        ensures Shared(config, p.i4) ==>
          Translate(tables[root := FreshTop(config)], root, p) == Translate(tables[root := FreshTop(config)], s, p)
      {
        NewSpaceTranslates(config, tables, place, root, s, p);
      }
      forall p | Managed(config, p) && !Shared(config, p.i4)
        ensures Translate(tables[root := FreshTop(config)], root, p) == Unmapped
      {
        NewSpaceTranslates(config, tables, place, root, root, p);
      }
      tables := tables[root := FreshTop(config)];
      place := place[root := Pml4(root)];
    }

    // One "ensure the entry exists" step of mm_map_page.
    method Descend(t: nat, i: nat) returns (next: nat)
      requires Valid() && t in tables && i < 512 && Inner(place[t])
      requires !Child(config, place[t], i).BootPd?
      requires Present(Entry(tables, t, i)) || pool != []
      modifies this
      ensures Valid() && View() == old(View())
      ensures |pool| == |old(pool)| - (if Present(Entry(old(tables), t, i)) then 0 else 1)
      ensures t in tables && Present(Entry(tables, t, i)) && next == TableOf(Entry(tables, t, i))
      ensures next in tables && next in place && place[next] == Child(config, place[t], i)
      ensures forall x :: x in old(place) ==> x in place && place[x] == old(place)[x]
      ensures forall s :: old(IsSpace(s)) <==> IsSpace(s)
      ensures forall x, k: nat :: k < 512 && !(x == t && k == i) ==> Entry(tables, x, k) == Entry(old(tables), x, k)
      ensures Present(Entry(old(tables), t, i)) ==> Entry(tables, t, i) == Entry(old(tables), t, i)
      ensures !Present(Entry(old(tables), t, i)) ==> next !in old(tables)
    {
      assert TableOk(place, t, tables[t]) && EntryOk(config, tables, place, t, i);
      if !Present(tables[t][i]) {
        AddTable(t, i);
      }
      next := TableOf(tables[t][i]);
    }

    // Hang a zeroed page into the absent entry.
    method AddTable(t: nat, i: nat)
      requires Valid() && t in tables && |tables[t]| == 512 && i < 512 && Inner(place[t])
      requires !Present(Entry(tables, t, i)) && pool != []
      modifies this
      ensures Valid() && View() == old(View()) && pool == old(pool)[1..]
      ensures (forall x :: x in old(place) ==> x in place && place[x] == old(place)[x])
      ensures (forall s :: old(IsSpace(s)) <==> IsSpace(s))
      ensures (forall x, k: nat :: k < 512 && !(x == t && k == i) ==> Entry(tables, x, k) == Entry(old(tables), x, k))
      ensures Present(Entry(tables, t, i))
      ensures TableOf(Entry(tables, t, i)) == old(pool)[0] && old(pool)[0] !in old(tables)
      ensures old(pool)[0] in tables && place[old(pool)[0]] == Child(config, old(place)[t], i)
    {
      var a := TakePage();
      HangKeepsInv(config, tables, place, t, i, a);
      HangEverywhere(config, tables, place, t, i, a);
      HangView(config, tables, place, t, i, a);
      TableEntryDecodes(a);
      tables := Hang(tables, t, i, a);
      place := place[a := Child(config, place[t], i)];
    }

    // mm_map_page as an update of the view.
    method SetPage(root: nat, va: nat, phys: nat, flags: bv32)
      requires Valid() && IsSpace(root) && Managed(config, PathOf(va))
      requires phys % PAGE_SIZE == 0 && phys < PHYS_LIMIT
      requires |pool| >= Missing(tables, root, PathOf(va))
      modifies this
      ensures Valid() && (forall s :: old(IsSpace(s)) <==> IsSpace(s))
      ensures |pool| == |old(pool)| - old(Missing(tables, root, PathOf(va)))
      ensures View() == Set(config, old(View()), root, PathOf(va), Outcome(config, Map(root, va, phys, flags)))
    {
      var p := PathOf(va);
      var pt := FillWalk(root, p);
      LeafEntryDecodes(phys, flags);
      StoreLeaf(root, p, pt, LeafEntry(phys, flags));
    }

    // mm_map_page. The caller's page must not run through a boot page directory, and kmalloc must be
    // able to supply the tables still missing on the way.
    method MapPage(root: nat, va: nat, phys: nat, flags: bv32)
      requires Valid() && IsSpace(root) && Managed(config, PathOf(va))
      requires phys % PAGE_SIZE == 0 && phys < PHYS_LIMIT
      requires |pool| >= Missing(tables, root, PathOf(va))
      modifies this
      ensures Valid() && (forall s :: old(IsSpace(s)) <==> IsSpace(s))
      ensures |pool| == |old(pool)| - old(Missing(tables, root, PathOf(va)))
      ensures View() == Set(config, old(View()), root, PathOf(va), Outcome(config, Map(root, va, phys, flags)))
      ensures var t := Translate(tables, root, PathOf(va));
        && t.Mapped? && t.phys == phys && t.user == !Shared(config, PathOf(va).i4)
        && t.writable == (flags & 0x2 != 0) && t.noExec == (flags & 0x4 == 0)
      ensures forall s, q: Path
        | old(IsSpace(s)) && Managed(config, q) && (q != PathOf(va) || (s != root && !Shared(config, q.i4))) ::
        Translate(tables, s, q) == old(Translate(tables, s, q))
    {
      SetPage(root, va, phys, flags);
      ViewAfterSet(config, old(tables), old(place), tables, place, root, PathOf(va), Outcome(config, Map(root, va, phys, flags)));
    }

    // The three "ensure the entry exists" steps.
    method FillWalk(root: nat, p: Path) returns (pt: nat)
      requires Valid() && IsSpace(root) && Managed(config, p)
      requires |pool| >= Missing(tables, root, p)
      modifies this
      ensures Valid() && (forall s :: old(IsSpace(s)) <==> IsSpace(s)) && View() == old(View())
      ensures |pool| == |old(pool)| - old(Missing(tables, root, p))
      ensures Reaches(tables, root, p, pt)
    {
      WalkPlaces(config, tables, place, root, p);
      var pdpt := Descend(root, p.i4);
      assert place[pdpt] == Pdpt(OwnerOf(config, root, p.i4), p.i4);
      var pd := Descend(pdpt, p.i3);
      assert Entry(tables, root, p.i4) == old(Entry(tables, root, p.i4)) || !Present(old(Entry(tables, root, p.i4)));
      assert TableOf(Entry(tables, root, p.i4)) == pdpt;
      assert place[pd] == Pd(OwnerOf(config, root, p.i4), p.i4, p.i3);
      pt := Descend(pd, p.i2);
      assert TableOf(Entry(tables, root, p.i4)) == pdpt && TableOf(Entry(tables, pdpt, p.i3)) == pd;
    }

    // The final assignment to pt[pt_index] in mapping and unmapping.
    method StoreLeaf(root: nat, p: Path, pt: nat, e: nat)
      requires Valid() && IsSpace(root) && Managed(config, p) && Reaches(tables, root, p, pt)
      modifies this`tables
      ensures Valid() && View() == Set(config, old(View()), root, p, Leaf(config, p.i4, e))
    {
      WalkPlaces(config, tables, place, root, p);
      assert TableOk(place, pt, tables[pt]);
      PutKeepsInv(config, tables, place, pt, p.i1, e);
      PutView(config, tables, place, root, p, pt, e);
      tables := Put(tables, pt, p.i1, e);
    }

    // mm_unmap_page as an update of the view.
    method ClearPage(root: nat, va: nat)
      requires Valid() && IsSpace(root) && Managed(config, PathOf(va))
      modifies this`tables
      ensures Valid()
      ensures View() == Set(config, old(View()), root, PathOf(va), Unmapped)
    {
      var p := PathOf(va);
      WalkPlaces(config, tables, place, root, p);
      forall s | IsSpace(s) && Shared(config, p.i4) ensures Translate(tables, s, p) == Translate(tables, root, p) {
        SharedSlotsAgree(config, tables, place, root, s, p);
      }
      var e4 := Entry(tables, root, p.i4);
      if Present(e4) {
        var e3 := Entry(tables, TableOf(e4), p.i3);
        if Present(e3) {
          var e2 := Entry(tables, TableOf(e3), p.i2);
          if Present(e2) {
            StoreLeaf(root, p, TableOf(e2), 0);
          }
        }
      }
    }

    // mm_unmap_page
    method UnmapPage(root: nat, va: nat)
      requires Valid() && IsSpace(root) && Managed(config, PathOf(va))
      modifies this`tables
      ensures Valid()
      ensures View() == Set(config, old(View()), root, PathOf(va), Unmapped)
      ensures Translate(tables, root, PathOf(va)) == Unmapped
      ensures forall s, q: Path
        | old(IsSpace(s)) && Managed(config, q) && (q != PathOf(va) || (s != root && !Shared(config, q.i4))) ::
        Translate(tables, s, q) == old(Translate(tables, s, q))
    {
      ClearPage(root, va);
      ViewAfterSet(config, old(tables), place, tables, place, root, PathOf(va), Unmapped);
    }
  }
}
