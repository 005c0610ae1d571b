/** The walk through the four table levels, and why tables reached from different places are different. */
module PageWalk {
  import opened Machine
  import opened PageEntries

  // Table memory: the 512 words behind each table address.
  type Store = map<nat, seq<nat>>

  // What is known at boot: the words of kernel_pml4, and the (PML4, PDPT) slots that
  // init_page_tables fills with page directories of its own.
  datatype Config = Config(pml4: seq<nat>, reserved: set<(nat, nat)>)

  datatype Owner = Kernel | Space(root: nat)

  // The one place a table hangs in the hierarchy.
  datatype Label =
    | Pml4(root: nat)
    | Pdpt(owner: Owner, i4: nat)
    | Pd(owner: Owner, i4: nat, i3: nat)
    | Pt(owner: Owner, i4: nat, i3: nat, i2: nat)
    | BootPd

  datatype Translation = Unmapped | Mapped(phys: nat, writable: bool, user: bool, noExec: bool)

  // The top-level slots every space copies from the kernel.
  predicate Shared(c: Config, i: nat) {
    i < 256 && i < |c.pml4| && Present(c.pml4[i])
  }

  function OwnerOf(c: Config, root: nat, i4: nat): Owner {
    if Shared(c, i4) then Kernel else Space(root)
  }

  // Pages that do not run through a page directory made at boot.
  predicate Managed(c: Config, p: Path) {
    p.Valid() && !(Shared(c, p.i4) && (p.i4, p.i3) in c.reserved)
  }

  function Child(c: Config, l: Label, i: nat): Label {
    match l
    case Pml4(r) => Pdpt(OwnerOf(c, r, i), i)
    case Pdpt(o, i4) => if o == Kernel && (i4, i) in c.reserved then BootPd else Pd(o, i4, i)
    case Pd(o, i4, i3) => Pt(o, i4, i3, i)
    case Pt(_, _, _, _) => BootPd
    case BootPd => BootPd
  }

  predicate Inner(l: Label) { l.Pml4? || l.Pdpt? || l.Pd? }

  // A present entry of an upper table leads to the table that belongs there.
  ghost predicate EntryOk(c: Config, store: Store, place: map<nat, Label>, a: nat, i: nat)
    requires a in store && a in place && i < |store[a]|
  {
    var e := store[a][i];
    && (Inner(place[a]) && Present(e) ==>
          && TableOf(e) in store && TableOf(e) in place && place[TableOf(e)] == Child(c, place[a], i)
          && Writable(e) && !NoExec(e)
          && (User(e) <==> !(place[a].Pml4? && Shared(c, i)) && !Child(c, place[a], i).BootPd?))
    && (place[a].Pml4? && Shared(c, i) ==> e == c.pml4[i])
    && (place[a].Pdpt? && Child(c, place[a], i).BootPd? ==> Present(e))
  }

  ghost predicate TableOk(place: map<nat, Label>, a: nat, words: seq<nat>) {
    && |words| == 512 && a % PAGE_SIZE == 0 && 0 < a < PHYS_LIMIT
    && a in place && (place[a].Pml4? ==> place[a].root == a)
  }

  ghost predicate BootOk(c: Config, store: Store, place: map<nat, Label>) {
    && |c.pml4| == 512
    && forall i :: 0 <= i < 512 && Shared(c, i) ==>
         var t := TableOf(c.pml4[i]);
         t in store && t in place && place[t] == Pdpt(Kernel, i) && Writable(c.pml4[i]) && !User(c.pml4[i]) && !NoExec(c.pml4[i])
  }

  ghost predicate Inv(c: Config, store: Store, place: map<nat, Label>) {
    && BootOk(c, store, place)
    && place.Keys == store.Keys
    && (forall a :: a in store ==> TableOk(place, a, store[a]))
    && (forall a, i :: a in store && 0 <= i < 512 ==> EntryOk(c, store, place, a, i))
  }

  predicate IsRoot(place: map<nat, Label>, root: nat) {
    root in place && place[root] == Pml4(root)
  }

  // ----- The walk -----

  function Entry(store: Store, t: nat, i: nat): nat {
    if t in store && i < |store[t]| then store[t][i] else 0
  }

  // What the processor makes of the page: the leaf frame, and the permissions of all four levels together.
  function Translate(store: Store, root: nat, p: Path): Translation {
    var e4 := Entry(store, root, p.i4);
    if !Present(e4) then Unmapped else
    var e3 := Entry(store, TableOf(e4), p.i3);
    if !Present(e3) then Unmapped else
    var e2 := Entry(store, TableOf(e3), p.i2);
    if !Present(e2) then Unmapped else
    var e1 := Entry(store, TableOf(e2), p.i1);
    if !Present(e1) then Unmapped else
    Mapped(FrameOf(e1),
           Writable(e4) && Writable(e3) && Writable(e2) && Writable(e1),
           User(e4) && User(e3) && User(e2) && User(e1),
           NoExec(e4) || NoExec(e3) || NoExec(e2) || NoExec(e1))
  }

  ghost predicate Word(store: Store, t: nat, i: nat, e: nat) { t in store && i < |store[t]| && store[t][i] == e }

  // The walk on the address and the words themselves: bits 39 to 47, 30 to 38, 21 to 29 and 12 to 20 index the four
  // tables, bit 0 is present, bit 1 writable, bit 2 user, bit 63 no-execute.
  lemma WalkIs(store: Store, root: nat, va: nat, e4: nat, e3: nat, e2: nat, e1: nat)
    requires Word(store, root, va / 0x80_0000_0000 % 512, e4)
    requires e4 % 2 == 1 ==> Word(store, e4 - e4 % 4096, va / 0x4000_0000 % 512, e3)
    requires e4 % 2 == 1 && e3 % 2 == 1 ==> Word(store, e3 - e3 % 4096, va / 0x20_0000 % 512, e2)
    requires e4 % 2 == 1 && e3 % 2 == 1 && e2 % 2 == 1 ==> Word(store, e2 - e2 % 4096, va / 0x1000 % 512, e1)
    ensures Translate(store, root, PathOf(va)) ==
      if e4 % 2 == 1 && e3 % 2 == 1 && e2 % 2 == 1 && e1 % 2 == 1 then
        Mapped(e1 / 4096 % 0x100_0000_0000 * 4096,
               e4 / 2 % 2 == 1 && e3 / 2 % 2 == 1 && e2 / 2 % 2 == 1 && e1 / 2 % 2 == 1,
               e4 / 4 % 2 == 1 && e3 / 4 % 2 == 1 && e2 / 4 % 2 == 1 && e1 / 4 % 2 == 1,
               e4 / 0x8000_0000_0000_0000 % 2 == 1 || e3 / 0x8000_0000_0000_0000 % 2 == 1 ||
               e2 / 0x8000_0000_0000_0000 % 2 == 1 || e1 / 0x8000_0000_0000_0000 % 2 == 1)
      else Unmapped
  {
  }

  // Under Inv, each step of a managed walk arrives at the table that belongs to that part of the path.
  lemma WalkPlaces(c: Config, store: Store, place: map<nat, Label>, root: nat, p: Path)
    requires Inv(c, store, place) && IsRoot(place, root) && Managed(c, p)
    ensures var e4 := Entry(store, root, p.i4);
      Present(e4) ==> TableOf(e4) in store && place[TableOf(e4)] == Pdpt(OwnerOf(c, root, p.i4), p.i4)
    ensures var e4 := Entry(store, root, p.i4); var e3 := Entry(store, TableOf(e4), p.i3);
      Present(e4) && Present(e3) ==>
        TableOf(e3) in store && place[TableOf(e3)] == Pd(OwnerOf(c, root, p.i4), p.i4, p.i3)
    ensures var e4 := Entry(store, root, p.i4); var e3 := Entry(store, TableOf(e4), p.i3);
      var e2 := Entry(store, TableOf(e3), p.i2);
      Present(e4) && Present(e3) && Present(e2) ==>
        TableOf(e2) in store && place[TableOf(e2)] == Pt(OwnerOf(c, root, p.i4), p.i4, p.i3, p.i2)
  {
    assert EntryOk(c, store, place, root, p.i4);
    var e4 := Entry(store, root, p.i4);
    if Present(e4) {
      var t3 := TableOf(e4);
      assert TableOk(place, t3, store[t3]);
      assert EntryOk(c, store, place, t3, p.i3);
      var e3 := Entry(store, t3, p.i3);
      if Present(e3) {
        var t2 := TableOf(e3);
        assert TableOk(place, t2, store[t2]);
        assert EntryOk(c, store, place, t2, p.i2);
      }
    }
  }

  // ----- Storing one word -----

  function Put(store: Store, t: nat, i: nat, e: nat): Store
    requires t in store && i < |store[t]|
  {
    var words: seq<nat> := store[t][i := e];
    store[t := words]
  }

  // The permissions a leaf word gives once the upper levels are taken into account.
  function Leaf(c: Config, i4: nat, e: nat): Translation {
    if Present(e) then Mapped(FrameOf(e), Writable(e), User(e) && !Shared(c, i4), NoExec(e)) else Unmapped
  }

  // t is the page table that the walk of (root, p) reaches.
  predicate Reaches(store: Store, root: nat, p: Path, t: nat) {
    var e4 := Entry(store, root, p.i4);
    var e3 := Entry(store, TableOf(e4), p.i3);
    var e2 := Entry(store, TableOf(e3), p.i2);
    Present(e4) && Present(e3) && Present(e2) && TableOf(e2) == t
  }

  // A managed page shows its leaf word through upper levels that add no restriction but the
  // missing user bit of the kernel's top-level slots.
  lemma TranslateIsLeaf(c: Config, store: Store, place: map<nat, Label>, root: nat, p: Path, t: nat)
    requires Inv(c, store, place) && IsRoot(place, root) && Managed(c, p) && Reaches(store, root, p, t)
    ensures Translate(store, root, p) == Leaf(c, p.i4, Entry(store, t, p.i1))
  {
    WalkPlaces(c, store, place, root, p);
    var e4 := Entry(store, root, p.i4);
    var t3 := TableOf(e4);
    var t2 := TableOf(Entry(store, t3, p.i3));
    assert EntryOk(c, store, place, root, p.i4);
    assert TableOk(place, t3, store[t3]) && TableOk(place, t2, store[t2]);
    assert EntryOk(c, store, place, t3, p.i3);
    assert EntryOk(c, store, place, t2, p.i2);
  }

  // Two walks that meet in one page table started in the same slot of the same space, or in a slot
  // both spaces share with the kernel.
  lemma MeetOnlyInSharedSlots(c: Config, store: Store, place: map<nat, Label>,
                              r: nat, p: Path, s: nat, q: Path, t: nat)
    requires Inv(c, store, place) && IsRoot(place, r) && IsRoot(place, s) && Managed(c, p) && Managed(c, q)
    requires Reaches(store, r, p, t)
    ensures Reaches(store, s, q, t) <==>
      p.i4 == q.i4 && p.i3 == q.i3 && p.i2 == q.i2 && (r == s || Shared(c, p.i4))
  {
    WalkPlaces(c, store, place, r, p);
    WalkPlaces(c, store, place, s, q);
    if Shared(c, p.i4) && p.i4 == q.i4 {
      assert EntryOk(c, store, place, r, p.i4);
      assert EntryOk(c, store, place, s, p.i4);
      assert Entry(store, r, p.i4) == Entry(store, s, p.i4);
    }
  }

  lemma EntryAfterPut(store: Store, t: nat, i: nat, e: nat, x: nat, k: nat)
    requires t in store && i < |store[t]|
    ensures Entry(Put(store, t, i, e), x, k) == if x == t && k == i then e else Entry(store, x, k)
  {
  }

  // Writing a word of a page table keeps the hierarchy.
  lemma PutKeepsInv(c: Config, store: Store, place: map<nat, Label>, t: nat, i: nat, e: nat)
    requires Inv(c, store, place) && t in store && place[t].Pt? && i < 512
    ensures Inv(c, Put(store, t, i, e), place)
  {
    var store' := Put(store, t, i, e);
    assert TableOk(place, t, store[t]);
    forall a | a in store' ensures TableOk(place, a, store'[a]) {
      assert TableOk(place, a, store[a]);
    }
    forall a, k | a in store' && 0 <= k < 512 ensures EntryOk(c, store', place, a, k) {
      assert TableOk(place, a, store[a]);
      assert EntryOk(c, store, place, a, k);
      if a == t { assert store'[a][k] == if k == i then e else store[a][k]; }
    }
  }

  // The refinement step: the word written is seen through exactly one page of one space, or through
  // that page of every space when its top-level slot is shared; nothing else translates differently.
  lemma PutTranslates(c: Config, store: Store, place: map<nat, Label>,
                      r: nat, p: Path, t: nat, e: nat, s: nat, q: Path)
    requires Inv(c, store, place) && IsRoot(place, r) && IsRoot(place, s) && Managed(c, p) && Managed(c, q)
    requires Reaches(store, r, p, t) && t in store && |store[t]| == 512
    ensures Translate(Put(store, t, p.i1, e), s, q) ==
      if q == p && (s == r || Shared(c, p.i4)) then Leaf(c, p.i4, e) else Translate(store, s, q)
  {
    var store' := Put(store, t, p.i1, e);
    WalkPlaces(c, store, place, r, p);
    WalkPlaces(c, store, place, s, q);
    PutKeepsInv(c, store, place, t, p.i1, e);
    MeetOnlyInSharedSlots(c, store, place, r, p, s, q, t);
    var e4 := Entry(store, s, q.i4);
    var e3 := Entry(store, TableOf(e4), q.i3);
    var e2 := Entry(store, TableOf(e3), q.i2);
    EntryAfterPut(store, t, p.i1, e, s, q.i4);
    if Present(e4) {
      EntryAfterPut(store, t, p.i1, e, TableOf(e4), q.i3);
      if Present(e3) {
        EntryAfterPut(store, t, p.i1, e, TableOf(e3), q.i2);
        if Present(e2) {
          EntryAfterPut(store, t, p.i1, e, TableOf(e2), q.i1);
          if TableOf(e2) == t {
            TranslateIsLeaf(c, store', place, s, q, t);
          }
        }
      }
    }
  }

  // ----- Hanging a new, zeroed table into an absent entry -----

  function Zeros(): (words: seq<nat>)
    ensures |words| == 512 && forall k :: 0 <= k < 512 ==> words[k] == 0
  {
    seq(512, _ => 0)
  }

  ghost predicate Fresh(store: Store, a: nat) {
    a !in store && a % PAGE_SIZE == 0 && 0 < a < PHYS_LIMIT
  }

  function Hang(store: Store, t: nat, i: nat, a: nat): Store
    requires t in store && i < |store[t]|
  {
    var words: seq<nat> := store[t][i := TableEntry(a)];
    store[a := Zeros()][t := words]
  }

  ghost predicate Hangable(c: Config, store: Store, place: map<nat, Label>, t: nat, i: nat, a: nat) {
    && Inv(c, store, place) && Fresh(store, a)
    && t in store && i < 512 && Inner(place[t]) && !Present(Entry(store, t, i))
  }

  lemma HangEntries(c: Config, store: Store, place: map<nat, Label>, t: nat, i: nat, a: nat, x: nat, k: nat)
    requires Hangable(c, store, place, t, i, a) && k < 512
    ensures |store[t]| == 512
    ensures Entry(Hang(store, t, i, a), x, k) == if x == t && k == i then TableEntry(a) else Entry(store, x, k)
  {
  }

  lemma HangKeepsInv(c: Config, store: Store, place: map<nat, Label>, t: nat, i: nat, a: nat)
    requires Hangable(c, store, place, t, i, a)
    ensures |store[t]| == 512 && Inv(c, Hang(store, t, i, a), place[a := Child(c, place[t], i)])
  {
    assert TableOk(place, t, store[t]);
    assert EntryOk(c, store, place, t, i);
    var store', place' := Hang(store, t, i, a), place[a := Child(c, place[t], i)];
    TableEntryDecodes(a);
    forall x | x in store' ensures TableOk(place', x, store'[x]) {
      if x != a { assert TableOk(place, x, store[x]); }
    }
    forall x, k | x in store' && 0 <= k < 512 ensures EntryOk(c, store', place', x, k) {
      if x != a {
        assert TableOk(place, x, store[x]);
        assert EntryOk(c, store, place, x, k);
      } else {
        assert store'[a][k] == 0;
      }
    }
  }

  // A new table maps nothing, so no page of any space translates differently.
  lemma HangTranslates(c: Config, store: Store, place: map<nat, Label>, t: nat, i: nat, a: nat, s: nat, q: Path)
    requires Hangable(c, store, place, t, i, a) && IsRoot(place, s) && Managed(c, q)
    ensures |store[t]| == 512 && Translate(Hang(store, t, i, a), s, q) == Translate(store, s, q)
  {
    assert TableOk(place, t, store[t]);
    TableEntryDecodes(a);
    WalkPlaces(c, store, place, s, q);
    var e4 := Entry(store, s, q.i4);
    var e3 := Entry(store, TableOf(e4), q.i3);
    var e2 := Entry(store, TableOf(e3), q.i2);
    HangEntries(c, store, place, t, i, a, s, q.i4);
    HangEntries(c, store, place, t, i, a, a, q.i3);
    HangEntries(c, store, place, t, i, a, a, q.i2);
    HangEntries(c, store, place, t, i, a, a, q.i1);
    if Present(e4) {
      HangEntries(c, store, place, t, i, a, TableOf(e4), q.i3);
      if Present(e3) {
        HangEntries(c, store, place, t, i, a, TableOf(e3), q.i2);
        if Present(e2) {
          HangEntries(c, store, place, t, i, a, TableOf(e2), q.i1);
        }
      }
    }
  }

  lemma HangEverywhere(c: Config, store: Store, place: map<nat, Label>, t: nat, i: nat, a: nat)
    requires Hangable(c, store, place, t, i, a)
    ensures |store[t]| == 512
    ensures forall s, q :: IsRoot(place, s) && Managed(c, q) ==>
      Translate(Hang(store, t, i, a), s, q) == Translate(store, s, q)
    ensures forall x, k: nat :: k < 512 ==>
      Entry(Hang(store, t, i, a), x, k) == if x == t && k == i then TableEntry(a) else Entry(store, x, k)
  {
    assert TableOk(place, t, store[t]);
    forall s, q | IsRoot(place, s) && Managed(c, q)
      ensures Translate(Hang(store, t, i, a), s, q) == Translate(store, s, q)
    {
      HangTranslates(c, store, place, t, i, a, s, q);
    }
    forall x, k: nat | k < 512
      ensures Entry(Hang(store, t, i, a), x, k) == if x == t && k == i then TableEntry(a) else Entry(store, x, k)
    {
      HangEntries(c, store, place, t, i, a, x, k);
    }
  }

  // How many tables a walk to the leaf of (root, p) still lacks.
  function Missing(store: Store, root: nat, p: Path): (n: nat)
    ensures n <= 3
  {
    var e4 := Entry(store, root, p.i4);
    var e3 := Entry(store, TableOf(e4), p.i3);
    var e2 := Entry(store, TableOf(e3), p.i2);
    if !Present(e4) then 3 else if !Present(e3) then 2 else if !Present(e2) then 1 else 0
  }

  // ----- A new space -----

  // mm_create_space: the lower half of the top level is the kernel's, the upper half is empty.
  function FreshTop(c: Config): (words: seq<nat>)
    requires |c.pml4| == 512
    ensures |words| == 512
    ensures forall i :: 0 <= i < 512 ==> words[i] == if i < 256 then c.pml4[i] else 0
  {
    seq(512, i requires 0 <= i < 512 => if i < 256 then c.pml4[i] else 0)
  }

  lemma NewSpaceKeepsInv(c: Config, store: Store, place: map<nat, Label>, a: nat)
    requires Inv(c, store, place) && Fresh(store, a)
    ensures Inv(c, store[a := FreshTop(c)], place[a := Pml4(a)])
  {
    var store', place' := store[a := FreshTop(c)], place[a := Pml4(a)];
    forall x | x in store' ensures TableOk(place', x, store'[x]) {
      if x != a { assert TableOk(place, x, store[x]); }
    }
    forall x, k | x in store' && 0 <= k < 512 ensures EntryOk(c, store', place', x, k) {
      if x != a {
        assert TableOk(place, x, store[x]);
        assert EntryOk(c, store, place, x, k);
      }
    }
  }

  lemma NewSpaceTranslates(c: Config, store: Store, place: map<nat, Label>, a: nat, s: nat, q: Path)
    requires Inv(c, store, place) && Fresh(store, a) && Managed(c, q)
    ensures IsRoot(place, s) ==> Translate(store[a := FreshTop(c)], s, q) == Translate(store, s, q)
    ensures !Shared(c, q.i4) ==> Translate(store[a := FreshTop(c)], a, q) == Unmapped
    ensures Shared(c, q.i4) && IsRoot(place, s) ==>
      Translate(store[a := FreshTop(c)], a, q) == Translate(store, s, q)
  {
    var store' := store[a := FreshTop(c)];
    if IsRoot(place, s) {
      WalkPlaces(c, store, place, s, q);
      assert EntryOk(c, store, place, s, q.i4);
    }
  }

  // Two spaces agree on every page below a shared top-level slot.
  lemma SharedSlotsAgree(c: Config, store: Store, place: map<nat, Label>, r: nat, s: nat, p: Path)
    requires Inv(c, store, place) && IsRoot(place, r) && IsRoot(place, s) && p.Valid() && Shared(c, p.i4)
    ensures Translate(store, r, p) == Translate(store, s, p)
  {
    assert TableOk(place, r, store[r]) && TableOk(place, s, store[s]);
    assert EntryOk(c, store, place, r, p.i4);
    assert EntryOk(c, store, place, s, p.i4);
  }
}
