/** The hierarchy init_page_tables leaves behind: it satisfies the invariant everything later relies on. */
module BootTables {
  import opened Machine
  import opened PageEntries
  import opened PageWalk

  function KernelEntry(t: nat): nat { OrWrite(OrPresent(t)) }

  // kernel_pml4 after boot: only slot 0 is present.
  function Pml4Words(pdpt: nat): (words: seq<nat>)
    ensures |words| == 512 && words[0] == KernelEntry(pdpt) && forall i :: 0 < i < 512 ==> words[i] == 0
  {
    seq(512, i => if i == 0 then KernelEntry(pdpt) else 0)
  }

  // The PDPT of slot 0: four page directories, the rest absent.
  function PdptWords(pds: seq<nat>): (words: seq<nat>)
    requires |pds| == 4
    ensures |words| == 512
    ensures forall j :: 0 <= j < 512 ==> words[j] == if j < 4 then KernelEntry(pds[j]) else 0
  {
    seq(512, j requires 0 <= j < 512 => if j < 4 then KernelEntry(pds[j]) else 0)
  }

  // The words stored into page directory j (in steps of 4 KB), with PTE_GLOBAL on top.
  function PdWords(j: nat): (words: seq<nat>)
    ensures |words| == 512
  {
    seq(512, k requires k >= 0 => KernelEntry(j * 512 * PAGE_SIZE + k * PAGE_SIZE) + 0x100)
  }

  function BootConfig(pdpt: nat): Config {
    Config(Pml4Words(pdpt), set j | 0 <= j < 4 :: (0, j))
  }

  function BootStore(pdpt: nat, pds: seq<nat>): Store
    requires |pds| == 4
  {
    map[pdpt := PdptWords(pds), pds[0] := PdWords(0), pds[1] := PdWords(1), pds[2] := PdWords(2), pds[3] := PdWords(3)]
  }

  function BootPlaces(pdpt: nat, pds: seq<nat>): map<nat, Label>
    requires |pds| == 4
  {
    map[pdpt := Pdpt(Kernel, 0), pds[0] := BootPd, pds[1] := BootPd, pds[2] := BootPd, pds[3] := BootPd]
  }

  predicate TableAddress(a: nat) { a % PAGE_SIZE == 0 && 0 < a < PHYS_LIMIT }

  lemma KernelEntryDecodes(t: nat)
    requires TableAddress(t)
    ensures var e := KernelEntry(t);
      Present(e) && Writable(e) && !User(e) && !NoExec(e) && TableOf(e) == t
  {
  }

  lemma BootIsValid(pdpt: nat, pds: seq<nat>)
    requires |pds| == 4 && TableAddress(pdpt) && pdpt !in pds
    requires forall j :: 0 <= j < 4 ==> TableAddress(pds[j])
    requires forall j, k :: 0 <= j < k < 4 ==> pds[j] != pds[k]
    ensures Inv(BootConfig(pdpt), BootStore(pdpt, pds), BootPlaces(pdpt, pds))
    ensures forall i :: 0 <= i < 512 ==> (Shared(BootConfig(pdpt), i) <==> i == 0)
    ensures forall p: Path :: Managed(BootConfig(pdpt), p) <==> p.Valid() && (p.i4 == 0 ==> p.i3 >= 4)
  {
    var c, store, place := BootConfig(pdpt), BootStore(pdpt, pds), BootPlaces(pdpt, pds);
    KernelEntryDecodes(pdpt);
    forall j | 0 <= j < 4
      ensures var e := KernelEntry(pds[j]);
        Present(e) && Writable(e) && !User(e) && !NoExec(e) && TableOf(e) == pds[j]
    {
      KernelEntryDecodes(pds[j]);
    }
    assert forall i :: 0 <= i < 512 ==> (Shared(c, i) <==> i == 0);
    forall a, i | a in store && 0 <= i < 512 ensures EntryOk(c, store, place, a, i) {
      if a == pdpt {
        assert store[a][i] == if i < 4 then KernelEntry(pds[i]) else 0;
        assert (0, i) in c.reserved <==> i < 4;
        if i < 4 { assert place[pds[i]] == BootPd; }
      }
    }
  }
}
