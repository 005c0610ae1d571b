/** Page-table words and virtual addresses of kernel/mm.c and kernel/mm.h. */
module PageEntries {
  import opened Machine

  const NX: nat := 0x8000_0000_0000_0000
  const PHYS_LIMIT: nat := 0x10_0000_0000_0000   // 2^52

  // ----- Entries: a 64-bit word whose flag bits are written as arithmetic on the word -----

  predicate Present(e: nat) { e % 2 == 1 }
  predicate Writable(e: nat) { e / 2 % 2 == 1 }
  predicate User(e: nat) { e / 4 % 2 == 1 }
  predicate NoExec(e: nat) { e / NX % 2 == 1 }

  // e | PTE_PRESENT and so on.
  function OrPresent(e: nat): nat { if Present(e) then e else e + 1 }
  function OrWrite(e: nat): nat { if Writable(e) then e else e + 2 }
  function OrUser(e: nat): nat { if User(e) then e else e + 4 }
  function OrNoExec(e: nat): nat { if NoExec(e) then e else e + NX }

  // e & ~0xFFF, the way the C code finds the next table.
  function TableOf(e: nat): nat { e - e % 4096 }

  // Bits 12 to 51, the frame the processor uses.
  function FrameOf(e: nat): nat { e / 4096 % 0x100_0000_0000 * 4096 }

  function TableEntry(table: nat): nat { OrUser(OrWrite(OrPresent(table))) }

  const MEM_WRITE: bv32 := 0x2
  const MEM_EXEC: bv32 := 0x4

  predicate WantsWrite(flags: bv32) { flags & MEM_WRITE != 0 }
  predicate WantsExec(flags: bv32) { flags & MEM_EXEC != 0 }

  function LeafEntry(phys: nat, flags: bv32): nat {
    var e := OrUser(OrPresent(phys));
    var e := if WantsWrite(flags) then OrWrite(e) else e;
    if WantsExec(flags) then e else OrNoExec(e)
  }

  lemma LowBits(e: nat)
    ensures Present(e) <==> e % 8 % 2 == 1
    ensures Writable(e) <==> e % 8 / 2 % 2 == 1
    ensures User(e) <==> e % 8 / 4 % 2 == 1
  {
    var q, r := e / 8, e % 8;
    assert e == 8 * q + r;
    assert e / 2 == 4 * q + r / 2;
    assert e / 4 == 2 * q + r / 4;
  }

  lemma FrameBits(phys: nat, low: nat)
    requires phys % PAGE_SIZE == 0 && phys < PHYS_LIMIT && low < 8
    ensures FrameOf(phys + low) == phys && !NoExec(phys + low) && (phys + low) % 8 == low
    ensures FrameOf(phys + low + NX) == phys && NoExec(phys + low + NX) && (phys + low + NX) % 8 == low
  {
    var n := phys / 4096;
    assert (phys + low) / 4096 == n && n < 0x100_0000_0000;
    assert (phys + low + NX) / 4096 == n + 0x8_0000_0000_0000;
  }

  // The three low flag bits and the no-execute bit are independent of the frame number.
  lemma FlagBits(phys: nat, low: nat, e: nat)
    requires phys % PAGE_SIZE == 0 && phys < PHYS_LIMIT && low < 8 && (e == phys + low || e == phys + low + NX)
    ensures FrameOf(e) == phys && (NoExec(e) <==> e == phys + low + NX)
    ensures (Present(e) <==> low % 2 == 1) && (Writable(e) <==> low / 2 % 2 == 1) && (User(e) <==> low / 4 % 2 == 1)
  {
    FrameBits(phys, low);
    LowBits(e);
  }

  lemma TableEntryDecodes(table: nat)
    requires table % PAGE_SIZE == 0 && table < PHYS_LIMIT
    ensures var e := TableEntry(table);
      Present(e) && Writable(e) && User(e) && !NoExec(e) && TableOf(e) == table
    ensures TableEntry(table) == table + 7
  {
    FlagBits(table, 0, table);
    FlagBits(table, 1, table + 1);
    FlagBits(table, 3, table + 3);
    FlagBits(table, 7, table + 7);
    assert TableEntry(table) == table + 7;
  }

  // The word written into a page table says exactly what the caller asked for: bit 0 present, bit 1 writable iff
  // MEM_WRITE (0x2), bit 2 user, bit 63 no-execute iff not MEM_EXEC (0x4), and the frame in between.
  lemma LeafEntryDecodes(phys: nat, flags: bv32)
    requires phys % PAGE_SIZE == 0 && phys < PHYS_LIMIT
    ensures var e := LeafEntry(phys, flags);
      && e < 0x1_0000_0000_0000_0000
      && Present(e) && User(e) && FrameOf(e) == phys
      && (Writable(e) <==> flags & 0x2 != 0)
      && (NoExec(e) <==> flags & 0x4 == 0)
    ensures LeafEntry(phys, flags) ==
      phys + 5 + (if flags & 0x2 != 0 then 2 else 0) + (if flags & 0x4 == 0 then 0x8000_0000_0000_0000 else 0)
  {
    FlagBits(phys, 0, phys);
    FlagBits(phys, 1, phys + 1);
    FlagBits(phys, 5, phys + 5);
    var low := if WantsWrite(flags) then 7 else 5;
    FlagBits(phys, low, phys + low);
    FlagBits(phys, low, phys + low + NX);
    assert LeafEntry(phys, flags) == phys + low + (if WantsExec(flags) then 0 else NX);
  }

  // ----- Virtual addresses -----

  // The four 9-bit indices of a page.
  datatype Path = Path(i4: nat, i3: nat, i2: nat, i1: nat) {
    predicate Valid() { i4 < 512 && i3 < 512 && i2 < 512 && i1 < 512 }
  }

  function PathOf(va: nat): (p: Path)
    ensures p.Valid()
  {
    Path(va / 0x80_0000_0000 % 512, va / 0x4000_0000 % 512, va / 0x20_0000 % 512, va / 0x1000 % 512)
  }

  // The page number the walk depends on: bits 12 to 47.
  function PageNumber(va: nat): nat { va / 0x1000 % 0x10_0000_0000 }

  lemma ShiftInSteps(va: nat)
    ensures va / 0x20_0000 == va / 0x1000 / 512
    ensures va / 0x4000_0000 == va / 0x1000 / 512 / 512
    ensures va / 0x80_0000_0000 == va / 0x1000 / 512 / 512 / 512
  {
  }

  lemma FourDigits(n: nat)
    ensures ((n / 512 / 512 / 512 % 512 * 512 + n / 512 / 512 % 512) * 512 + n / 512 % 512) * 512 + n % 512
         == n % 0x10_0000_0000
  {
    var q1, q2, q3 := n / 512, n / 512 / 512, n / 512 / 512 / 512;
    var r := ((q3 % 512 * 512 + q2 % 512) * 512 + q1 % 512) * 512 + n % 512;
    assert n == ((q3 * 512 + q2 % 512) * 512 + q1 % 512) * 512 + n % 512;
    assert n == q3 / 512 * 0x10_0000_0000 + r && r < 0x10_0000_0000;
  }

  // The indices are the digits of bits 12 to 47 to the base 512, that of the top table first.
  lemma PathIsPageNumber(va: nat)
    ensures var p := PathOf(va);
      && p.i4 < 512 && p.i3 < 512 && p.i2 < 512 && p.i1 < 512
      && ((p.i4 * 512 + p.i3) * 512 + p.i2) * 512 + p.i1 == va / 0x1000 % 0x10_0000_0000
  {
    ShiftInSteps(va);
    FourDigits(va / 0x1000);
  }

  lemma OneDigit(x: nat, d: nat, y: nat, e: nat)
    requires d < 512 && e < 512
    ensures x * 512 + d == y * 512 + e <==> x == y && d == e
  {
  }

  // Four digits to the base 512 determine the number and are determined by it.
  lemma SameDigits(a: Path, b: Path, a2: nat, b2: nat, a3: nat, b3: nat)
    requires a.Valid() && b.Valid() && a3 == a.i4 * 512 + a.i3 && b3 == b.i4 * 512 + b.i3
    requires a2 == a3 * 512 + a.i2 && b2 == b3 * 512 + b.i2
    ensures a == b <==> a2 * 512 + a.i1 == b2 * 512 + b.i1
  {
    OneDigit(a2, a.i1, b2, b.i1);
    OneDigit(a3, a.i2, b3, b.i2);
    OneDigit(a.i4, a.i3, b.i4, b.i3);
  }

  // Two addresses take the same walk exactly when they lie on the same page.
  lemma SamePath(va: nat, vb: nat)
    ensures PathOf(va) == PathOf(vb) <==> va / 0x1000 % 0x10_0000_0000 == vb / 0x1000 % 0x10_0000_0000
  {
    PathIsPageNumber(va);
    PathIsPageNumber(vb);
    var a, b := PathOf(va), PathOf(vb);
    var a3, b3 := a.i4 * 512 + a.i3, b.i4 * 512 + b.i3;
    SameDigits(a, b, a3 * 512 + a.i2, b3 * 512 + b.i2, a3, b3);
  }
}
