/** libc/src/string/memcpy.c: copying, filling and comparing a word at a time refine the byte-wise meaning. */
module ByteMemory {
  import opened Words

  // after is before with the n bytes from s copied to d, and nothing else changed.
  ghost predicate Copied(before: seq<bv8>, after: seq<bv8>, d: nat, s: nat, n: nat) {
    && |after| == |before| && d + n <= |before| && s + n <= |before|
    && (forall j :: d <= j < d + n ==> after[j] == before[s + (j - d)])
    && (forall j :: 0 <= j < d || d + n <= j < |after| ==> after[j] == before[j])
  }

  // Copying forwards never overwrites a byte it has yet to read.
  ghost predicate ForwardSafe(d: nat, s: nat, n: nat) { d <= s || s + n <= d }

  lemma CopiedByte(before: seq<bv8>, after: seq<bv8>, d: nat, s: nat, k: nat, n: nat)
    requires Copied(before, after, d, s, k) && ForwardSafe(d, s, n) && k < n
    requires d + n <= |before| && s + n <= |before|
    ensures Copied(before, after[d + k := after[s + k]], d, s, k + 1)
  {
  }

  ghost function Stored(bytes: seq<bv8>, p: nat, w: seq<bv8>): seq<bv8>
    requires p + |w| <= |bytes|
  {
    bytes[..p] + w + bytes[p + |w|..]
  }

  lemma CopiedWord(before: seq<bv8>, after: seq<bv8>, d: nat, s: nat, k: nat, n: nat, p: nat, q: nat)
    requires Copied(before, after, d, s, k) && ForwardSafe(d, s, n) && k + 8 <= n && p == d + k && q == s + k
    requires d + n <= |before| && s + n <= |before|
    ensures Copied(before, Stored(after, p, after[q..q + 8]), d, s, k + 8)
  {
  }

  // *(unsigned long long *)p = w
  method Store(mem: array<bv8>, p: nat, w: bv64)
    requires p + 8 <= mem.Length
    modifies mem
    ensures mem[..] == Stored(old(mem[..]), p, Unpack(w))
  {
    StoreBytes(mem, p, Unpack(w));
  }

  method StoreBytes(mem: array<bv8>, p: nat, b: seq<bv8>)
    requires |b| == 8 && p + 8 <= mem.Length
    modifies mem
    ensures mem[..] == Stored(old(mem[..]), p, b)
  {
    forall k | 0 <= k < 8 {
      mem[p + k] := b[k];
    }
  }

  // Load eight bytes, then store them.
  method MoveWord(mem: array<bv8>, d: nat, s: nat)
    requires d + 8 <= mem.Length && s + 8 <= mem.Length
    modifies mem
    ensures mem[..] == Stored(old(mem[..]), d, old(mem[..])[s..s + 8])
  {
    UnpackPack(mem[s..s + 8]);
    Store(mem, d, Pack(mem[s..s + 8]));
  }

  method CopyWord(mem: array<bv8>, d: nat, s: nat, k: nat, n: nat, ghost before: seq<bv8>)
    requires Copied(before, mem[..], d, s, k) && ForwardSafe(d, s, n) && k + 8 <= n
    requires d + n <= mem.Length && s + n <= mem.Length
    modifies mem
    ensures Copied(before, mem[..], d, s, k + 8)
  {
    var p, q := d + k, s + k;
    CopiedWord(before, mem[..], d, s, k, n, p, q);
    MoveWord(mem, p, q);
  }

  // memcpy inside the memory mem, whose first byte has the address addr.
  method Memcpy(mem: array<bv8>, addr: nat, d: nat, s: nat, n: nat)
    requires d + n <= mem.Length && s + n <= mem.Length && ForwardSafe(d, s, n)
    modifies mem
    ensures Copied(old(mem[..]), mem[..], d, s, n)
  {
    ghost var before := mem[..];
    var k := 0;
    if n < 8 {
      CopyBytes(mem, d, s, k, n, before);
      return;
    }
    while (addr + d + k) % 8 != 0 && k < n
      invariant 0 <= k <= n && Copied(before, mem[..], d, s, k)
      decreases n - k
    {
      CopyByte(mem, d, s, k, n, before);
      k := k + 1;
    }
    while n - k >= 8
      invariant 0 <= k <= n && Copied(before, mem[..], d, s, k)
    {
      CopyWord(mem, d, s, k, n, before);
      k := k + 8;
    }
    CopyBytes(mem, d, s, k, n, before);
  }

  // *d++ = *s++
  method CopyByte(mem: array<bv8>, d: nat, s: nat, k: nat, n: nat, ghost before: seq<bv8>)
    requires Copied(before, mem[..], d, s, k) && ForwardSafe(d, s, n) && k < n
    requires d + n <= mem.Length && s + n <= mem.Length
    modifies mem
    ensures Copied(before, mem[..], d, s, k + 1)
  {
    CopiedByte(before, mem[..], d, s, k, n);
    ghost var middle := mem[..];
    mem[d + k] := mem[s + k];
    assert mem[..] == middle[d + k := middle[s + k]];
  }

  // The byte loops of memcpy: the short copy and the remainder.
  method CopyBytes(mem: array<bv8>, d: nat, s: nat, from: nat, n: nat, ghost before: seq<bv8>)
    requires Copied(before, mem[..], d, s, from) && ForwardSafe(d, s, n) && from <= n
    requires d + n <= mem.Length && s + n <= mem.Length
    modifies mem
    ensures Copied(before, mem[..], d, s, n)
  {
    var k := from;
    while k < n
      invariant from <= k <= n && Copied(before, mem[..], d, s, k)
    {
      CopyByte(mem, d, s, k, n, before);
      k := k + 1;
    }
  }

  // memmove: right for every pair of offsets.
  method Memmove(mem: array<bv8>, addr: nat, d: nat, s: nat, n: nat)
    requires d + n <= mem.Length && s + n <= mem.Length
    modifies mem
    ensures Copied(old(mem[..]), mem[..], d, s, n)
  {
    if d <= s || d >= s + n {
      Memcpy(mem, addr, d, s, n);
      return;
    }
    ghost var before := mem[..];
    var m := n;
    while m > 0
      invariant 0 <= m <= n && CopiedFrom(before, mem[..], d, s, m, n)
    {
      m := m - 1;
      CopiedBackwards(before, mem[..], d, s, m, n);
      ghost var middle := mem[..];
      mem[d + m] := mem[s + m];
      assert mem[..] == middle[d + m := middle[s + m]];
    }
  }

  // Bytes m .. n-1 have been copied, from the top.
  ghost predicate CopiedFrom(before: seq<bv8>, after: seq<bv8>, d: nat, s: nat, m: nat, n: nat) {
    && |after| == |before| && m <= n && d + n <= |before| && s + n <= |before|
    && (forall j :: d + m <= j < d + n ==> after[j] == before[s + (j - d)])
    && (forall j :: 0 <= j < d + m || d + n <= j < |after| ==> after[j] == before[j])
  }

  lemma CopiedBackwards(before: seq<bv8>, after: seq<bv8>, d: nat, s: nat, m: nat, n: nat)
    requires m < n && CopiedFrom(before, after, d, s, m + 1, n) && s < d
    ensures CopiedFrom(before, after[d + m := after[s + m]], d, s, m, n)
  {
  }

  // ----- memset -----

  method StoreRepeated(mem: array<bv8>, p: nat, w: bv64, ghost v: bv8)
    requires p + 8 <= mem.Length && w == Repeat(v)
    modifies mem
    ensures forall j :: p <= j < p + 8 ==> mem[j] == v
    ensures forall j :: 0 <= j < p || p + 8 <= j < mem.Length ==> mem[j] == old(mem[j])
  {
    UnpackRepeat(v);
    Store(mem, p, w);
  }

  method Memset(mem: array<bv8>, addr: nat, p: nat, v: bv8, n: nat)
    requires p + n <= mem.Length
    modifies mem
    ensures forall j :: p <= j < p + n ==> mem[j] == v
    ensures forall j :: 0 <= j < p || p + n <= j < mem.Length ==> mem[j] == old(mem[j])
  {
    var k := 0;
    while (addr + p + k) % 8 != 0 && k < n
      invariant 0 <= k <= n
      invariant forall j :: p <= j < p + k ==> mem[j] == v
      invariant forall j :: 0 <= j < p || p + k <= j < mem.Length ==> mem[j] == old(mem[j])
      decreases n - k
    {
      mem[p + k] := v;
      k := k + 1;
    }
    var w := Repeat(v);
    while n - k >= 8
      invariant 0 <= k <= n
      invariant forall j :: p <= j < p + k ==> mem[j] == v
      invariant forall j :: 0 <= j < p || p + k <= j < mem.Length ==> mem[j] == old(mem[j])
    {
      StoreRepeated(mem, p + k, w, v);
      k := k + 8;
    }
    while k < n
      invariant 0 <= k <= n
      invariant forall j :: p <= j < p + k ==> mem[j] == v
      invariant forall j :: 0 <= j < p || p + k <= j < mem.Length ==> mem[j] == old(mem[j])
    {
      mem[p + k] := v;
      k := k + 1;
    }
  }

  // ----- memcmp -----

  // The first position where the two stretches differ; their length when they do not.
  function FirstDiff(a: seq<bv8>, b: seq<bv8>): (k: nat)
    requires |a| == |b|
    ensures k <= |a| && (k < |a| ==> a[k] != b[k])
    ensures forall j :: 0 <= j < k ==> a[j] == b[j]
  {
    if a == [] || a[0] != b[0] then 0 else 1 + FirstDiff(a[1..], b[1..])
  }

  lemma FirstDiffAt(a: seq<bv8>, b: seq<bv8>, k: nat)
    requires |a| == |b| && k < |a| && a[k] != b[k] && (forall j :: 0 <= j < k ==> a[j] == b[j])
    ensures FirstDiff(a, b) == k
  {
  }

  lemma SameWord(a: seq<bv8>, b: seq<bv8>, p: nat)
    requires p + 8 <= |a| && p + 8 <= |b| && a[p..p + 8] == b[p..p + 8]
    ensures forall j :: p <= j < p + 8 ==> a[j] == b[j]
  {
  }

  // The sign and size of the result come from the first differing byte, taken as unsigned.
  method Memcmp(a: seq<bv8>, b: seq<bv8>) returns (r: int)
    requires |a| == |b|
    ensures var k := FirstDiff(a, b); r == if k == |a| then 0 else a[k] as int - b[k] as int
  {
    var p, n := 0, |a|;
    while n - p >= 8
      invariant 0 <= p <= n
      invariant forall j :: 0 <= j < p ==> a[j] == b[j]
    {
      if Pack(a[p..p + 8]) != Pack(b[p..p + 8]) {
        var i := 0;
        while i < 8
          invariant 0 <= i <= 8
          invariant forall j :: 0 <= j < p + i ==> a[j] == b[j]
        {
          if a[p + i] != b[p + i] {
            FirstDiffAt(a, b, p + i);
            return a[p + i] as int - b[p + i] as int;
          }
          i := i + 1;
        }
      } else {
        PackInjective(a[p..p + 8], b[p..p + 8]);
        SameWord(a, b, p);
      }
      p := p + 8;
    }
    while p < n
      invariant 0 <= p <= n
      invariant forall j :: 0 <= j < p ==> a[j] == b[j]
    {
      if a[p] != b[p] {
        FirstDiffAt(a, b, p);
        return a[p] as int - b[p] as int;
      }
      p := p + 1;
    }
    return 0;
  }
}
