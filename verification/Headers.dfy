/** Words and struct heap_block headers as bytes of memory (kernel/mm.c). */
module Headers {
  import opened Machine
  import opened HeapModel

  // The bytes of the address space, by address.
  type Memory = seq<bv8>

  // ----- Words -----

  // Little-endian numbers.
  function Decode(b: seq<bv8>): nat {
    if b == [] then 0 else b[0] as nat + 256 * Decode(b[1..])
  }

  function Encode(v: nat, k: nat): (b: seq<bv8>)
    ensures |b| == k
  {
    if k == 0 then [] else [(v % 256) as bv8] + Encode(v / 256, k - 1)
  }

  function Pow256(k: nat): nat { if k == 0 then 1 else 256 * Pow256(k - 1) }

  lemma {:induction false} DecodeEncode(v: nat, k: nat)
    requires v < Pow256(k)
    ensures Decode(Encode(v, k)) == v
  {
    if k > 0 {
      ByteOf(v % 256);
      assert Encode(v, k)[0] == (v % 256) as bv8 && Encode(v, k)[1..] == Encode(v / 256, k - 1);
      DecodeEncode(v / 256, k - 1);
    }
  }

  lemma NextByte(b: bv8)
    requires b != 255
    ensures (b + 1) as nat == b as nat + 1
  {
  }

  lemma {:induction false} AnyByte(x: nat) returns (b: bv8)
    requires x < 256
    ensures b as nat == x
  {
    if x == 0 {
      b := 0;
    } else {
      var c := AnyByte(x - 1);
      NextByte(c);
      b := c + 1;
    }
  }

  lemma ByteOf(x: nat)
    requires x < 256
    ensures (x as bv8) as nat == x
  {
    var b := AnyByte(x);
    assert (b as nat) as bv8 == b;
  }

  lemma EightBytes()
    ensures Pow256(8) == WORD
  {
    assert Pow256(2) == 0x1_0000 && Pow256(4) == 0x1_0000 * Pow256(2) && Pow256(6) == 0x1_0000 * Pow256(4);
    assert Pow256(8) == 0x1_0000 * Pow256(6);
  }

  function Word(m: Memory, a: nat): nat
    requires a + 8 <= |m|
  {
    Decode(m[a..a + 8])
  }

  function Store(m: Memory, a: nat, bytes: seq<bv8>): (r: Memory)
    requires a + |bytes| <= |m|
    ensures |r| == |m|
  {
    m[..a] + bytes + m[a + |bytes|..]
  }

  lemma StoredWord(m: Memory, a: nat, v: nat)
    requires a + 8 <= |m| && v < WORD
    ensures Word(Store(m, a, Encode(v, 8)), a) == v
  {
    EightBytes();
    DecodeEncode(v, 8);
    assert Store(m, a, Encode(v, 8))[a..a + 8] == Encode(v, 8);
  }

  lemma WordKept(m: Memory, a: nat, bytes: seq<bv8>, c: nat)
    requires a + |bytes| <= |m| && c + 8 <= |m| && (c + 8 <= a || a + |bytes| <= c)
    ensures Word(Store(m, a, bytes), c) == Word(m, c)
  {
    assert Store(m, a, bytes)[c..c + 8] == m[c..c + 8];
  }

  // ----- Headers -----

  // struct heap_block: size at 0, used at 8, next at 16.
  function SizeAt(m: Memory, a: nat): nat
    requires a + HDR <= |m|
  {
    Word(m, a)
  }

  predicate UsedAt(m: Memory, a: nat)
    requires a + HDR <= |m|
  {
    m[a + 8] != 0
  }

  function NextAt(m: Memory, a: nat): nat
    requires a + HDR <= |m|
  {
    Word(m, a + 16)
  }

  function SetSize(m: Memory, a: nat, v: nat): Memory
    requires a + HDR <= |m|
  {
    Store(m, a, Encode(v, 8))
  }

  function SetUsed(m: Memory, a: nat, used: bool): Memory
    requires a + HDR <= |m|
  {
    Store(m, a + 8, [if used then 1 else 0])
  }

  function SetNext(m: Memory, a: nat, v: nat): Memory
    requires a + HDR <= |m|
  {
    Store(m, a + 16, Encode(v, 8))
  }

  ghost predicate HeaderIs(m: Memory, a: nat, size: nat, used: bool, next: nat) {
    a + HDR <= |m| && SizeAt(m, a) == size && UsedAt(m, a) == used && NextAt(m, a) == next
  }

  // m and m' differ in the header at a at most.
  ghost predicate OnlyHeader(m: Memory, m': Memory, a: nat) {
    |m'| == |m| && forall x :: 0 <= x < |m| && !(a <= x < a + HDR) ==> m'[x] == m[x]
  }

  // Two headers have no byte in common.
  predicate Apart(a: nat, b: nat) { a + HDR <= b || b + HDR <= a }

  lemma HeaderKept(m: Memory, m': Memory, a: nat, c: nat, size: nat, used: bool, next: nat)
    requires OnlyHeader(m, m', a) && Apart(a, c) && HeaderIs(m, c, size, used, next)
    ensures HeaderIs(m', c, size, used, next)
  {
    assert m'[c..c + 8] == m[c..c + 8];
    assert m'[c + 16..c + 16 + 8] == m[c + 16..c + 16 + 8];
  }

  lemma SetSizeIs(m: Memory, a: nat, v: nat)
    requires a + HDR <= |m| && v < WORD
    ensures OnlyHeader(m, SetSize(m, a, v), a) && HeaderIs(SetSize(m, a, v), a, v, UsedAt(m, a), NextAt(m, a))
  {
    StoredWord(m, a, v);
    WordKept(m, a, Encode(v, 8), a + 16);
  }

  lemma SetUsedIs(m: Memory, a: nat, used: bool)
    requires a + HDR <= |m|
    ensures OnlyHeader(m, SetUsed(m, a, used), a) && HeaderIs(SetUsed(m, a, used), a, SizeAt(m, a), used, NextAt(m, a))
  {
    WordKept(m, a + 8, [if used then 1 else 0], a);
    WordKept(m, a + 8, [if used then 1 else 0], a + 16);
  }

  lemma SetNextIs(m: Memory, a: nat, v: nat)
    requires a + HDR <= |m| && v < WORD
    ensures OnlyHeader(m, SetNext(m, a, v), a) && HeaderIs(SetNext(m, a, v), a, SizeAt(m, a), UsedAt(m, a), v)
  {
    StoredWord(m, a + 16, v);
    WordKept(m, a + 16, Encode(v, 8), a);
  }

  // m and m' differ in the headers at a and r at most.
  ghost predicate OnlyHeaders(m: Memory, m': Memory, a: nat, r: nat) {
    |m'| == |m| && forall x :: 0 <= x < |m| && !(a <= x < a + HDR) && !(r <= x < r + HDR) ==> m'[x] == m[x]
  }

  // Stores to either header add up.
  lemma BothHeaders(m: Memory, m1: Memory, m2: Memory, a: nat, r: nat, c: nat)
    requires OnlyHeaders(m, m1, a, r) && OnlyHeader(m1, m2, c) && (c == a || c == r)
    ensures OnlyHeaders(m, m2, a, r)
  {
  }

  lemma HeadersKept(m: Memory, m': Memory, a: nat, r: nat, c: nat, size: nat, used: bool, next: nat)
    requires OnlyHeaders(m, m', a, r) && Apart(a, c) && Apart(r, c) && HeaderIs(m, c, size, used, next)
    ensures HeaderIs(m', c, size, used, next)
  {
    assert m'[c..c + 8] == m[c..c + 8];
    assert m'[c + 16..c + 16 + 8] == m[c + 16..c + 16 + 8];
  }
}
