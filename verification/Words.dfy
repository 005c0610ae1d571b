/** Eight bytes as one little-endian 64-bit word, and the zero-byte test of libc/src/string/strlen.c. */
module Words {
  // *(const unsigned long long *)p
  function Pack(b: seq<bv8>): bv64
    requires |b| == 8
  {
    (b[0] as bv64) | ((b[1] as bv64) << 8) | ((b[2] as bv64) << 16) | ((b[3] as bv64) << 24)
    | ((b[4] as bv64) << 32) | ((b[5] as bv64) << 40) | ((b[6] as bv64) << 48) | ((b[7] as bv64) << 56)
  }

  // The bytes a store of w leaves behind.
  function Unpack(w: bv64): (b: seq<bv8>)
    ensures |b| == 8
  {
    [(w & 0xFF) as bv8, ((w >> 8) & 0xFF) as bv8, ((w >> 16) & 0xFF) as bv8, ((w >> 24) & 0xFF) as bv8,
     ((w >> 32) & 0xFF) as bv8, ((w >> 40) & 0xFF) as bv8, ((w >> 48) & 0xFF) as bv8, ((w >> 56) & 0xFF) as bv8]
  }

  lemma UnpackPack(b: seq<bv8>)
    requires |b| == 8
    ensures Unpack(Pack(b)) == b
  {
  }

  function HasZero(w: bv64): bool {
    (w - 0x0101_0101_0101_0101) & !w & 0x8080_8080_8080_8080 != 0
  }

  lemma PackInjective(b: seq<bv8>, c: seq<bv8>)
    requires |b| == 8 && |c| == 8 && Pack(b) == Pack(c)
    ensures b == c
  {
  }

  // Masking byte k out of the word looks at byte k of memory.
  lemma PackedBytes(b: seq<bv8>)
    requires |b| == 8
    ensures var w := Pack(b);
      && (w & 0xFF == 0 <==> b[0] == 0) && (w & 0xFF00 == 0 <==> b[1] == 0)
      && (w & 0xFF_0000 == 0 <==> b[2] == 0) && (w & 0xFF00_0000 == 0 <==> b[3] == 0)
      && (w & 0xFF_0000_0000 == 0 <==> b[4] == 0) && (w & 0xFF00_0000_0000 == 0 <==> b[5] == 0)
      && (w & 0xFF_0000_0000_0000 == 0 <==> b[6] == 0) && (w & 0xFF00_0000_0000_0000 == 0 <==> b[7] == 0)
  {
  }

  // The subtract-and-mask test fires exactly when some byte of the word is zero.
  lemma HasZeroBits(w: bv64)
    ensures HasZero(w) <==>
      w & 0xFF == 0 || w & 0xFF00 == 0 || w & 0xFF_0000 == 0 || w & 0xFF00_0000 == 0
      || w & 0xFF_0000_0000 == 0 || w & 0xFF00_0000_0000 == 0 || w & 0xFF_0000_0000_0000 == 0
      || w & 0xFF00_0000_0000_0000 == 0
  {
  }

  // Eight copies of one byte, the way memset builds them.
  function Repeat(v: bv8): bv64 {
    ((v as bv64) << 56) | ((v as bv64) << 48) | ((v as bv64) << 40) | ((v as bv64) << 32)
    | ((v as bv64) << 24) | ((v as bv64) << 16) | ((v as bv64) << 8) | (v as bv64)
  }

  lemma UnpackRepeat(v: bv8)
    ensures Unpack(Repeat(v)) == [v, v, v, v, v, v, v, v]
  {
  }

  // The word at offset p; its masks look at the bytes of memory one by one.
  method Load(mem: seq<bv8>, p: nat) returns (w: bv64)
    requires p + 8 <= |mem|
    ensures w == Pack(mem[p..p + 8])
    ensures (w & 0xFF == 0 <==> mem[p] == 0) && (w & 0xFF00 == 0 <==> mem[p + 1] == 0)
    ensures (w & 0xFF_0000 == 0 <==> mem[p + 2] == 0) && (w & 0xFF00_0000 == 0 <==> mem[p + 3] == 0)
    ensures (w & 0xFF_0000_0000 == 0 <==> mem[p + 4] == 0) && (w & 0xFF00_0000_0000 == 0 <==> mem[p + 5] == 0)
    ensures w & 0xFF_0000_0000_0000 == 0 <==> mem[p + 6] == 0
    ensures w & 0xFF00_0000_0000_0000 == 0 <==> mem[p + 7] == 0
  {
    PackedBytes(mem[p..p + 8]);
    w := Pack(mem[p..p + 8]);
  }

  // strlen on the memory mem, whose first byte has the address addr.
  method Strlen(mem: seq<bv8>, addr: nat) returns (n: nat)
    requires exists z :: 0 <= z && z + 8 <= |mem| && mem[z] == 0
    ensures n < |mem| && mem[n] == 0 && forall j :: 0 <= j < n ==> mem[j] != 0
  {
    var p := 0;
    while (addr + p) % 8 != 0 && mem[p] != 0
      invariant p + 8 <= |mem| && forall j :: 0 <= j < p ==> mem[j] != 0
      decreases |mem| - p
    {
      p := p + 1;
    }
    while true
      invariant p + 8 <= |mem| && forall j :: 0 <= j < p ==> mem[j] != 0
      decreases |mem| - p
    {
      var word := Load(mem, p);
      HasZeroBits(word);
      if HasZero(word) {
        if word & 0xFF == 0 { return p; }
        if word & 0xFF00 == 0 { return p + 1; }
        if word & 0xFF_0000 == 0 { return p + 2; }
        if word & 0xFF00_0000 == 0 { return p + 3; }
        if word & 0xFF_0000_0000 == 0 { return p + 4; }
        if word & 0xFF00_0000_0000 == 0 { return p + 5; }
        if word & 0xFF_0000_0000_0000 == 0 { return p + 6; }
        if word & 0xFF00_0000_0000_0000 == 0 { return p + 7; }
      }
      p := p + 8;
    }
  }
}
