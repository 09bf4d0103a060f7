/** Bytes, half words and the conversions of core/common/common.hpp. */
module Bytes {
  type byte = bv8

  /** An unsigned 16-bit quantity that is counted with. */
  type half = n: nat | n < 0x1_0000

  // ---------- Bytes as numbers ----------

  function Value(b: byte): (n: nat)
    ensures n < 0x100
  {
    b as int
  }

  /** Narrowing to std::uint8_t. */
  function ToByte(n: nat): byte {
    (n % 0x100) as byte
  }

  lemma IntThroughByte(m: nat)
    requires m < 0x100
    ensures (m as byte) as int == m
  {
    if m < 8 {} else if m < 16 {} else if m < 32 {} else if m < 48 {} else if m < 64 {} else if m < 80 {}
    else if m < 96 {} else if m < 128 {} else if m < 160 {} else if m < 192 {} else if m < 224 {} else {}
  }

  lemma ValueOfToByte(n: nat)
    ensures Value(ToByte(n)) == n % 0x100
  {
    IntThroughByte(n % 0x100);
  }

  /** extract_half_word_be */
  function Be(hi: byte, lo: byte): half {
    Value(hi) * 0x100 + Value(lo)
  }

  /** insert_half_word_be */
  function BeBytes(h: half): (s: seq<byte>)
    ensures |s| == 2
  {
    [ToByte(h / 0x100), ToByte(h)]
  }

  lemma BeRoundTrip(h: half)
    ensures Be(BeBytes(h)[0], BeBytes(h)[1]) == h
  {
    hide Value, ToByte;
    ValueOfToByte(h / 0x100);
    ValueOfToByte(h);
  }

  // ---------- Half words as bit vectors ----------

  function Widen(b: byte): bv16 { b as bv16 }

  function LowByte(c: bv16): byte { (c & 0xFF) as byte }

  function HighByte(c: bv16): byte { (c >> 8) as byte }

  /** extract_half_word_le */
  function Le(lo: byte, hi: byte): bv16 {
    Widen(lo) | (Widen(hi) << 8)
  }

  lemma HalvesOfLe(lo: byte, hi: byte)
    ensures LowByte(Le(lo, hi)) == lo && HighByte(Le(lo, hi)) == hi
  {
  }

  lemma LeOfHalves(c: bv16)
    ensures Le(LowByte(c), HighByte(c)) == c
  {
  }

  lemma LeIsHalves(lo: byte, hi: byte, c: bv16)
    ensures Le(lo, hi) == c <==> lo == LowByte(c) && hi == HighByte(c)
  {
    hide Le, LowByte, HighByte;
    HalvesOfLe(lo, hi);
    LeOfHalves(c);
  }

  function Xor(a: bv16, b: bv16): bv16 { a ^ b }

  function XorByte(a: byte, b: byte): byte { a ^ b }

  lemma XorIsXor(a: bv16, b: bv16)
    ensures Xor(a, b) == a ^ b
  {
  }

  lemma XorShift(a: bv16, b: bv16)
    ensures (a ^ b) >> 1 == (a >> 1) ^ (b >> 1)
  {
  }

  lemma XorLowBit(a: bv16, b: bv16)
    ensures ((a ^ b) & 1 == 1) == ((a & 1 == 1) != (b & 1 == 1))
  {
  }

  lemma XorSwap(a: bv16, b: bv16, c: bv16)
    ensures (a ^ b) ^ c == (a ^ c) ^ b
    ensures (a ^ b) ^ c == a ^ (b ^ c)
    ensures (a ^ c) ^ (b ^ c) == a ^ b
  {
  }

  lemma NibblesJoin(b: byte)
    ensures Widen(b) == Xor(Widen((b >> 4) << 4), Widen(b & 0x0F))
  {
  }

  lemma XorAssociative(a: bv16, b: bv16, c: bv16)
    ensures Xor(Xor(a, b), c) == Xor(a, Xor(b, c))
  {
  }

  lemma HalvesOf(c: bv16)
    ensures c == Xor(Widen(HighByte(c)) << 8, Widen(LowByte(c)))
  {
  }

  lemma WidenXor(a: byte, b: byte)
    ensures Widen(XorByte(a, b)) == Xor(Widen(b), Widen(a))
  {
  }

  lemma HalvesJoin(c: bv16, b: byte)
    ensures Xor(c, Widen(b)) == Xor(Widen(HighByte(c)) << 8, Widen(XorByte(b, LowByte(c))))
  {
    hide Xor, XorByte, Widen, LowByte, HighByte;
    HalvesOf(c);
    WidenXor(b, LowByte(c));
    XorAssociative(Widen(HighByte(c)) << 8, Widen(LowByte(c)), Widen(b));
  }

  // ---------- Memory ----------

  function Overwrite(bytes: seq<byte>, start: nat, data: seq<byte>): (r: seq<byte>)
    requires start + |data| <= |bytes|
    ensures |r| == |bytes| && r[..start] == bytes[..start] && r[start..start + |data|] == data
  {
    bytes[..start] + data + bytes[start + |data|..]
  }

  lemma OverwriteTwice(bytes: seq<byte>, start: nat, a: seq<byte>, b: seq<byte>)
    requires start + |a| + |b| <= |bytes|
    ensures Overwrite(Overwrite(bytes, start, a), start + |a|, b) == Overwrite(bytes, start, a + b)
  {
  }

  /** Record i of a memory of records. */
  function Slice(bytes: seq<byte>, size: nat, i: nat): (r: seq<byte>)
    requires i * size + size <= |bytes|
    ensures |r| == size
  {
    bytes[i * size..i * size + size]
  }

  method Memcpy(to: array<byte>, at: nat, from: array<byte>, start: nat, length: nat)
    requires to != from && at + length <= to.Length && start + length <= from.Length
    modifies to
    ensures to[..] == Overwrite(old(to[..]), at, from[start..start + length])
  {
    forall k | 0 <= k < length {
      to[at + k] := from[start + k];
    }
  }

  method Put(to: array<byte>, at: nat, data: seq<byte>)
    requires at + |data| <= to.Length
    modifies to
    ensures to[..] == Overwrite(old(to[..]), at, data)
  {
    forall k | 0 <= k < |data| {
      to[at + k] := data[k];
    }
  }
}
