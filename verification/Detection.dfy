/** What the CRC detects: the register as a linear map of the message bits. */
module Detection {
  import opened Bytes
  import opened Crc

  // ---------- Messages as bits, least significant first ----------

  function ShiftDown(b: byte, k: nat): byte
    decreases k
  {
    if k == 0 then b else ShiftDown(b, k - 1) >> 1
  }

  predicate BitAt(b: byte, k: nat) {
    ShiftDown(b, k) & 1 == 1
  }

  function ByteBits(b: byte): seq<bool> {
    seq(8, k requires 0 <= k < 8 => BitAt(b, k))
  }

  function BitsOf(s: seq<byte>): seq<bool> {
    seq(8 * |s|, j requires 0 <= j < 8 * |s| => BitAt(s[j / 8], j % 8))
  }

  function ByteOf(w: seq<bool>): byte
    requires |w| == 8
  {
    (if w[0] then 1 else 0) | (if w[1] then 2 else 0) | (if w[2] then 4 else 0) | (if w[3] then 8 else 0) |
    (if w[4] then 16 else 0) | (if w[5] then 32 else 0) | (if w[6] then 64 else 0) | (if w[7] then 128 else 0)
  }

  lemma ByteOfBits(w: seq<bool>)
    requires |w| == 8
    ensures ByteBits(ByteOf(w)) == w
  {
  }

  lemma BitsOfAppend(s: seq<byte>, b: byte)
    ensures BitsOf(s + [b]) == BitsOf(s) + ByteBits(b)
  {
  }

  // ---------- The CRC one bit at a time ----------

  function Bit(b: bool): bv16 {
    if b then 1 else 0
  }

  function Feed(c: bv16, bits: seq<bool>): bv16 {
    if |bits| == 0 then c else ShiftBit(Xor(Feed(c, bits[..|bits| - 1]), Bit(bits[|bits| - 1])))
  }

  lemma {:induction false} FeedAppend(c: bv16, a: seq<bool>, b: seq<bool>)
    ensures Feed(c, a + b) == Feed(Feed(c, a), b)
    decreases |b|
  {
    hide ShiftBit, Xor;
    if |b| == 0 {
      assert a + b == a;
    } else {
      var b' := b[..|b| - 1];
      assert (a + b)[..|a + b| - 1] == a + b';
      FeedAppend(c, a, b');
    }
  }

  lemma EvenByteShifts(b: byte)
    ensures Widen(b) == Xor(Bit(b & 1 == 1), Widen(b & 0xFE))
    ensures ShiftBit(Widen(b & 0xFE)) == Widen(b >> 1)
  {
  }

  /** Shifting the register with the whole byte in it is the same as feeding the lowest bit
      and keeping the rest of the byte. */
  lemma FeedLowest(x: bv16, b: byte)
    ensures ShiftBit(Xor(x, Widen(b))) == Xor(ShiftBit(Xor(x, Bit(b & 1 == 1))), Widen(b >> 1))
  {
    hide ShiftBit, Xor, Widen, Bit;
    EvenByteShifts(b);
    XorAssociative(x, Bit(b & 1 == 1), Widen(b & 0xFE));
    ShiftBitLinear(Xor(x, Bit(b & 1 == 1)), Widen(b & 0xFE));
  }

  lemma {:induction false} FeedSomeBits(x: bv16, b: byte, k: nat)
    requires k <= 8
    ensures Shifts(Xor(x, Widen(b)), k) == Xor(Feed(x, ByteBits(b)[..k]), Widen(ShiftDown(b, k)))
    decreases k
  {
    hide ShiftBit, Xor, Widen, Bit;
    if k == 0 {
      assert ByteBits(b)[..0] == [];
    } else {
      FeedSomeBits(x, b, k - 1);
      var bits := ByteBits(b)[..k];
      assert bits[..k - 1] == ByteBits(b)[..k - 1];
      FeedLowest(Feed(x, bits[..k - 1]), ShiftDown(b, k - 1));
    }
  }

  lemma FeedByte(x: bv16, b: byte)
    ensures Feed(x, ByteBits(b)) == AddByte(x, b)
  {
    var y := Feed(x, ByteBits(b));
    assert ShiftDown(b, 8) == 0;
    assert Xor(y, Widen(0)) == y;
    hide ShiftBit, Xor, Widen, Bit;
    FeedSomeBits(x, b, 8);
    assert ByteBits(b)[..8] == ByteBits(b);
  }

  /** The byte-wise CRC is the bit-serial register fed with the message bits. */
  lemma {:induction false} CrcIsFeed(c: bv16, s: seq<byte>)
    ensures CrcFrom(c, s) == Feed(c, BitsOf(s))
  {
    hide AddByte, ShiftBit, Xor;
    if |s| == 0 {
      assert BitsOf(s) == [];
    } else {
      var s', b := s[..|s| - 1], s[|s| - 1];
      assert s == s' + [b];
      BitsOfAppend(s', b);
      CrcIsFeed(c, s');
      FeedAppend(c, BitsOf(s'), ByteBits(b));
      FeedByte(CrcFrom(c, s'), b);
    }
  }

  // ---------- Linearity over whole messages ----------

  function XorBytes(m: seq<byte>, e: seq<byte>): seq<byte>
    requires |m| == |e|
  {
    seq(|m|, i requires 0 <= i < |m| => XorByte(m[i], e[i]))
  }

  lemma XorRegroups(c: bv16, d: bv16, a: byte, b: byte)
    ensures Xor(Xor(c, d), Widen(XorByte(a, b))) == Xor(Xor(c, Widen(a)), Xor(d, Widen(b)))
  {
  }

  lemma {:induction false} CrcLinear(c: bv16, d: bv16, m: seq<byte>, e: seq<byte>)
    requires |m| == |e|
    ensures CrcFrom(Xor(c, d), XorBytes(m, e)) == Xor(CrcFrom(c, m), CrcFrom(d, e))
    decreases |m|
  {
    hide Xor, XorByte, Widen, ShiftBit;
    if |m| > 0 {
      var n := |m| - 1;
      CrcLinear(c, d, m[..n], e[..n]);
      assert XorBytes(m, e)[..n] == XorBytes(m[..n], e[..n]);
      var x, y := CrcFrom(c, m[..n]), CrcFrom(d, e[..n]);
      XorRegroups(x, y, m[n], e[n]);
      ShiftsLinear(Xor(x, Widen(m[n])), Xor(y, Widen(e[n])), 8);
    }
  }

  lemma XorClears(x: bv16, y: bv16)
    ensures Xor(x, y) == 0 <==> x == y
  {
  }

  lemma XorLeavesHighHalf(c: bv16, lo: byte, hi: byte)
    ensures Xor(c, Widen(lo)) == Widen(hi) << 8 <==> lo == LowByte(c) && hi == HighByte(c)
  {
  }

  /** Two bytes bring the register to zero exactly when they are its low and high half, in this order. */
  lemma TwoBytesClear(c: bv16, lo: byte, hi: byte)
    ensures AddByte(AddByte(c, lo), hi) == 0 <==> lo == LowByte(c) && hi == HighByte(c)
  {
    hide ShiftBit, Xor, Widen, LowByte, HighByte;
    XorClears(AddByte(c, lo), Widen(hi));
    XorLeavesHighHalf(c, lo, hi);
    ShiftsOfZero(8);
    HighByteSlides(hi);
    if AddByte(AddByte(c, lo), hi) == 0 {
      ShiftsInjective(Xor(AddByte(c, lo), Widen(hi)), 0, 8);
      ShiftsInjective(Xor(c, Widen(lo)), Widen(hi) << 8, 8);
    }
  }

  // ---------- Bursts ----------

  ghost predicate SetBitsWithin(bits: seq<bool>, start: nat, width: nat) {
    forall j :: 0 <= j < |bits| && bits[j] ==> start <= j < start + width
  }

  /** A nonzero error pattern confined to sixteen consecutive bits. */
  ghost predicate Burst(e: seq<byte>) {
    && true in BitsOf(e)
    && exists start: nat :: SetBitsWithin(BitsOf(e), start, 16)
  }

  lemma {:induction false} FeedNoOnes(c: bv16, bits: seq<bool>)
    requires true !in bits
    ensures Feed(c, bits) == Shifts(c, |bits|)
    decreases |bits|
  {
    if |bits| > 0 {
      var x := Feed(c, bits[..|bits| - 1]);
      assert Xor(x, 0) == x;
      hide ShiftBit, Xor;
      FeedNoOnes(c, bits[..|bits| - 1]);
    }
  }

  lemma {:induction false} ShiftDownZero(k: nat)
    ensures ShiftDown(0, k) == 0
  {
    if k > 0 { ShiftDownZero(k - 1); }
  }

  lemma NoHalves()
    ensures LowByte(0) == 0 && HighByte(0) == 0
  {
  }

  lemma ZeroByte()
    ensures true !in ByteBits(0)
  {
    hide ShiftDown;
    forall k | 0 <= k < 8 ensures !BitAt(0, k) { ShiftDownZero(k); }
  }

  lemma WindowSurvives(w: seq<bool>)
    requires |w| == 16 && true in w
    ensures Feed(0, w) != 0
  {
    hide ShiftBit, Xor, AddByte, Feed, ByteBits, ByteOf, LowByte, HighByte;
    var a, b := ByteOf(w[..8]), ByteOf(w[8..]);
    ByteOfBits(w[..8]);
    ByteOfBits(w[8..]);
    assert w == ByteBits(a) + ByteBits(b);
    FeedAppend(0, ByteBits(a), ByteBits(b));
    FeedByte(0, a);
    FeedByte(AddByte(0, a), b);
    TwoBytesClear(0, a, b);
    NoHalves();
    ZeroByte();
  }

  /** A window of sixteen bits with a one in it is not undone by the zeros around it. */
  lemma WindowAmongZeros(before: seq<bool>, w: seq<bool>, after: seq<bool>)
    requires true !in before && true !in after && |w| == 16 && true in w
    ensures Feed(0, before + w + after) != 0
  {
    hide ShiftBit, Xor;
    FeedAppend(0, before, w);
    FeedAppend(0, before + w, after);
    FeedNoOnes(0, before);
    ShiftsOfZero(|before|);
    WindowSurvives(w);
    FeedNoOnes(Feed(0, w), after);
    ShiftsOfZero(|after|);
    if Feed(0, before + w + after) == 0 {
      ShiftsInjective(Feed(0, w), 0, |after|);
    }
  }

  lemma BurstSurvives(e: seq<byte>)
    requires Burst(e)
    ensures CrcFrom(0, e) != 0
  {
    hide ShiftBit, Xor, AddByte, ShiftDown, BitsOf;
    var bits, pad := BitsOf(e), seq(16, _ => false);
    var start: nat :| SetBitsWithin(bits, start, 16);
    var j :| 0 <= j < |bits| && bits[j];
    var padded := bits + pad;
    var before, w, after := padded[..start], padded[start..start + 16], padded[start + 16..];
    assert w[j - start];
    assert padded[..start + 16] == before + w;
    assert padded == before + w + after;
    WindowAmongZeros(before, w, after);
    CrcIsFeed(0, e);
    FeedAppend(0, bits, pad);
    FeedNoOnes(CrcFrom(0, e), pad);
    ShiftsOfZero(16);
  }

  // ---------- Parity ----------

  /** Whether the register holds an odd number of ones. */
  predicate OddRegister(c: bv16)
    decreases c
  {
    c != 0 && ((c & 1 == 1) != OddRegister(c >> 1))
  }

  function Ones(bits: seq<bool>): nat {
    if |bits| == 0 then 0 else Ones(bits[..|bits| - 1]) + if bits[|bits| - 1] then 1 else 0
  }

  lemma OddUnfolds(c: bv16)
    ensures OddRegister(c) == ((c & 1 == 1) != OddRegister(c >> 1))
  {
  }

  lemma XorHalves(a: bv16, b: bv16)
    ensures Xor(a, b) >> 1 == Xor(a >> 1, b >> 1)
  {
    hide *;
    XorIsXor(a, b);
    XorIsXor(a >> 1, b >> 1);
    XorShift(a, b);
  }

  lemma XorLowest(a: bv16, b: bv16)
    ensures (Xor(a, b) & 1 == 1) == ((a & 1 == 1) != (b & 1 == 1))
  {
    XorLowBit(a, b);
  }

  lemma XorWithZero(b: bv16)
    ensures Xor(0, b) == b
  {
  }

  lemma HalvingDecreases(a: bv16)
    requires a != 0
    ensures a >> 1 < a
  {
  }

  lemma ShiftBitAsXor(c: bv16)
    ensures ShiftBit(c) == if c & 1 == 1 then Xor(c >> 1, 0xA001) else c >> 1
  {
  }

  lemma OddConstants()
    ensures !OddRegister(0) && OddRegister(1) && OddRegister(0xA001) && !OddRegister(0xFFFF)
  {
    assert OddRegister(0x0001) && OddRegister(0x0002) && !OddRegister(0x0005) && !OddRegister(0x000A);
    assert !OddRegister(0x0014) && !OddRegister(0x0028) && !OddRegister(0x0050) && !OddRegister(0x00A0);
    assert !OddRegister(0x0140) && !OddRegister(0x0280) && !OddRegister(0x0500) && !OddRegister(0x0A00);
    assert !OddRegister(0x1400) && !OddRegister(0x2800) && !OddRegister(0x5000) && OddRegister(0xA001);
    assert OddRegister(0x0001) && !OddRegister(0x0003) && OddRegister(0x0007) && !OddRegister(0x000F);
    assert OddRegister(0x001F) && !OddRegister(0x003F) && OddRegister(0x007F) && !OddRegister(0x00FF);
    assert OddRegister(0x01FF) && !OddRegister(0x03FF) && OddRegister(0x07FF) && !OddRegister(0x0FFF);
    assert OddRegister(0x1FFF) && !OddRegister(0x3FFF) && OddRegister(0x7FFF) && !OddRegister(0xFFFF);
  }

  lemma {:induction false} OddXor(a: bv16, b: bv16)
    ensures OddRegister(Xor(a, b)) == (OddRegister(a) != OddRegister(b))
    decreases a
  {
    hide OddRegister, Xor;
    XorHalves(a, b);
    XorLowest(a, b);
    XorWithZero(b);
    if a == 0 {
      OddConstants();
    } else {
      OddUnfolds(a);
      OddUnfolds(b);
      OddUnfolds(Xor(a, b));
      HalvingDecreases(a);
      OddXor(a >> 1, b >> 1);
    }
  }

  lemma OddShift(c: bv16)
    ensures OddRegister(ShiftBit(c)) == OddRegister(c)
  {
    hide OddRegister, Xor, ShiftBit;
    OddUnfolds(c);
    OddConstants();
    ShiftBitAsXor(c);
    if c & 1 == 1 {
      OddXor(c >> 1, 0xA001);
    }
  }

  lemma OddBit(c: bv16, b: bool)
    ensures OddRegister(Xor(c, Bit(b))) == (OddRegister(c) != b)
  {
    hide OddRegister, Xor;
    OddXor(c, Bit(b));
    OddConstants();
  }

  lemma {:induction false} FeedParity(c: bv16, bits: seq<bool>)
    ensures OddRegister(Feed(c, bits)) == (OddRegister(c) != (Ones(bits) % 2 == 1))
    decreases |bits|
  {
    hide ShiftBit, Xor, Bit, OddRegister;
    if |bits| > 0 {
      var x, b := Feed(c, bits[..|bits| - 1]), bits[|bits| - 1];
      FeedParity(c, bits[..|bits| - 1]);
      OddBit(x, b);
      OddShift(Xor(x, Bit(b)));
    }
  }

  /** The checksum of a message has the parity of the message. */
  lemma CrcParity(s: seq<byte>)
    ensures OddRegister(Checksum(s)) <==> Ones(BitsOf(s)) % 2 == 1
  {
    CrcIsFeed(0xFFFF, s);
    OddConstants();
    FeedParity(0xFFFF, BitsOf(s));
  }

  // ---------- The seed ----------

  function Zeros(n: nat): (s: seq<byte>)
    ensures |s| == n
  {
    seq(n, _ => 0)
  }

  lemma ZeroBits(n: nat)
    ensures true !in BitsOf(Zeros(n))
  {
    hide ShiftDown;
    forall k | 0 <= k < 8 ensures !BitAt(0, k) { ShiftDownZero(k); }
  }

  /** Zero bytes shift the register and do nothing else. */
  lemma CrcOfZeros(c: bv16, n: nat)
    ensures CrcFrom(c, Zeros(n)) == Shifts(c, 8 * n)
  {
    hide AddByte, ShiftBit, Xor, Shifts, Feed, CrcFrom;
    CrcIsFeed(c, Zeros(n));
    ZeroBits(n);
    FeedNoOnes(c, BitsOf(Zeros(n)));
  }

  lemma XorWithZeros(s: seq<byte>)
    ensures XorBytes(s, Zeros(|s|)) == s && XorBytes(s, s) == Zeros(|s|)
  {
  }

  lemma XorFromZero(d: bv16)
    ensures Xor(0, d) == d
  {
  }

  lemma XorWithSelf(c: bv16)
    ensures Xor(c, c) == 0
  {
  }

  lemma XorVanishes(c: bv16, d: bv16)
    requires Xor(c, d) == 0
    ensures c == d
  {
    XorSwap(c, d, d);
    assert d ^ d == 0 && c ^ 0 == c && 0 ^ d == d;
  }

  /** The checksum of a message is its checksum from zero, with 0xFFFF shifted past the whole message on top. */
  lemma ChecksumIsSeeded(s: seq<byte>)
    ensures Checksum(s) == Xor(CrcFrom(0, s), Shifts(0xFFFF, 8 * |s|))
  {
    hide AddByte, ShiftBit, Xor, XorByte, Shifts, CrcFrom, XorBytes;
    XorFromZero(0xFFFF);
    XorWithZeros(s);
    CrcLinear(0, 0xFFFF, s, Zeros(|s|));
    CrcOfZeros(0xFFFF, |s|);
  }

  /** Different registers stay different, whatever is added. */
  lemma CrcInjective(c: bv16, d: bv16, s: seq<byte>)
    requires CrcFrom(c, s) == CrcFrom(d, s)
    ensures c == d
  {
    hide AddByte, ShiftBit, Xor, XorByte, Shifts, CrcFrom, XorBytes;
    XorWithSelf(CrcFrom(c, s));
    XorWithZeros(s);
    CrcLinear(c, d, s, s);
    CrcOfZeros(Xor(c, d), |s|);
    ShiftsOfZero(8 * |s|);
    ShiftsInjective(Xor(c, d), 0, 8 * |s|);
    XorVanishes(c, d);
  }

  lemma {:induction false} CrcAppend(c: bv16, a: seq<byte>, b: seq<byte>)
    ensures CrcFrom(c, a + b) == CrcFrom(CrcFrom(c, a), b)
    decreases |b|
  {
    hide AddByte;
    if |b| == 0 {
      assert a + b == a;
    } else {
      assert (a + b)[..|a + b| - 1] == a + b[..|b| - 1];
      CrcAppend(c, a, b[..|b| - 1]);
    }
  }

  lemma ZeroMovesSeed()
    ensures CrcFrom(0xFFFF, [0]) == 0x40BF
  {
    assert Shifts(0xFFFF, 8) == 0x40BF;
    assert [0][..0] == [] && CrcFrom(0xFFFF, []) == 0xFFFF;
    assert Xor(0xFFFF, Widen(0)) == 0xFFFF;
    hide Shifts, Xor, Widen;
  }

  /** A zero byte in front of a message is noticed, because the seed is not zero. */
  lemma LeadingZeroIsNoticed(s: seq<byte>)
    ensures Checksum([0] + s) != Checksum(s)
  {
    hide AddByte, CrcFrom;
    CrcAppend(0xFFFF, [0], s);
    ZeroMovesSeed();
    if Checksum([0] + s) == Checksum(s) {
      CrcInjective(CrcFrom(0xFFFF, [0]), 0xFFFF, s);
    }
  }

  lemma TwoBytes(a: byte, b: byte)
    ensures Checksum([a, b]) == AddByte(AddByte(0xFFFF, a), b)
  {
    hide AddByte;
    assert CrcFrom(0xFFFF, [a]) == AddByte(0xFFFF, a) by { assert [a][..0] == []; }
    assert [a, b][..1] == [a];
  }

  /** The example of section 6.2.2 of the MODBUS over Serial Line Specification V1.02. */
  lemma PublishedExample()
    ensures Checksum([0x02, 0x07]) == 0x1241
  {
    TwoBytes(0x02, 0x07);
    assert AddByte(0xFFFF, 0x02) == 0x813E;
    assert AddByte(0x813E, 0x07) == 0x1241;
  }

  // ---------- Detection ----------

  /** The errors the checksum is meant to catch. */
  ghost predicate Detectable(e: seq<byte>) {
    Ones(BitsOf(e)) % 2 == 1 || Burst(e)
  }

  lemma DetectableSurvives(e: seq<byte>)
    requires Detectable(e)
    ensures CrcFrom(0, e) != 0
  {
    if !Burst(e) {
      CrcIsFeed(0, e);
      FeedParity(0, BitsOf(e));
    } else {
      BurstSurvives(e);
    }
  }
}
