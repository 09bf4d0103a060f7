/** The CRC of core/common/modbus.hpp: the bit-serial procedure it stands for, the 256-entry table,
    and the loop that refines the former with the latter. */
module Crc {
  import opened Bytes

  /** Shift right by one; if a one fell out, XOR the polynomial. */
  function ShiftBit(c: bv16): bv16 {
    if c & 1 == 1 then (c >> 1) ^ 0xA001 else c >> 1
  }

  function Shifts(c: bv16, n: nat): bv16
    decreases n
  {
    if n == 0 then c else ShiftBit(Shifts(c, n - 1))
  }

  /** Section 6.2.2 of the MODBUS over Serial Line Specification V1.02: XOR the byte into the low half of
      the register and shift eight times. */
  function AddByte(c: bv16, b: byte): bv16 {
    Shifts(Xor(c, Widen(b)), 8)
  }

  function CrcFrom(c: bv16, s: seq<byte>): bv16 {
    if |s| == 0 then c else AddByte(CrcFrom(c, s[..|s| - 1]), s[|s| - 1])
  }

  function Checksum(s: seq<byte>): bv16 {
    CrcFrom(0xFFFF, s)
  }

  // ---------- One shift is linear and injective ----------

  lemma ShiftBitOfXor(a: bv16, b: bv16)
    ensures ShiftBit(a ^ b) == ShiftBit(a) ^ ShiftBit(b)
  {
    XorShift(a, b);
    XorLowBit(a, b);
    XorSwap(a >> 1, b >> 1, 0xA001);
    if a & 1 == 1 {
      if b & 1 == 1 {} else {}
    } else {
      if b & 1 == 1 {} else {}
    }
  }

  lemma ShiftBitLinear(a: bv16, b: bv16)
    ensures ShiftBit(Xor(a, b)) == Xor(ShiftBit(a), ShiftBit(b))
  {
    hide ShiftBit;
    ShiftBitOfXor(a, b);
  }

  lemma {:induction false} ShiftsLinear(a: bv16, b: bv16, n: nat)
    ensures Shifts(Xor(a, b), n) == Xor(Shifts(a, n), Shifts(b, n))
    decreases n
  {
    hide ShiftBit, Xor;
    if n > 0 {
      ShiftsLinear(a, b, n - 1);
      ShiftBitLinear(Shifts(a, n - 1), Shifts(b, n - 1));
    }
  }

  lemma ShiftBitInjective(a: bv16, b: bv16)
    requires ShiftBit(a) == ShiftBit(b)
    ensures a == b
  {
  }

  lemma {:induction false} ShiftsInjective(a: bv16, b: bv16, n: nat)
    requires Shifts(a, n) == Shifts(b, n)
    ensures a == b
    decreases n
  {
    hide ShiftBit;
    if n > 0 {
      ShiftBitInjective(Shifts(a, n - 1), Shifts(b, n - 1));
      ShiftsInjective(a, b, n - 1);
    }
  }

  lemma {:induction false} ShiftsOfZero(n: nat)
    ensures Shifts(0, n) == 0
  {
    if n > 0 { ShiftsOfZero(n - 1); }
  }

  /** A byte in the high half slides down unchanged: no one falls out on the way. */
  lemma HighByteSlides(b: byte)
    ensures Shifts(Widen(b) << 8, 8) == Widen(b)
  {
  }

  // ---------- The table ----------

  /** The 256 entries, sixteen to a row as in the header. */
  const CRC_TABLE: seq<seq<bv16>> := [
    [0x0000, 0xC0C1, 0xC181, 0x0140, 0xC301, 0x03C0, 0x0280, 0xC241,
     0xC601, 0x06C0, 0x0780, 0xC741, 0x0500, 0xC5C1, 0xC481, 0x0440],
    [0xCC01, 0x0CC0, 0x0D80, 0xCD41, 0x0F00, 0xCFC1, 0xCE81, 0x0E40,
     0x0A00, 0xCAC1, 0xCB81, 0x0B40, 0xC901, 0x09C0, 0x0880, 0xC841],
    [0xD801, 0x18C0, 0x1980, 0xD941, 0x1B00, 0xDBC1, 0xDA81, 0x1A40,
     0x1E00, 0xDEC1, 0xDF81, 0x1F40, 0xDD01, 0x1DC0, 0x1C80, 0xDC41],
    [0x1400, 0xD4C1, 0xD581, 0x1540, 0xD701, 0x17C0, 0x1680, 0xD641,
     0xD201, 0x12C0, 0x1380, 0xD341, 0x1100, 0xD1C1, 0xD081, 0x1040],
    [0xF001, 0x30C0, 0x3180, 0xF141, 0x3300, 0xF3C1, 0xF281, 0x3240,
     0x3600, 0xF6C1, 0xF781, 0x3740, 0xF501, 0x35C0, 0x3480, 0xF441],
    [0x3C00, 0xFCC1, 0xFD81, 0x3D40, 0xFF01, 0x3FC0, 0x3E80, 0xFE41,
     0xFA01, 0x3AC0, 0x3B80, 0xFB41, 0x3900, 0xF9C1, 0xF881, 0x3840],
    [0x2800, 0xE8C1, 0xE981, 0x2940, 0xEB01, 0x2BC0, 0x2A80, 0xEA41,
     0xEE01, 0x2EC0, 0x2F80, 0xEF41, 0x2D00, 0xEDC1, 0xEC81, 0x2C40],
    [0xE401, 0x24C0, 0x2580, 0xE541, 0x2700, 0xE7C1, 0xE681, 0x2640,
     0x2200, 0xE2C1, 0xE381, 0x2340, 0xE101, 0x21C0, 0x2080, 0xE041],
    [0xA001, 0x60C0, 0x6180, 0xA141, 0x6300, 0xA3C1, 0xA281, 0x6240,
     0x6600, 0xA6C1, 0xA781, 0x6740, 0xA501, 0x65C0, 0x6480, 0xA441],
    [0x6C00, 0xACC1, 0xAD81, 0x6D40, 0xAF01, 0x6FC0, 0x6E80, 0xAE41,
     0xAA01, 0x6AC0, 0x6B80, 0xAB41, 0x6900, 0xA9C1, 0xA881, 0x6840],
    [0x7800, 0xB8C1, 0xB981, 0x7940, 0xBB01, 0x7BC0, 0x7A80, 0xBA41,
     0xBE01, 0x7EC0, 0x7F80, 0xBF41, 0x7D00, 0xBDC1, 0xBC81, 0x7C40],
    [0xB401, 0x74C0, 0x7580, 0xB541, 0x7700, 0xB7C1, 0xB681, 0x7640,
     0x7200, 0xB2C1, 0xB381, 0x7340, 0xB101, 0x71C0, 0x7080, 0xB041],
    [0x5000, 0x90C1, 0x9181, 0x5140, 0x9301, 0x53C0, 0x5280, 0x9241,
     0x9601, 0x56C0, 0x5780, 0x9741, 0x5500, 0x95C1, 0x9481, 0x5440],
    [0x9C01, 0x5CC0, 0x5D80, 0x9D41, 0x5F00, 0x9FC1, 0x9E81, 0x5E40,
     0x5A00, 0x9AC1, 0x9B81, 0x5B40, 0x9901, 0x59C0, 0x5880, 0x9841],
    [0x8801, 0x48C0, 0x4980, 0x8941, 0x4B00, 0x8BC1, 0x8A81, 0x4A40,
     0x4E00, 0x8EC1, 0x8F81, 0x4F40, 0x8D01, 0x4DC0, 0x4C80, 0x8C41],
    [0x4400, 0x84C1, 0x8581, 0x4540, 0x8701, 0x47C0, 0x4680, 0x8641,
     0x8201, 0x42C0, 0x4380, 0x8341, 0x4100, 0x81C1, 0x8081, 0x4040]
  ]

  function TableEntry(i: byte): bv16
  {
    CRC_TABLE[(i >> 4) as int][(i & 0x0F) as int]
  }

  /** Every row is its first entry XORed onto row zero. */
  ghost predicate RowIsShiftedRowZero(row: seq<bv16>) {
    && |row| == 16
    && row[1] == Xor(row[0], 0xC0C1) && row[2] == Xor(row[0], 0xC181) && row[3] == Xor(row[0], 0x0140)
    && row[4] == Xor(row[0], 0xC301) && row[5] == Xor(row[0], 0x03C0) && row[6] == Xor(row[0], 0x0280)
    && row[7] == Xor(row[0], 0xC241) && row[8] == Xor(row[0], 0xC601) && row[9] == Xor(row[0], 0x06C0)
    && row[10] == Xor(row[0], 0x0780) && row[11] == Xor(row[0], 0xC741) && row[12] == Xor(row[0], 0x0500)
    && row[13] == Xor(row[0], 0xC5C1) && row[14] == Xor(row[0], 0xC481) && row[15] == Xor(row[0], 0x0440)
  }

  lemma TableRows()
    ensures |CRC_TABLE| == 16
    ensures forall k :: 0 <= k < 16 ==> RowIsShiftedRowZero(CRC_TABLE[k])
  {
  }

  lemma RowZero(lo: byte)
    requires lo < 16
    ensures |CRC_TABLE| == 16 && |CRC_TABLE[0]| == 16
    ensures CRC_TABLE[0][lo as int] == Shifts(Widen(lo), 8)
  {
    match lo {
      case 0 => case 1 => case 2 => case 3 => case 4 => case 5 => case 6 => case 7 =>
      case 8 => case 9 => case 10 => case 11 => case 12 => case 13 => case 14 => case 15 =>
      case _ =>
    }
  }

  lemma RowHead(hi: byte)
    requires hi < 16
    ensures |CRC_TABLE| == 16 && |CRC_TABLE[hi as int]| == 16
    ensures CRC_TABLE[hi as int][0] == Shifts(Widen(hi << 4), 8)
  {
    match hi {
      case 0 => case 1 => case 2 => case 3 => case 4 => case 5 => case 6 => case 7 =>
      case 8 => case 9 => case 10 => case 11 => case 12 => case 13 => case 14 => case 15 =>
      case _ =>
    }
  }

  lemma RowEntry(row: seq<bv16>, j: int)
    requires RowIsShiftedRowZero(row) && 0 <= j < 16
    ensures |CRC_TABLE| == 16 && |CRC_TABLE[0]| == 16
    ensures row[j] == Xor(row[0], CRC_TABLE[0][j])
  {
    assert row[0] == Xor(row[0], 0);
    hide Xor;
  }

  /** Each of the 256 entries is its index put through eight shifts. */
  lemma TableEntryIsShifts(i: byte)
    ensures TableEntry(i) == Shifts(Widen(i), 8)
  {
    hide Xor, Widen, ShiftBit, RowIsShiftedRowZero;
    var hi, lo := i >> 4, i & 0x0F;
    NibblesJoin(i);
    TableRows();
    RowZero(lo);
    RowHead(hi);
    RowEntry(CRC_TABLE[hi as int], lo as int);
    ShiftsLinear(Widen(hi << 4), Widen(lo), 8);
  }

  /** The loop body of crc16: index with the low half, slide the high half down. */
  function TableStep(c: bv16, b: byte): bv16 {
    Xor(Widen(HighByte(c)), TableEntry(XorByte(b, LowByte(c))))
  }

  lemma TableStepIsAddByte(c: bv16, b: byte)
    ensures TableStep(c, b) == AddByte(c, b)
  {
    hide Xor, XorByte, Widen, LowByte, HighByte, ShiftBit, Shifts, TableEntry;
    var hi, i := HighByte(c), XorByte(b, LowByte(c));
    HalvesJoin(c, b);
    HighByteSlides(hi);
    TableEntryIsShifts(i);
    ShiftsLinear(Widen(hi) << 8, Widen(i), 8);
  }

  /** core/common/modbus.hpp, crc16. */
  method Crc16(data: seq<byte>, length: nat) returns (crc: bv16)
    requires length <= |data| && length < 0x1_0000
    ensures crc == Checksum(data[..length])
  {
    hide Xor, XorByte, Widen, LowByte, HighByte, TableEntry, AddByte;
    crc := 0xFFFF;
    for i := 0 to length
      invariant crc == Checksum(data[..i])
    {
      TableStepIsAddByte(crc, data[i]);
      assert data[..i + 1][..i] == data[..i];
      var tmp := XorByte(data[i], LowByte(crc));
      crc := Widen(HighByte(crc));
      crc := Xor(crc, TableEntry(tmp));
    }
  }
}
