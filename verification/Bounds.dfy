/** The guards of the register accesses in core/server/src/resources.cpp and core/server/src/server.cpp, as they are:
    which table entries an access touches, and for which requests one of them lies outside the table. */
module Bounds {
  import opened Bytes
  import opened Resources

  // ---------- What an access touches ----------

  /** writeRegister indexes the table with the offset unless that is larger than the number of registers. */
  predicate WriteTouches(address: half, i: nat) {
    address >= HOLDING_OFFSET && !(address - HOLDING_OFFSET > REGISTER_COUNT) && i == address - HOLDING_OFFSET
  }

  /** The difference in readRegister's guard is taken in std::size_t, which counts modulo a power of two. */
  function SizeDifference(a: nat, b: nat, modulus: nat): nat
    requires modulus > 0
  {
    (a - b) % modulus
  }

  /** readRegister looks at entry i if the guard lets the request through and every entry before i is in the table
      and may be read; what an entry outside the table makes it do next is open. */
  ghost predicate ReadTouches(registers: seq<Register>, address: half, quantity: half, modulus: nat, i: nat)
    requires modulus > 0
  {
    var offset := address - HOLDING_OFFSET;
    && offset >= 0 && !(offset > SizeDifference(|registers|, quantity, modulus))
    && offset <= i < offset + quantity
    && forall j :: offset <= j < i ==> j < |registers| && registers[j].attributes.read
  }

  /** A write is in bounds exactly if every entry it touches is in the table. */
  lemma WriteBoundsExactly(address: half)
    ensures RegisterWriteInBounds(address) <==> forall i: nat :: WriteTouches(address, i) ==> i < REGISTER_COUNT
  {
    assert address == HOLDING_OFFSET + REGISTER_COUNT ==> WriteTouches(address, REGISTER_COUNT);
  }

  /** A read is in bounds exactly if every entry it touches is in the table, for any width of std::size_t from 32
      bits on. */
  lemma ReadBoundsExactly(registers: seq<Register>, address: half, quantity: half, modulus: nat)
    requires |registers| == REGISTER_COUNT && modulus >= 0x1_0000_0000
    ensures RegisterReadInBounds(registers, address, quantity) <==>
            forall i: nat :: ReadTouches(registers, address, quantity, modulus, i) ==> i < |registers|
  {
    GuardWraps(quantity, modulus);
    var offset := address - HOLDING_OFFSET;
    if !RegisterReadInBounds(registers, address, quantity) {
      var i := if offset <= REGISTER_COUNT then REGISTER_COUNT else offset;
      assert ReadTouches(registers, address, quantity, modulus, i);
    } else if offset >= 0 {
      forall i: nat | ReadTouches(registers, address, quantity, modulus, i) ensures i < |registers| {
        if quantity > REGISTER_COUNT {
          var k :| offset <= k < |registers| && !registers[k].attributes.read;
          assert !(k < i);
        }
      }
    }
  }

  /** The guard is what it looks like up to four registers, and lets everything through beyond. */
  lemma GuardWraps(quantity: half, modulus: nat)
    requires modulus >= 0x1_0000_0000
    ensures quantity <= REGISTER_COUNT
            ==> SizeDifference(REGISTER_COUNT, quantity, modulus) == REGISTER_COUNT - quantity
    ensures quantity > REGISTER_COUNT ==> SizeDifference(REGISTER_COUNT, quantity, modulus) > 0xFFFF
  {
    if quantity > REGISTER_COUNT {
      ModuloOnce(REGISTER_COUNT - quantity, modulus);
    }
  }

  lemma ModuloOnce(n: int, modulus: nat)
    requires -0x1_0000 < n < 0 && modulus >= 0x1_0000_0000
    ensures n % modulus == n + modulus
  {
  }

  // ---------- For the caller ----------

  lemma WriteLeavesTable(address: half)
    ensures !RegisterWriteInBounds(address) <==> address == 0x9C44
  {
  }

  /** Where the last register may not be read, as in the table that init leaves. */
  lemma ReadLeavesTable(registers: seq<Register>, address: half, quantity: half)
    requires |registers| == REGISTER_COUNT && !registers[STATUS_REGISTER].attributes.read
    ensures !RegisterReadInBounds(registers, address, quantity) <==> quantity > 4 && address > 0x9C43
  {
    if address >= HOLDING_OFFSET && address <= 0x9C43 {
      assert address - HOLDING_OFFSET <= STATUS_REGISTER < |registers|;
    }
  }

  /** The server's test on the quantity of a register read. */
  predicate QuantityRefused(quantity: half) {
    quantity < 1 && quantity > 125
  }

  /** It never fires. So a read of no registers is answered with an empty list, not only inside the table but also
      right behind it. */
  lemma QuantityGuardNeverFires(s: Store, address: half, quantity: half)
    requires WellFormed(s)
    ensures !QuantityRefused(quantity)
    ensures RegisterRead(s, address, 0) == (if 0x9C40 <= address <= 0x9C44 then Data([0]) else Refused)
  {
    ValueOfToByte(0);
  }
}
