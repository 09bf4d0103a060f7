/** RTU frames: core/client/src/message.cpp. */
module Frame {
  import opened Bytes
  import opened Crc
  import opened Detection

  const READ_REGISTERS: byte := 0x03
  const WRITE_REGISTER: byte := 0x06
  const READ_FILE: byte := 0x14
  const WRITE_FILE: byte := 0x15
  const UNDEFINED_FUNCTION: byte := 0xFF
  const FILE_REFERENCE: byte := 6
  const MIN_BYTE_COUNTER := 7
  const CRC_SIZE := 2
  const MIN_FRAME := 5

  datatype Mode = PduOnly | Rtu

  /** The bytes a checksum is computed over: the length is narrowed to 16 bits first. */
  function Covered(body: seq<byte>): seq<byte> {
    body[..|body| % 0x1_0000]
  }

  function Sealed(body: seq<byte>): (frame: seq<byte>)
    ensures |frame| == |body| + CRC_SIZE
  {
    body + [LowByte(Checksum(Covered(body))), HighByte(Checksum(Covered(body)))]
  }

  /** What createMessage puts into the buffer. */
  function Message(mode: Mode, address: byte, func: byte, data: seq<byte>): seq<byte> {
    if mode.Rtu? then Sealed([address, func] + data) else [func] + data
  }

  function RegisterBody(register: half, value: half): seq<byte> {
    BeBytes(register) + BeBytes(value)
  }

  function ReadRecordBody(file: half, record: half, words: half): seq<byte> {
    [ToByte(MIN_BYTE_COUNTER), FILE_REFERENCE] + BeBytes(file) + BeBytes(record) + BeBytes(words)
  }

  function WriteRecordBody(file: half, record: half, data: seq<byte>): seq<byte> {
    [ToByte(|data| + MIN_BYTE_COUNTER), FILE_REFERENCE]
    + BeBytes(file) + BeBytes(record) + BeBytes((|data| / 2) % 0x1_0000) + data
  }

  /** isChecksumValid; the length handed to crc16 wraps at 16 bits. */
  predicate ChecksumValid(frame: seq<byte>) {
    && |frame| >= MIN_FRAME
    && Le(frame[|frame| - 2], frame[|frame| - 1]) == Checksum(Covered(frame[..|frame| - CRC_SIZE]))
  }

  class ModbusMessage {
    var mode: Mode

    constructor (mode: Mode)
      ensures this.mode == mode
    {
      this.mode := mode;
    }

    method CreateMessage(func: byte, data: seq<byte>, address: byte) returns (buffer: seq<byte>)
      ensures buffer == Message(mode, address, func, data)
    {
      buffer := [];
      if mode.Rtu? {
        buffer := buffer + [address];
      }
      buffer := buffer + [func];
      buffer := buffer + data;
      if mode.Rtu? {
        assert buffer == [address, func] + data;
        var crc := Crc16(buffer, |buffer| % 0x1_0000);
        buffer := buffer + [LowByte(crc)];
        buffer := buffer + [HighByte(crc)];
      } else {
        assert buffer == [func] + data;
      }
    }

    method MsgCustom(func: byte, data: seq<byte>, address: byte) returns (buffer: seq<byte>)
      ensures buffer == Message(mode, address, func, data)
    {
      buffer := CreateMessage(func, data, address);
    }

    method MsgWriteFileRecord(file: half, record: half, data: seq<byte>, address: byte) returns (buffer: seq<byte>)
      ensures buffer == Message(mode, address, WRITE_FILE, WriteRecordBody(file, record, data))
    {
      var body := [ToByte(|data| + MIN_BYTE_COUNTER), FILE_REFERENCE];
      body := body + BeBytes(file);
      body := body + BeBytes(record);
      body := body + BeBytes((|data| / 2) % 0x1_0000);
      body := body + data;
      buffer := CreateMessage(WRITE_FILE, body, address);
    }

    method MsgReadFileRecord(file: half, record: half, words: half, address: byte) returns (buffer: seq<byte>)
      ensures buffer == Message(mode, address, READ_FILE, ReadRecordBody(file, record, words))
    {
      var body := [ToByte(MIN_BYTE_COUNTER), FILE_REFERENCE];
      body := body + BeBytes(file);
      body := body + BeBytes(record);
      body := body + BeBytes(words);
      buffer := CreateMessage(READ_FILE, body, address);
    }

    method MsgWriteRegister(register: half, value: half, address: byte) returns (buffer: seq<byte>)
      ensures buffer == Message(mode, address, WRITE_REGISTER, RegisterBody(register, value))
    {
      var body := BeBytes(register);
      body := body + BeBytes(value);
      buffer := CreateMessage(WRITE_REGISTER, body, address);
    }

    method MsgReadRegisters(register: half, quantity: half, address: byte) returns (buffer: seq<byte>)
      ensures buffer == Message(mode, address, READ_REGISTERS, RegisterBody(register, quantity))
    {
      var body := BeBytes(register);
      body := body + BeBytes(quantity);
      buffer := CreateMessage(READ_REGISTERS, body, address);
    }

    method IsChecksumValid(data: seq<byte>) returns (valid: bool)
      ensures valid <==> ChecksumValid(data)
    {
      if |data| < MIN_FRAME {
        return false;
      }
      var received := Le(data[|data| - CRC_SIZE], data[|data| - CRC_SIZE + 1]);
      var covered := (|data| - CRC_SIZE) % 0x1_0000;
      var actual := Crc16(data, covered);
      assert data[..covered] == Covered(data[..|data| - CRC_SIZE]);
      return actual == received;
    }

    method ExtractData(data: seq<byte>) returns (ok: bool, message: seq<byte>)
      ensures ok <==> |data| >= MIN_FRAME
      ensures message == if ok then Pdu(data) else []
    {
      message := [];
      if |data| < MIN_FRAME {
        return false, message;
      }
      message := data[1..|data| - CRC_SIZE];
      return true, message;
    }

    method GetRequiredLength() returns (length: nat)
      ensures length == RequiredLength(mode)
    {
      length := if mode.Rtu? then 3 else 0;
    }
  }

  /** The bytes between address and checksum. */
  function Pdu(frame: seq<byte>): seq<byte>
    requires |frame| >= MIN_FRAME
  {
    frame[1..|frame| - CRC_SIZE]
  }

  function RequiredLength(mode: Mode): nat {
    if mode.Rtu? then 3 else 0
  }

  // ---------- What the checksum says ----------

  /** The receiver's comparison is the same as the checksum of the whole frame vanishing. */
  lemma ChecksumValidIsResidue(frame: seq<byte>)
    requires MIN_FRAME <= |frame| < 0x1_0000
    ensures ChecksumValid(frame) <==> Checksum(frame) == 0
  {
    hide AddByte, LowByte, HighByte, Le;
    var n := |frame|;
    assert frame[n - 1] == frame[|frame| - 1] && frame[..n - 1][n - 2] == frame[n - 2];
    var c := Checksum(frame[..n - 2]);
    assert Covered(frame[..n - 2]) == frame[..n - 2];
    assert frame[..n - 1][..n - 2] == frame[..n - 2];
    assert CrcFrom(0xFFFF, frame[..n - 1]) == AddByte(c, frame[n - 2]);
    TwoBytesClear(c, frame[n - 2], frame[n - 1]);
    LeIsHalves(frame[n - 2], frame[n - 1], c);
  }

  lemma SealedIsValid(body: seq<byte>)
    requires 3 <= |body| < 0x1_0000
    ensures ChecksumValid(Sealed(body))
  {
    hide LowByte, HighByte, Le;
    var c := Checksum(Covered(body));
    assert Sealed(body)[..|body|] == body;
    LeIsHalves(LowByte(c), HighByte(c), c);
  }

  /** No detectable error turns a valid frame into another valid frame. */
  lemma DamageIsRejected(frame: seq<byte>, e: seq<byte>)
    requires ChecksumValid(frame) && |frame| < 0x1_0000
    requires |e| == |frame| && Detectable(e)
    ensures !ChecksumValid(XorBytes(frame, e))
  {
    assert |XorBytes(frame, e)| == |frame| >= MIN_FRAME;
    assert Xor(0xFFFF, 0) == 0xFFFF && Xor(0, CrcFrom(0, e)) == CrcFrom(0, e);
    hide Xor, XorByte, Detectable, ChecksumValid, Detection.BitsOf;
    ChecksumValidIsResidue(frame);
    ChecksumValidIsResidue(XorBytes(frame, e));
    CrcLinear(0xFFFF, 0, frame, e);
    DetectableSurvives(e);
  }

  /** Every accepted frame has an even number of ones. */
  lemma ValidFrameIsEven(frame: seq<byte>)
    requires ChecksumValid(frame) && |frame| < 0x1_0000
    ensures Ones(BitsOf(frame)) % 2 == 0
  {
    ChecksumValidIsResidue(frame);
    CrcParity(frame);
    OddConstants();
  }

  /** What the client extracts from a frame built by createMessage; without the RTU mode the message is no more than
      that. */
  lemma ExtractAfterCreate(address: byte, func: byte, data: seq<byte>)
    requires 1 <= |data|
    ensures Pdu(Message(Rtu, address, func, data)) == [func] + data
    ensures Message(PduOnly, address, func, data) == [func] + data
  {
  }

  /** Nothing of less than five bytes is accepted, and something of five bytes is. */
  lemma ShortestFrame(frame: seq<byte>)
    ensures ChecksumValid(frame) ==> |frame| >= 5
    ensures ChecksumValid(Sealed([0, 0, 0])) && |Sealed([0, 0, 0])| == 5
  {
    SealedIsValid([0, 0, 0]);
  }

  /** The length given to the checksum is narrowed to 16 bits: what lies behind it in a longer message is not
      protected. */
  lemma LongTailUnprotected(a: seq<byte>, b: seq<byte>)
    requires |a| == |b| && a[..|a| % 0x1_0000] == b[..|b| % 0x1_0000]
    ensures Sealed(a)[|a|..] == Sealed(b)[|b|..]
  {
    hide LowByte, HighByte, Checksum;
  }

  /** The required length is what a message has around its function code and data, whatever the mode. */
  lemma MessageLength(mode: Mode, address: byte, func: byte, data: seq<byte>)
    ensures |Message(mode, address, func, data)| == RequiredLength(mode) + 1 + |data|
    ensures mode.Rtu? && 1 <= |data|
            ==> |Pdu(Message(mode, address, func, data))| == |Message(mode, address, func, data)| - RequiredLength(mode)
  {
  }
}
