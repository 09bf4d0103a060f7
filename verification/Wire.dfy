/** The requests of core/client/src/message.cpp, byte by byte. */
module Wire {
  import opened Bytes
  import opened Crc
  import opened Frame
  import opened Client

  /** Two bytes of a frame as a number, the high byte first: section 4.2 of the MODBUS Application Protocol
      Specification V1.1b3. */
  function Word(frame: seq<byte>, i: nat): nat
    requires i + 1 < |frame|
  {
    Value(frame[i]) * 0x100 + Value(frame[i + 1])
  }

  /** What is sealed starts the frame; behind it comes the checksum, the low byte first. */
  lemma SealedBytes(body: seq<byte>, frame: seq<byte>)
    requires |body| < 0x1_0000 && frame == Sealed(body)
    ensures |frame| == |body| + 2 && frame[..|body|] == body
    ensures frame[|body|] == (Checksum(body) & 0xFF) as byte && frame[|body| + 1] == (Checksum(body) >> 8) as byte
  {
    hide Checksum;
    assert Covered(body) == body;
  }

  lemma BeBytesAt(frame: seq<byte>, i: nat, h: half)
    requires i + 2 <= |frame| && frame[i..i + 2] == BeBytes(h)
    ensures Word(frame, i) == h
  {
    hide BeBytes, Value;
    BeRoundTrip(h);
    assert frame[i] == frame[i..i + 2][0] && frame[i + 1] == frame[i..i + 2][1];
  }

  /** Register requests have eight bytes: address, function, register, value or quantity, checksum. */
  lemma RegisterRequestBytes(address: byte, func: byte, register: half, value: half)
    ensures var r := Message(Rtu, address, func, RegisterBody(register, value));
            |r| == 8 && r[0] == address && r[1] == func && Word(r, 2) == register && Word(r, 4) == value
  {
    hide BeBytes, Checksum, LowByte, HighByte, Word;
    var r := Message(Rtu, address, func, RegisterBody(register, value));
    assert r[2..4] == BeBytes(register) && r[4..6] == BeBytes(value);
    BeBytesAt(r, 2, register);
    BeBytesAt(r, 4, value);
  }

  /** Record requests have twelve bytes around their data: address, function, byte counter, reference type 6, file,
      record, half words, data, checksum. */
  lemma RecordRequestBytes(address: byte, func: byte, counter: nat, file: half, record: half, words: half,
                           data: seq<byte>, r: seq<byte>)
    requires r == Message(Rtu, address, func, [ToByte(counter), FILE_REFERENCE] + BeBytes(file) + BeBytes(record)
                                              + BeBytes(words) + data)
    ensures |r| == 12 + |data| && r[0] == address && r[1] == func && Value(r[2]) == counter % 0x100 && r[3] == 6
    ensures Word(r, 4) == file && Word(r, 6) == record && Word(r, 8) == words && r[10..10 + |data|] == data
  {
    hide BeBytes, Checksum, LowByte, HighByte, Word, ToByte, Value, Covered;
    ValueOfToByte(counter);
    assert r[4..6] == BeBytes(file) && r[6..8] == BeBytes(record) && r[8..10] == BeBytes(words);
    BeBytesAt(r, 4, file);
    BeBytesAt(r, 6, record);
    BeBytesAt(r, 8, words);
  }

  /** Every request the client puts on the line. */
  lemma RequestBytes(x: Exchange)
    ensures var r := Request(x);
            && |r| >= 8 && r[0] == x.address
            && match x
               case PingServer(_) => |r| == 8 && r[1] == 0xFF && r[2..6] == [0, 0, 0, 0]
               case WriteRegister(_, register, value) =>
                 |r| == 8 && r[1] == 0x06 && Word(r, 2) == register && Word(r, 4) == value
               case ReadRegisters(_, register, quantity) =>
                 |r| == 8 && r[1] == 0x03 && Word(r, 2) == register && Word(r, 4) == quantity
               case ReadRecord(_, file, record, words) =>
                 && |r| == 12 && r[1] == 0x14 && Value(r[2]) == 7 && r[3] == 6
                 && Word(r, 4) == file && Word(r, 6) == record && Word(r, 8) == words
               case WriteRecord(_, file, record, data) =>
                 && |r| == 12 + |data| && r[1] == 0x15 && Value(r[2]) == (7 + |data|) % 0x100 && r[3] == 6
                 && Word(r, 4) == file && Word(r, 6) == record && Word(r, 8) == (|data| / 2) % 0x1_0000
                 && r[10..10 + |data|] == data
  {
    hide BeBytes, Checksum, LowByte, HighByte, Word, ToByte, Value, Covered, RegisterBody;
    match x {
      case PingServer(address) =>
      case WriteRegister(a, register, value) => RegisterRequestBytes(a, WRITE_REGISTER, register, value);
      case ReadRegisters(a, register, quantity) => RegisterRequestBytes(a, READ_REGISTERS, register, quantity);
      case ReadRecord(a, file, record, words) =>
        assert ReadRecordBody(file, record, words) == [ToByte(7), FILE_REFERENCE] + BeBytes(file) + BeBytes(record)
                                                      + BeBytes(words) + [];
        RecordRequestBytes(a, READ_FILE, 7, file, record, words, [], Request(x));
      case WriteRecord(a, file, record, data) =>
        RecordRequestBytes(a, WRITE_FILE, |data| + 7, file, record, (|data| / 2) % 0x1_0000, data, Request(x));
    }
  }

  /** The client waits for five bytes after a ping, for an echo of a write, and for header and data of a read; the
      length of a record write is narrowed to 16 bits. */
  lemma AwaitedBytes(x: Exchange)
    ensures Expected(x) == match x
                           case PingServer(_) => 5
                           case ReadRegisters(_, _, quantity) => 5 + 2 * quantity
                           case ReadRecord(_, _, _, words) => 7 + 2 * words
                           case _ => |Request(x)| % 0x1_0000
  {
    hide BeBytes, Checksum, LowByte, HighByte, ToByte, Covered;
  }
}
