/** What the client's requests mean to the server, and what the server's replies look like. */
module Requests {
  import opened Bytes
  import opened Crc
  import opened Frame
  import opened Resources
  import opened Records
  import opened Server
  import opened Node

  // ---------- A sealed body arrives intact ----------

  lemma SealedArrives(body: seq<byte>, before: seq<byte>)
    requires |before| == BUFFER_SIZE && |body| + CRC_SIZE <= BUFFER_SIZE && |body| >= 3
    ensures var frame := Sealed(body); var n := |frame|; var buffer := Received(before, frame);
            && n == |body| + CRC_SIZE
            && buffer[..|body|] == body
            && Le(buffer[n - 2], buffer[n - 1]) == Checksum(buffer[..n - 2])
  {
    hide Le, LowByte, HighByte;
    var c := Checksum(body);
    assert Covered(body) == body;
    LeIsHalves(LowByte(c), HighByte(c), c);
    assert Received(before, Sealed(body))[..|body|] == body;
  }

  // ---------- Requests decode to what was asked ----------

  lemma RegisterRequestDecodes(address: byte, func: byte, register: half, value: half, before: seq<byte>)
    requires |before| == BUFFER_SIZE
    ensures var frame := Message(Rtu, address, func, RegisterBody(register, value));
            var buffer := Received(before, frame);
            && |frame| == 8 && buffer[0] == address && buffer[1] == func
            && Be(buffer[2], buffer[3]) == register && Be(buffer[4], buffer[5]) == value
            && Le(buffer[6], buffer[7]) == Checksum(buffer[..6])
  {
    hide Le, Be, BeBytes, Checksum;
    var body := [address, func] + RegisterBody(register, value);
    SealedArrives(body, before);
    BeRoundTrip(register);
    BeRoundTrip(value);
    hide Sealed;
    var buffer := Received(before, Sealed(body));
    assert buffer[2] == body[2] && buffer[3] == body[3] && buffer[4] == body[4] && buffer[5] == body[5];
  }

  ghost function RecordBody(counter: nat, file: half, record: half, words: half, data: seq<byte>): seq<byte> {
    [ToByte(counter), FILE_REFERENCE] + BeBytes(file) + BeBytes(record) + BeBytes(words) + data
  }

  lemma RecordRequestDecodes(address: byte, func: byte, counter: nat, file: half, record: half, words: half,
                             data: seq<byte>, before: seq<byte>)
    requires |before| == BUFFER_SIZE && |data| <= 241 && 7 <= counter < 0x100
    ensures var frame := Message(Rtu, address, func, RecordBody(counter, file, record, words, data));
            var buffer := Received(before, frame); var n := 12 + |data|;
            && |frame| == n && buffer[0] == address && buffer[1] == func
            && (ReferenceOk(buffer) <==> counter <= 245) && ServiceAt(buffer) == FileService(file, record, words)
            && buffer[10..][..|data|] == data
            && Le(buffer[n - 2], buffer[n - 1]) == Checksum(buffer[..n - 2])
  {
    hide Le, Be, BeBytes, Checksum, ToByte, Value, Sealed, Received;
    var head := [address, func] + [ToByte(counter), FILE_REFERENCE] + BeBytes(file) + BeBytes(record) + BeBytes(words);
    var body := head + data;
    assert body == [address, func] + RecordBody(counter, file, record, words, data);
    SealedArrives(body, before);
    BeRoundTrip(file);
    BeRoundTrip(record);
    BeRoundTrip(words);
    ValueOfToByte(counter);
    var buffer := Received(before, Sealed(body));
    assert buffer[..10] == buffer[..|body|][..10] == head;
    assert forall k :: 0 <= k < 10 ==> buffer[k] == buffer[..10][k];
    assert buffer[10..][..|data|] == buffer[..|body|][10..];
  }

  lemma ReadRequestDecodes(address: byte, file: half, record: half, words: half, before: seq<byte>)
    requires |before| == BUFFER_SIZE
    ensures var frame := Message(Rtu, address, READ_FILE, ReadRecordBody(file, record, words));
            var buffer := Received(before, frame);
            && |frame| == 12 && buffer[0] == address && buffer[1] == READ_FILE
            && ReferenceOk(buffer) && ServiceAt(buffer) == FileService(file, record, words)
            && Le(buffer[10], buffer[11]) == Checksum(buffer[..10])
  {
    hide Le, Be, BeBytes, Checksum, ToByte, Value, Sealed, Received;
    RecordRequestDecodes(address, READ_FILE, 7, file, record, words, [], before);
    assert ReadRecordBody(file, record, words) == RecordBody(7, file, record, words, []);
  }

  /** Beyond 238 bytes of data the byte counter leaves the range the server accepts. */
  lemma WriteRequestDecodes(address: byte, file: half, record: half, data: seq<byte>, before: seq<byte>)
    requires |before| == BUFFER_SIZE && |data| <= 241
    ensures var frame := Message(Rtu, address, WRITE_FILE, WriteRecordBody(file, record, data));
            var buffer := Received(before, frame); var n := 12 + |data|;
            && |frame| == n && buffer[0] == address && buffer[1] == WRITE_FILE
            && (ReferenceOk(buffer) <==> |data| <= 238) && ServiceAt(buffer) == FileService(file, record, |data| / 2)
            && buffer[10..][..|data|] == data
            && Le(buffer[n - 2], buffer[n - 1]) == Checksum(buffer[..n - 2])
  {
    hide Le, Be, BeBytes, Checksum, ToByte, Value, Sealed, Received;
    RecordRequestDecodes(address, WRITE_FILE, |data| + 7, file, record, |data| / 2, data, before);
    assert WriteRecordBody(file, record, data) == RecordBody(|data| + 7, file, record, |data| / 2, data);
  }

  // ---------- Register answers decode to the registers ----------

  lemma {:induction false} ValuesAt(registers: seq<Register>, i: nat)
    requires i < |registers|
    ensures Be(Values(registers)[2 * i], Values(registers)[2 * i + 1]) == registers[i].value
    decreases |registers|
  {
    hide Be, BeBytes;
    var n := |registers| - 1;
    if i < n {
      ValuesAt(registers[..n], i);
    } else {
      BeRoundTrip(registers[n].value);
    }
  }

  /** An accepted register read lists, behind the byte count, exactly the registers that were asked for, and all of them
      may be read. */
  lemma RegisterAnswerDecodes(s: Store, address: half, quantity: half, i: nat)
    requires WellFormed(s) && RegisterRead(s, address, quantity).Data? && i < quantity
    ensures HOLDING_OFFSET <= address && address - HOLDING_OFFSET + quantity <= REGISTER_COUNT
    ensures var payload, r := RegisterRead(s, address, quantity).payload, s.registers[address - HOLDING_OFFSET + i];
            && |payload| == 1 + 2 * quantity && Value(payload[0]) == 2 * quantity
            && Be(payload[1 + 2 * i], payload[2 + 2 * i]) == r.value && r.attributes.read
  {
    hide Be, Value, ToByte, Values;
    var offset := address - HOLDING_OFFSET;
    ValuesAt(s.registers[offset..offset + quantity], i);
    ValueOfToByte(2 * quantity);
  }

  // ---------- What every reply looks like ----------

  lemma ExceptionReplyIsValid(address: byte, func: byte, code: byte)
    ensures |ExceptionReply(address, func, code)| == 5 && ChecksumValid(ExceptionReply(address, func, code))
  {
    SealedIsValid([address, func | 0x80, code]);
  }

  /** An accepted request is answered with an echo, or with as much data as was asked for. */
  lemma PerformedLength(s: Store, buffer: seq<byte>)
    requires WellFormed(s) && |buffer| == BUFFER_SIZE && AccessInBounds(s.registers, buffer)
    ensures match Perform(s, buffer).1
            case Echo => buffer[1] == WRITE_REGISTER || buffer[1] == WRITE_FILE
            case Reply(payload) =>
              || (buffer[1] == READ_FILE && |payload| == 3 + 2 * ServiceAt(buffer).words <= 3 + s.recordSize)
              || (buffer[1] == READ_REGISTERS && |payload| == 1 + 2 * Be(buffer[4], buffer[5]) <= 9)
            case Exception(_) => true
  {
    hide RecordWrite, RegisterWrite, Be, Value, ToByte, CountOperation, ReferenceOk;
    ReadOutcome(s, ServiceAt(buffer));
    hide RecordRead;
  }

  /** A request that is refused leaves files and registers as they were. */
  lemma RefusalKeeps(s: Store, buffer: seq<byte>)
    requires WellFormed(s) && |buffer| == BUFFER_SIZE && AccessInBounds(s.registers, buffer)
    ensures var (t, response) := Perform(s, buffer);
            response.Exception? ==> t.files == s.files && t.registers == s.registers
  {
    hide Be, Value, ToByte, CountOperation, ReferenceOk, RegisterRead;
    WriteKeeps(s, ServiceAt(buffer), buffer[10..]);
    ReadKeeps(s, ServiceAt(buffer));
    hide RecordRead, RecordWrite, ServiceAt;
  }

  lemma RequestCheck(buffer: seq<byte>, length: nat)
    requires |buffer| == BUFFER_SIZE && DEFAULT_SIZE <= length <= BUFFER_SIZE
    ensures Le(buffer[length - 2], buffer[length - 1]) == Checksum(buffer[..length - 2])
            <==> ChecksumValid(buffer[..length])
  {
    hide Checksum, Le;
    assert Covered(buffer[..length][..length - 2]) == buffer[..length - 2];
  }

  /** Which of the three kinds of reply a request gets. */
  lemma ReplyKinds(address: byte, s: Store, buffer: seq<byte>, length: nat)
    requires WellFormed(s) && |buffer| == BUFFER_SIZE && DEFAULT_SIZE <= length <= BUFFER_SIZE
    ensures TaskOutcome(address, s, buffer, length) ==
            if buffer[0] != address then Outcome(s, buffer[..length], AddressNotRecognized)
            else if !ChecksumValid(buffer[..length]) then Outcome(s, ExceptionReply(address, buffer[1], 3), BadCrc)
            else Answered(address, s, buffer, length)
  {
    hide Checksum, Le, ExceptionReply, Answered;
    RequestCheck(buffer, length);
  }

  /** Every reply to an intact request passes the client's checksum. An exception is five bytes and changes neither
      files nor registers; a write is echoed; a read is as long as what was asked for. */
  lemma AnswerShape(address: byte, s: Store, buffer: seq<byte>, length: nat)
    requires WellFormed(s) && |buffer| == BUFFER_SIZE && DEFAULT_SIZE <= length <= BUFFER_SIZE
    requires ChecksumValid(buffer[..length]) && AccessInBounds(s.registers, buffer)
    ensures var o := Answered(address, s, buffer, length);
            && ChecksumValid(o.reply) && |o.reply| <= BUFFER_SIZE
            && o.verdict in {Verdict.NoError, FunctionException}
            && (o.verdict == FunctionException ==>
                  |o.reply| == 5 && o.store.files == s.files && o.store.registers == s.registers)
            && (o.verdict == Verdict.NoError ==>
                  match buffer[1]
                  case 0x03 => |o.reply| == 5 + 2 * Be(buffer[4], buffer[5])
                  case 0x14 => |o.reply| == 7 + 2 * ServiceAt(buffer).words
                  case _ => o.reply == buffer[..length])
  {
    assert s.recordSize <= 241;
    hide Perform, Checksum, Le, Be, ExceptionReply, Sealed, ServiceAt, WellFormed, ChecksumValid, AccessInBounds;
    PerformedLength(s, buffer);
    RefusalKeeps(s, buffer);
    match Perform(s, buffer).1 {
      case Echo =>
      case Reply(payload) => SealedIsValid([address, buffer[1]] + payload);
      case Exception(code) => ExceptionReplyIsValid(address, buffer[1], code);
    }
  }
}
