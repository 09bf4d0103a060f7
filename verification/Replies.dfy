/** The replies of core/server/src/server.cpp and core/server/src/resources.cpp, byte by byte, and which request gets
    which: section 7 of the MODBUS Application Protocol Specification V1.1b3 calls the refusals exceptions. */
module Replies {
  import opened Bytes
  import opened Crc
  import opened Frame
  import opened Resources
  import opened Records
  import opened Server
  import opened Node
  import opened Requests
  import opened Client
  import opened Line
  import opened Steps
  import opened Wire

  // ---------- What is refused ----------

  /** A register that exists and may be written. */
  ghost predicate WritableRegister(s: Store, address: nat) {
    |s.registers| == 4 && 0x9C40 <= address < 0x9C44 && s.registers[address - 0x9C40].attributes.write
  }

  /** Registers that exist and may all be read. */
  ghost predicate ReadableRegisters(s: Store, address: nat, quantity: nat) {
    && |s.registers| == 4 && 0x9C40 <= address && address + quantity <= 0x9C44
    && forall i :: address - 0x9C40 <= i < address - 0x9C40 + quantity ==> s.registers[i].attributes.read
  }

  /** A record that exists, and no more of it than it has. */
  ghost predicate PresentRecord(s: Store, file: nat, record: nat, words: nat) {
    && |s.files| == 2 && 1 <= file <= 2
    && record < s.files[file - 1].records && record <= 10000 && 2 * words <= s.recordSize
  }

  ghost predicate WritableRecord(s: Store, file: nat, record: nat, words: nat) {
    PresentRecord(s, file, record, words) && s.files[file - 1].attributes.write
  }

  ghost predicate ReadableRecord(s: Store, file: nat, record: nat, words: nat) {
    PresentRecord(s, file, record, words) && s.files[file - 1].attributes.read
  }

  /** The file is written by a platform routine, and that is missing or fails. */
  ghost predicate DriverFails(s: Store, file: nat) {
    |s.files| == 2 && 1 <= file <= 2 && s.files[file - 1].attributes.flash && s.flash != Driver(true)
  }

  /** Byte counter and reference type of a record request. */
  ghost predicate HeaderFits(buffer: seq<byte>)
    requires |buffer| == BUFFER_SIZE
  {
    buffer[3] == 6 && 7 <= Value(buffer[2]) <= 245
  }

  /** The requests that are performed. */
  ghost predicate Performs(s: Store, buffer: seq<byte>)
    requires |buffer| == BUFFER_SIZE
  {
    var file, record, words := Word(buffer, 4), Word(buffer, 6), Word(buffer, 8);
    match buffer[1]
    case 0x06 => WritableRegister(s, Word(buffer, 2))
    case 0x03 => ReadableRegisters(s, Word(buffer, 2), Word(buffer, 4))
    case 0x15 => HeaderFits(buffer) && WritableRecord(s, file, record, words) && !DriverFails(s, file)
    case 0x14 => HeaderFits(buffer) && ReadableRecord(s, file, record, words)
    case _ => false
  }

  lemma RegisterWriteOutcome(s: Store, address: half, value: half)
    requires WellFormed(s)
    ensures var (t, ok) := RegisterWrite(s, address, value);
            && (ok <==> WritableRegister(s, address))
            && t == s.(registers := t.registers, link := t.link)
            && (!ok ==> t == s)
            && |t.registers| == 4
            && forall i :: 0 <= i < 4 ==>
                 if ok && i == address - 0x9C40 then t.registers[i] == s.registers[i].(value := value)
                 else t.registers[i] == s.registers[i]
  {
  }

  lemma RegisterReadOutcome(s: Store, address: half, quantity: half)
    requires WellFormed(s)
    ensures RegisterRead(s, address, quantity).Data? <==> ReadableRegisters(s, address, quantity)
  {
    hide ToByte, Values;
  }

  /** A record write that is refused leaves the store as it was, unless a platform routine failed: then the transfer is
      over. */
  ghost function AfterRefusal(s: Store, served: bool): Store {
    if served then s.(counter := 0, link := s.link.(size := 8)) else s
  }

  lemma RecordOutcome(s: Store, service: FileService, data: seq<byte>)
    requires WellFormed(s) && s.recordSize <= |data|
    ensures var (file, record, words) := (service.file, service.record, service.words);
            var (t, ok), (u, answer) := RecordWrite(s, service, data), RecordRead(s, service);
            && (ok <==> WritableRecord(s, file, record, words) && !DriverFails(s, file))
            && (ok || t == AfterRefusal(s, WritableRecord(s, file, record, words)))
            && (answer.Data? <==> ReadableRecord(s, file, record, words))
            && (answer.Data? || u == s)
  {
    AccessOutcome(s, service);
    hide Access, Overwrite, RecordAnswer, CountOperation;
  }

  lemma WordIsBe(buffer: seq<byte>, i: nat)
    requires i + 1 < |buffer|
    ensures Be(buffer[i], buffer[i + 1]) == Word(buffer, i)
  {
    hide Value;
  }

  /** The exception code of a refused request. */
  ghost function CodeOfRefusal(buffer: seq<byte>): byte
    requires |buffer| == BUFFER_SIZE
  {
    match buffer[1]
    case 0x06 => 4
    case 0x03 => 2
    case 0x14 => if HeaderFits(buffer) then 2 else 3
    case 0x15 => if HeaderFits(buffer) then 2 else 3
    case _ => 1
  }

  ghost predicate ServedWrite(s: Store, buffer: seq<byte>)
    requires |buffer| == BUFFER_SIZE
  {
    buffer[1] == 0x15 && HeaderFits(buffer) && WritableRecord(s, Word(buffer, 4), Word(buffer, 6), Word(buffer, 8))
  }

  /** Which requests are performed, which exception code the others get, and what the refusal leaves. */
  lemma PerformsExactly(s: Store, buffer: seq<byte>)
    requires WellFormed(s) && |buffer| == BUFFER_SIZE && AccessInBounds(s.registers, buffer)
    ensures var (t, response) := Perform(s, buffer);
            && (response.Exception? <==> !Performs(s, buffer))
            && (response.Exception? ==> response.code == CodeOfRefusal(buffer))
            && (response.Exception? ==> t == AfterRefusal(s, ServedWrite(s, buffer)))
  {
    hide RegisterWrite, RegisterRead, RecordWrite, RecordRead, Be, Word, Value, WritableRegister,
         ReadableRegisters, WritableRecord, ReadableRecord, DriverFails, AccessInBounds;
    WordIsBe(buffer, 2);
    WordIsBe(buffer, 4);
    WordIsBe(buffer, 6);
    WordIsBe(buffer, 8);
    match buffer[1] {
      case 0x06 => RegisterWriteOutcome(s, Be(buffer[2], buffer[3]), Be(buffer[4], buffer[5]));
      case 0x03 => RegisterReadOutcome(s, Be(buffer[2], buffer[3]), Be(buffer[4], buffer[5]));
      case 0x15 => RecordOutcome(s, ServiceAt(buffer), buffer[10..]);
      case 0x14 => RecordOutcome(s, ServiceAt(buffer), buffer[10..]);
      case _ =>
    }
  }

  // ---------- Refusals as they are sent ----------

  /** An exception in five bytes: the node's address, the function code of the request with its highest bit set, the
      exception code, and a checksum that fits. */
  ghost predicate IsException(reply: seq<byte>, address: byte, func: byte, code: byte) {
    && |reply| == 5 && reply[0] == address
    && reply[1] & 0x7F == func & 0x7F && reply[1] & 0x80 == 0x80
    && reply[2] == code && ChecksumValid(reply)
  }

  lemma Marked(func: byte)
    ensures (func | 0x80) & 0x7F == func & 0x7F && (func | 0x80) & 0x80 == 0x80
  {
  }

  lemma ExceptionBytes(address: byte, func: byte, code: byte)
    ensures IsException(ExceptionReply(address, func, code), address, func, code)
  {
    hide ChecksumValid, Checksum, LowByte, HighByte;
    Marked(func);
    ExceptionReplyIsValid(address, func, code);
  }

  /** When a frame is not performed, and what goes back then: a frame for another node as it came, exception 3 for a
      wrong checksum, and the exception of the refused request. */
  lemma RefusedExactly(address: byte, s: Store, buffer: seq<byte>, length: nat)
    requires WellFormed(s) && |buffer| == BUFFER_SIZE && DEFAULT_SIZE <= length <= BUFFER_SIZE
    requires InBounds(address, s, buffer, length)
    ensures var o, mine, intact := TaskOutcome(address, s, buffer, length), buffer[0] == address,
                                   ChecksumValid(buffer[..length]);
            && (o.verdict == AddressNotRecognized <==> !mine)
            && (o.verdict == BadCrc <==> mine && !intact)
            && (o.verdict == FunctionException <==> mine && intact && !Performs(s, buffer))
            && (!mine ==> o.reply == buffer[..length])
            && (mine && !intact ==> IsException(o.reply, address, buffer[1], 3))
            && (mine && intact && !Performs(s, buffer)
                ==> IsException(o.reply, address, buffer[1], CodeOfRefusal(buffer))
                    && o.store == AfterRefusal(s, ServedWrite(s, buffer)))
            && (!(mine && intact) ==> o.store == s)
  {
    hide Perform, Checksum, ChecksumValid, Le, ExceptionReply, Sealed, Performs, CodeOfRefusal, ServedWrite,
         IsException, AccessInBounds, AfterRefusal, TaskOutcome;
    RequestCheck(buffer, length);
    ReplyKinds(address, s, buffer, length);
    ExceptionBytes(address, buffer[1], 3);
    if buffer[0] == address && ChecksumValid(buffer[..length]) {
      ExceptionBytes(address, buffer[1], CodeOfRefusal(buffer));
      PerformsExactly(s, buffer);
      assert TaskOutcome(address, s, buffer, length) == Answered(address, s, buffer, length);
      assert Answered(address, s, buffer, length).verdict == FunctionException <==> Perform(s, buffer).1.Exception?;
    }
  }

  // ---------- Answers as they are sent ----------

  /** The registers asked for, behind address, function code and byte count. */
  ghost predicate IsRegisterList(reply: seq<byte>, address: byte, s: Store, register: nat, quantity: nat) {
    && ReadableRegisters(s, register, quantity)
    && |reply| == 5 + 2 * quantity && reply[0] == address && reply[1] == 0x03 && Value(reply[2]) == 2 * quantity
    && forall i :: 0 <= i < quantity ==> Word(reply, 3 + 2 * i) == s.registers[register - 0x9C40 + i].value
  }

  /** The head of the record, behind address, function code, two length fields and the reference type. The first length
      counts the reference type in, the second does not. */
  ghost predicate IsRecord(reply: seq<byte>, address: byte, s: Store, file: nat, record: nat, words: nat) {
    && WellFormed(s) && ReadableRecord(s, file, record, words)
    && |reply| == 7 + 2 * words && reply[0] == address && reply[1] == 0x14
    && Value(reply[2]) == 2 * words + 1 && Value(reply[3]) == 2 * words && reply[4] == 6
    && reply[5..5 + 2 * words] == Record(s, file - 1, record)[..2 * words]
  }

  lemma RegisterListLength(s: Store, register: half, quantity: half)
    requires WellFormed(s) && RegisterRead(s, register, quantity).Data?
    ensures var payload := RegisterRead(s, register, quantity).payload;
            |payload| == 1 + 2 * quantity && Value(payload[0]) == 2 * quantity
  {
    hide Value, ToByte, Values;
    ValueOfToByte(2 * quantity);
  }

  lemma RegisterListBytes(address: byte, s: Store, register: half, quantity: half)
    requires WellFormed(s) && RegisterRead(s, register, quantity).Data?
    ensures IsRegisterList(Sealed([address, READ_REGISTERS] + RegisterRead(s, register, quantity).payload), address, s,
                           register, quantity)
  {
    hide RegisterRead, ReadableRegisters, Checksum, Covered, LowByte, HighByte, Be, Word, WellFormed, Value;
    var payload := RegisterRead(s, register, quantity).payload;
    var reply := Sealed([address, READ_REGISTERS] + payload);
    RegisterReadOutcome(s, register, quantity);
    RegisterListLength(s, register, quantity);
    ReadableInside(s, register, quantity);
    forall i | 0 <= i < quantity ensures Word(reply, 3 + 2 * i) == s.registers[register - 0x9C40 + i].value {
      RegisterAnswerDecodes(s, register, quantity, i);
      WordIsBe(reply, 3 + 2 * i);
    }
  }

  lemma ReadableInside(s: Store, register: nat, quantity: nat)
    requires ReadableRegisters(s, register, quantity)
    ensures |s.registers| == 4 && 0x9C40 <= register && register + quantity <= 0x9C44
  {
  }

  lemma RecordBytes(address: byte, s: Store, service: FileService)
    requires WellFormed(s) && RecordRead(s, service).1.Data?
    ensures IsRecord(Sealed([address, READ_FILE] + RecordRead(s, service).1.payload), address, s, service.file,
                     service.record, service.words)
  {
    hide RecordRead, ReadableRecord, Checksum, Covered, LowByte, HighByte, WellFormed, Record, ToByte, Value,
         CountOperation, RecordWrite, WritableRecord, DriverFails;
    var file, record, words := service.file, service.record, service.words;
    RecordOutcome(s, service, seq(s.recordSize, _ => 0));
    ReadOutcome(s, service);
    LengthsFit(s, file, record, words);
    ValueOfToByte(2 * words + 1);
    ValueOfToByte(2 * words);
  }

  lemma LengthsFit(s: Store, file: nat, record: nat, words: nat)
    requires WellFormed(s) && ReadableRecord(s, file, record, words)
    ensures 1 <= file && HasRecord(s, file - 1, record) && 2 * words <= s.recordSize < 0xFF
  {
  }

  /** What goes back when a request is performed: the registers, the record, or the request itself. */
  lemma AnswersExactly(address: byte, s: Store, buffer: seq<byte>, length: nat)
    requires WellFormed(s) && |buffer| == BUFFER_SIZE && DEFAULT_SIZE <= length <= BUFFER_SIZE
    requires buffer[0] == address && ChecksumValid(buffer[..length]) && AccessInBounds(s.registers, buffer)
    requires Performs(s, buffer)
    ensures var o := TaskOutcome(address, s, buffer, length);
            && ChecksumValid(o.reply)
            && match buffer[1]
               case 0x03 => IsRegisterList(o.reply, address, s, Word(buffer, 2), Word(buffer, 4)) && o.store == s
               case 0x14 => IsRecord(o.reply, address, s, Word(buffer, 4), Word(buffer, 6), Word(buffer, 8))
               case _ => o.reply == buffer[..length]
  {
    hide RegisterWrite, RegisterRead, RecordWrite, RecordRead, Be, Word, Value, Performs, CodeOfRefusal, ServedWrite,
         IsRegisterList, IsRecord, AccessInBounds, AfterRefusal, TaskOutcome, Checksum, ChecksumValid, Sealed,
         ExceptionReply, ReferenceOk;
    ReplyKinds(address, s, buffer, length);
    PerformsExactly(s, buffer);
    AnswerShape(address, s, buffer, length);
    WordIsBe(buffer, 2);
    WordIsBe(buffer, 4);
    WordIsBe(buffer, 6);
    WordIsBe(buffer, 8);
    match buffer[1] {
      case 0x03 => RegisterListBytes(address, s, Be(buffer[2], buffer[3]), Be(buffer[4], buffer[5]));
      case 0x14 => RecordBytes(address, s, ServiceAt(buffer));
      case _ =>
    }
  }

  // ---------- The client's requests ----------

  /** A request that fits the frame buffer; only a record of more than 241 bytes does not. */
  predicate Fits(x: Exchange) {
    x.WriteRecord? ==> |x.data| <= 241
  }

  lemma RequestIsSealed(x: Exchange)
    requires Fits(x)
    ensures ChecksumValid(Request(x)) && 8 <= |Request(x)| <= BUFFER_SIZE
  {
    hide BeBytes, ToByte, Sealed, ChecksumValid;
    match x {
      case PingServer(a) => SealedIsValid([a, UNDEFINED_FUNCTION] + [0, 0, 0, 0]);
      case WriteRegister(a, register, value) => SealedIsValid([a, WRITE_REGISTER] + RegisterBody(register, value));
      case ReadRegisters(a, register, quantity) =>
          SealedIsValid([a, READ_REGISTERS] + RegisterBody(register, quantity));
      case ReadRecord(a, file, record, words) => SealedIsValid([a, READ_FILE] + ReadRecordBody(file, record, words));
      case WriteRecord(a, file, record, data) => SealedIsValid([a, WRITE_FILE] + WriteRecordBody(file, record, data));
    }
  }

  lemma RequestArrives(x: Exchange, before: seq<byte>)
    requires Fits(x) && |before| == BUFFER_SIZE
    ensures 8 <= |Request(x)| <= BUFFER_SIZE
    ensures var r, buffer := Request(x), Received(before, Request(x));
            && ChecksumValid(buffer[..|r|]) && buffer[..|r|] == r
            && buffer[0] == r[0] && buffer[1] == r[1] && buffer[2] == r[2] && buffer[3] == r[3]
            && forall i :: 0 <= i < |r| - 1 ==> Word(buffer, i) == Word(r, i)
  {
    hide Request, ChecksumValid, Value, Received;
    RequestIsSealed(x);
    var r, buffer := Request(x), Received(before, Request(x));
    assert forall i :: 0 <= i < |r| ==> buffer[i] == buffer[..|r|][i] == r[i];
  }

  lemma ReadRequestAt(address: byte, s: Store, file: half, record: half, words: half, before: seq<byte>)
    requires WellFormed(s) && |before| == BUFFER_SIZE
    ensures |Request(ReadRecord(address, file, record, words))| == 12
    ensures var buffer := Received(before, Request(ReadRecord(address, file, record, words)));
            && buffer[0] == address && buffer[1] == 0x14 && ChecksumValid(buffer[..12])
            && Word(buffer, 4) == file && Word(buffer, 6) == record && Word(buffer, 8) == words
            && AccessInBounds(s.registers, buffer) && CodeOfRefusal(buffer) == 2 && !ServedWrite(s, buffer)
            && (Performs(s, buffer) <==> ReadableRecord(s, file, record, words))
  {
    hide Request, ChecksumValid, Value, Received, Word, WellFormed, ReadableRecord, WritableRecord,
         RegisterWriteInBounds, RegisterReadInBounds, Be;
    var x := ReadRecord(address, file, record, words);
    RequestBytes(x);
    RequestArrives(x, before);
  }

  lemma ExceptionPdu(reply: seq<byte>, address: byte, func: byte, code: byte)
    requires IsException(reply, address, func, code)
    ensures |reply| == 5 && |Pdu(reply)| == 2
    ensures Pdu(reply)[0] & 0x7F == func & 0x7F && Pdu(reply)[0] & 0x80 == 0x80 && Pdu(reply)[1] == code
  {
    hide ChecksumValid;
  }

  lemma RecordPdu(reply: seq<byte>, address: byte, s: Store, file: nat, record: nat, words: nat)
    requires IsRecord(reply, address, s, file, record, words)
    ensures |reply| == 7 + 2 * words && file > 0 && HasRecord(s, file - 1, record) && 2 * words <= s.recordSize
    ensures var p := Pdu(reply);
            && |p| == 4 + 2 * words && p[0] == 0x14 && Value(p[1]) == 2 * words + 1 && Value(p[2]) == 2 * words
            && p[3] == 6 && p[4..] == Record(s, file - 1, record)[..2 * words]
  {
    hide Value, Record;
    assert Pdu(reply)[4..] == reply[5..5 + 2 * words];
  }

  /** An accepted record read: the function code, two lengths of which the first counts the reference type in, the
      reference type 6, and the head of the record. Otherwise an exception, and nothing has changed. */
  lemma ReadReply(address: byte, s: Store, file: half, record: half, words: half, before: seq<byte>)
    requires WellFormed(s) && |before| == BUFFER_SIZE && s.link.size == 12
    ensures var o := Serve(address, s, before, Request(ReadRecord(address, file, record, words)));
            && |o.reply| >= 5 && o.reply[0] == address && ChecksumValid(o.reply)
            && (o.verdict == Verdict.NoError <==> ReadableRecord(s, file, record, words))
            && var p := Pdu(o.reply);
               if o.verdict == Verdict.NoError then
                 && |p| == 4 + 2 * words && p[0] == 0x14 && Value(p[1]) == 2 * words + 1 && Value(p[2]) == 2 * words
                 && p[3] == 6 && file > 0 && HasRecord(s, file - 1, record)
                 && 2 * words <= s.recordSize && p[4..] == Record(s, file - 1, record)[..2 * words]
               else o.store == s && |p| == 2 && p[0] & 0x7F == 0x14 && p[0] & 0x80 == 0x80 && p[1] == 2
  {
    hide Request, ChecksumValid, Value, Received, Word, TaskOutcome, WellFormed, ReadableRecord, Record, Performs,
         CodeOfRefusal, ServedWrite, Pdu, HasRecord, AccessInBounds;
    ReadRequestAt(address, s, file, record, words, before);
    var buffer := Received(before, Request(ReadRecord(address, file, record, words)));
    RefusedExactly(address, s, buffer, 12);
    if Performs(s, buffer) {
      AnswersExactly(address, s, buffer, 12);
      RecordPdu(TaskOutcome(address, s, buffer, 12).reply, address, s, file, record, words);
    } else {
      ExceptionPdu(TaskOutcome(address, s, buffer, 12).reply, address, 0x14, 2);
    }
  }

  /** A read of registers inside the table, of any quantity: accepted exactly if the registers may be read, and then as
      long as the client expects, with their values. Otherwise an exception, shorter than any answer but the one of no
      registers. */
  lemma RegistersReply(address: byte, s: Store, register: half, quantity: half, before: seq<byte>)
    requires WellFormed(s) && |before| == BUFFER_SIZE && s.link.size == 8
    requires RegisterReadInBounds(s.registers, register, quantity)
    ensures var x := ReadRegisters(address, register, quantity); var o := Serve(address, s, before, Request(x));
            && o.store == s && ChecksumValid(o.reply) && |o.reply| <= Expected(x)
            && (o.verdict == Verdict.NoError <==> ReadableRegisters(s, register, quantity))
            && if o.verdict == Verdict.NoError then
                 |o.reply| == Expected(x) && IsRegisterList(o.reply, address, s, register, quantity)
               else IsException(o.reply, address, 0x03, 2) && (|o.reply| < Expected(x) || quantity == 0)
  {
    hide Request, ChecksumValid, Value, Received, Word, TaskOutcome, WellFormed, ReadableRegisters,
         RegisterReadInBounds, Expected, Be;
    var x := ReadRegisters(address, register, quantity);
    RequestBytes(x);
    AwaitedBytes(x);
    RequestArrives(x, before);
    var buffer := Received(before, Request(x));
    WordIsBe(buffer, 2);
    WordIsBe(buffer, 4);
    RefusedExactly(address, s, buffer, 8);
    if ReadableRegisters(s, register, quantity) {
      AnswersExactly(address, s, buffer, 8);
    }
  }

  lemma RegisterEffect(s: Store, register: half, value: half)
    requires WellFormed(s) && s.link.size == 8 && WritableRegister(s, register)
    requires s.registers[1].action == Control && s.registers[2].action == SetRecordCounter
    ensures var t := RegisterWrite(s, register, value).0;
            && t.registers == s.registers[register - 0x9C40 := s.registers[register - 0x9C40].(value := value)]
            && (register == 0x9C41 ==>
                  && t.link.recordCounter == s.link.recordCounter
                  && t.link.size == if value == 1 then 12 else if value == 2 then 12 + s.recordSize else 8)
            && (register == 0x9C42 ==> t.link == s.link.(recordCounter := value))
  {
  }

  /** What a register write inside the table leaves of the table and the receive length. A node that init has set up
      waits for record reads after a 1 in its control register, for record writes after a 2, and for no other number
      of bytes than before after any other value. */
  lemma RegisterWritten(address: byte, s: Store, register: half, value: half, before: seq<byte>)
    requires WellFormed(s) && |before| == BUFFER_SIZE && s.link.size == 8 && register != 0x9C44
    requires s.registers[1].action == Control && s.registers[2].action == SetRecordCounter
    ensures var o := Serve(address, s, before, Request(WriteRegister(address, register, value))); var t := o.store;
            && (o.verdict == Verdict.NoError <==> WritableRegister(s, register))
            && t == s.(registers := t.registers, link := t.link) && |t.registers| == 4
            && (o.verdict != Verdict.NoError ==> t == s && IsException(o.reply, address, 0x06, 4))
            && (o.verdict == Verdict.NoError ==>
                  && o.reply == Request(WriteRegister(address, register, value))
                  && t.registers == s.registers[register - 0x9C40 := s.registers[register - 0x9C40].(value := value)]
                  && (register == 0x9C41 ==> t.link.recordCounter == s.link.recordCounter
                                             && t.link.size == (if value == 1 then 12
                                                                else if value == 2 then 12 + s.recordSize else 8))
                  && (register == 0x9C42 ==> t.link == s.link.(recordCounter := value)))
  {
    hide Request, ChecksumValid, Value, Received, Word, TaskOutcome, WellFormed, Be, RegisterWrite, WritableRegister;
    var x := WriteRegister(address, register, value);
    RequestBytes(x);
    RequestArrives(x, before);
    var buffer := Received(before, Request(x));
    WordIsBe(buffer, 2);
    RefusedExactly(address, s, buffer, 8);
    RegisterWriteOutcome(s, register, value);
    ServeWriteRegister(address, s, register, value, before);
    if WritableRegister(s, register) {
      RegisterEffect(s, register, value);
      AnswersExactly(address, s, buffer, 8);
    }
  }

  /** A record write: accepted, and then echoed, exactly if it has at most 238 bytes, the record exists and may be
      written, and no platform routine fails. Too long a record is an illegal value, any other a wrong address. */
  lemma RecordReply(address: byte, s: Store, file: half, record: half, data: seq<byte>, before: seq<byte>)
    requires WellFormed(s) && |before| == BUFFER_SIZE && s.link.size == 12 + |data| && |data| <= 241
    ensures var x := WriteRecord(address, file, record, data); var o := Serve(address, s, before, Request(x));
            && (o.verdict == Verdict.NoError <==>
                  |data| <= 238 && WritableRecord(s, file, record, |data| / 2) && !DriverFails(s, file))
            && if o.verdict == Verdict.NoError then o.reply == Request(x)
               else IsException(o.reply, address, 0x15, if |data| > 238 then 3 else 2)
  {
    hide Request, ChecksumValid, Value, Received, Word, TaskOutcome, WellFormed, WritableRecord, DriverFails;
    var x := WriteRecord(address, file, record, data);
    RequestBytes(x);
    RequestArrives(x, before);
    var buffer := Received(before, Request(x));
    RefusedExactly(address, s, buffer, |Request(x)|);
    if Performs(s, buffer) {
      AnswersExactly(address, s, buffer, |Request(x)|);
    }
  }

  /** A ping is a function that no node has: exception 1. */
  lemma PingIsUnknown(address: byte, s: Store, before: seq<byte>)
    requires WellFormed(s) && |before| == BUFFER_SIZE && s.link.size == 8
    ensures var o := Serve(address, s, before, Request(PingServer(address)));
            o.store == s && o.verdict == FunctionException && IsException(o.reply, address, 0xFF, 1)
  {
    hide Request, ChecksumValid, Value, Received, Word, TaskOutcome, WellFormed;
    var x := PingServer(address);
    RequestBytes(x);
    RequestArrives(x, before);
    RefusedExactly(address, s, Received(before, Request(x)), 8);
  }
}
