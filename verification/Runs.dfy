/** What the node keeps over every run of frames, whatever they contain. */
module Runs {
  import opened Bytes
  import opened Frame
  import opened Resources
  import opened Records
  import opened Bounds
  import opened Server
  import opened Node
  import opened Requests
  import opened Client
  import opened Line
  import opened Transfer
  import opened Session

  /** The receive length is one of three, the extended flag is set before it grows, the register table keeps its
      shape with the status register unreadable, and the record size that clients read is the server's. */
  ghost predicate Sound(s: Store) {
    && WellFormed(s) && TransferRegisters(s.registers) && !s.registers[STATUS_REGISTER].attributes.read
    && s.registers[RECORD_SIZE_REGISTER].value == s.recordSize && s.registers[RECORD_SIZE_REGISTER].attributes.read
    && s.link.size in {DEFAULT_SIZE, READ_REQUEST_SIZE, READ_REQUEST_SIZE + s.recordSize}
    && (s.link.extended || s.link.size == DEFAULT_SIZE)
  }

  lemma SoundAtStart(s: Store, registers: seq<Register>)
    requires WellFormed(s) && s.link == Link(false, 0, DEFAULT_SIZE)
    requires registers == seq(REGISTER_COUNT, _ => DEFAULT_REGISTER)
             && s.registers == WithInitialRegisters(registers, s.recordSize)
    ensures Sound(s)
  {
  }

  /** Everything but the bytes of the files and the progress of a transfer. */
  ghost predicate SameLayout(s: Store, t: Store) {
    && t.recordSize == s.recordSize && t.flash == s.flash && |s.files| == |t.files| == FILE_COUNT
    && forall i :: 0 <= i < FILE_COUNT ==> SameShape(s.files[i], t.files[i])
  }

  lemma RegisterWriteIsSound(s: Store, address: half, value: half)
    requires Sound(s) && RegisterWriteInBounds(address)
    ensures Sound(RegisterWrite(s, address, value).0) && SameLayout(s, RegisterWrite(s, address, value).0)
  {
  }

  lemma RecordWriteIsSound(s: Store, service: FileService, data: seq<byte>)
    requires Sound(s) && s.recordSize <= |data|
    ensures Sound(RecordWrite(s, service, data).0) && SameLayout(s, RecordWrite(s, service, data).0)
  {
    hide TransferRegisters;
    WriteKeeps(s, service, data);
    AccessOutcome(s, service);
    hide Access, Overwrite;
  }

  lemma RecordReadIsSound(s: Store, service: FileService)
    requires Sound(s)
    ensures Sound(RecordRead(s, service).0) && SameLayout(s, RecordRead(s, service).0)
  {
    hide TransferRegisters;
    AccessOutcome(s, service);
    hide Access, RecordAnswer;
  }

  lemma ServeIsSound(address: byte, s: Store, before: seq<byte>, frame: seq<byte>)
    requires Sound(s) && |before| == BUFFER_SIZE && WellFormed(s) && FrameInBounds(address, s, before, frame)
    ensures var t := Serve(address, s, before, frame).store; Sound(t) && SameLayout(s, t)
  {
    hide Be, Le, ReferenceOk, RegisterRead, ServiceAt, ExceptionReply, Sealed, Received, RegisterWrite, RecordWrite,
         RecordRead, Sound, Crc.Checksum, RegisterWriteInBounds, RegisterReadInBounds;
    SoundShape(s);
    if |frame| == s.link.size {
      var buffer := Received(before, frame);
      if RegisterWriteInBounds(Be(buffer[2], buffer[3])) {
        RegisterWriteIsSound(s, Be(buffer[2], buffer[3]), Be(buffer[4], buffer[5]));
      }
      RecordWriteIsSound(s, ServiceAt(buffer), buffer[10..]);
      RecordReadIsSound(s, ServiceAt(buffer));
    }
  }

  lemma SoundShape(s: Store)
    requires Sound(s)
    ensures WellFormed(s) && SameLayout(s, s)
  {
  }

  /** The first j frames of a run leave the source inside its register table. */
  ghost predicate RunInBounds(address: byte, s: Store, ws: seq<Crossing>, j: nat)
    requires WellFormed(s) && Buffers(ws) && j <= |ws|
  {
    forall k :: 0 <= k < j ==> FrameInBounds(address, Through(address, s, ws, k), ws[k].before, ws[k].arrived)
  }

  /** Whatever frames arrive, in whatever order, of whatever length, as long as none makes the source leave its
      table; which ones do, BoundsOfFrame says. A platform that hands a longer byte string to the node piece by
      piece, as much as the node waits for at a time, is such a run: its frames are the pieces. */
  lemma {:induction false} RunIsSound(address: byte, s: Store, ws: seq<Crossing>, j: nat)
    requires Sound(s) && WellFormed(s) && Buffers(ws) && j <= |ws| && RunInBounds(address, s, ws, j)
    ensures Sound(Through(address, s, ws, j)) && SameLayout(s, Through(address, s, ws, j))
    decreases j
  {
    hide Serve, Sound, WellFormed, FrameInBounds;
    SoundShape(s);
    if j > 0 {
      RunIsSound(address, s, ws, j - 1);
      ServeIsSound(address, Through(address, s, ws, j - 1), ws[j - 1].before, ws[j - 1].arrived);
    }
  }

  /** On a sound node, which frames make the source leave its register table: intact requests under the node's
      address, as long as the node waits for, that write the register behind the last one or read more than four
      from there on or behind. */
  lemma BoundsOfFrame(address: byte, s: Store, before: seq<byte>, frame: seq<byte>)
    requires Sound(s) && WellFormed(s) && |before| == BUFFER_SIZE
    ensures var buffer := Received(before, if |frame| <= BUFFER_SIZE then frame else []);
            var register, quantity := Be(buffer[2], buffer[3]), Be(buffer[4], buffer[5]);
            !FrameInBounds(address, s, before, frame) <==>
              && |frame| == s.link.size && frame[0] == address && ChecksumValid(frame)
              && ((frame[1] == WRITE_REGISTER && register == 0x9C44)
                  || (frame[1] == READ_REGISTERS && quantity > 4 && register > 0x9C43))
  {
    hide Be, Le, Crc.Checksum, ChecksumValid, RegisterWriteInBounds, RegisterReadInBounds, TransferRegisters;
    if |frame| == s.link.size {
      var buffer := Received(before, frame);
      assert buffer[..|frame|] == frame && buffer[0] == frame[0] && buffer[1] == frame[1];
      RequestCheck(buffer, |frame|);
      WriteLeavesTable(Be(buffer[2], buffer[3]));
      ReadLeavesTable(s.registers, Be(buffer[2], buffer[3]), Be(buffer[4], buffer[5]));
    }
  }

  /** The same for the requests of a client. */
  lemma BoundsOfRequest(address: byte, s: Store, before: seq<byte>, register: half, value: half)
    requires Sound(s) && WellFormed(s) && |before| == BUFFER_SIZE && s.link.size == DEFAULT_SIZE
    ensures !FrameInBounds(address, s, before, Request(WriteRegister(address, register, value))) <==> register == 0x9C44
    ensures !FrameInBounds(address, s, before, Request(ReadRegisters(address, register, value)))
            <==> value > 4 && register > 0x9C43
  {
    hide Sound, WellFormed, FrameInBounds, Be, Sealed, Received, Le, Crc.Checksum, ChecksumValid, RegisterBody;
    RegisterRequestDecodes(address, WRITE_REGISTER, register, value, before);
    RegisterRequestDecodes(address, READ_REGISTERS, register, value, before);
    RegisterFrame(address, WRITE_REGISTER, register, value);
    RegisterFrame(address, READ_REGISTERS, register, value);
    BoundsOfFrame(address, s, before, Request(WriteRegister(address, register, value)));
    BoundsOfFrame(address, s, before, Request(ReadRegisters(address, register, value)));
  }

  lemma RegisterFrame(address: byte, func: byte, register: half, value: half)
    ensures var frame := Message(Rtu, address, func, RegisterBody(register, value));
            |frame| == 8 && frame[0] == address && frame[1] == func && ChecksumValid(frame)
  {
    hide LowByte, HighByte, Crc.Checksum, BeBytes, ChecksumValid;
    SealedIsValid([address, func] + RegisterBody(register, value));
  }

  /** What the record size register answers: a server that waits for eight bytes always lets a client learn its
      record size, which survives the client's narrowing of register values to bytes. */
  lemma RecordSizeIsLearnt(address: byte, s: Store, before: seq<byte>)
    requires Sound(s) && s.link.size == DEFAULT_SIZE && |before| == BUFFER_SIZE
    ensures var x := ReadRegisters(address, HOLDING_OFFSET, 1);
            var o := Serve(address, s, before, Request(x));
            && o.verdict == Verdict.NoError && o.store == s
            && ChecksumValid(o.reply) && |o.reply| == Expected(x) == 7
            && var pdu := Pdu(o.reply);
               && Value(pdu[1]) == 2 && Be(pdu[2], pdu[3]) == s.recordSize && Value(pdu[3]) == s.recordSize
  {
    hide Le, Sealed, Received, ExceptionReply, Crc.Checksum, TransferRegisters, ReferenceOk, ServiceAt, ToByte, Value,
         Be, BeBytes, RegisterRead, RegisterAnswer, ChecksumValid, Pdu, RegisterBody;
    RegisterRequestDecodes(address, READ_REGISTERS, HOLDING_OFFSET, 1, before);
    FirstRegister(s);
    AnswerPdu(address, s.recordSize);
  }

  lemma AnswerPdu(address: byte, size: nat)
    requires size < 0x100
    ensures var frame := Sealed([address, READ_REGISTERS] + ([ToByte(2)] + BeBytes(size)));
            && ChecksumValid(frame) && |frame| == 7
            && var pdu := Pdu(frame);
               |pdu| == 4 && Value(pdu[1]) == 2 && Be(pdu[2], pdu[3]) == size && Value(pdu[3]) == size
  {
    hide LowByte, HighByte, Crc.Checksum, ToByte, Value, ChecksumValid, Be;
    SealedIsValid([address, READ_REGISTERS] + ([ToByte(2)] + BeBytes(size)));
    ValueOfToByte(2);
    ValueOfToByte(size);
    BeRoundTrip(size);
  }

  lemma FirstRegister(s: Store)
    requires Sound(s)
    ensures RegisterRead(s, HOLDING_OFFSET, 1) == Data(RegisterAnswer(s.registers[..1]))
    ensures RegisterAnswer(s.registers[..1]) == [ToByte(2)] + BeBytes(s.recordSize)
  {
  }

  // ---------- The receive length over its settings ----------

  /** The receive length and its flag after a run of settings. */
  ghost function Settings(link: Link, sizes: seq<nat>): Link {
    if |sizes| == 0 then link else WithBufferSize(Settings(link, sizes[..|sizes| - 1]), sizes[|sizes| - 1])
  }

  /** The flag stays once a length above eight was set; the length is the last one set that is not below eight; the
      record counter is not touched. */
  lemma {:induction false} SettingsExactly(link: Link, sizes: seq<nat>)
    ensures var l := Settings(link, sizes);
            && l.recordCounter == link.recordCounter
            && (l.extended <==> link.extended || exists i :: 0 <= i < |sizes| && sizes[i] > 8)
            && ((l.size == link.size && forall i :: 0 <= i < |sizes| ==> sizes[i] < 8)
                || exists i :: 0 <= i < |sizes| && sizes[i] == l.size >= 8
                               && forall j :: i < j < |sizes| ==> sizes[j] < 8)
    decreases |sizes|
  {
    if |sizes| > 0 {
      SettingsExactly(link, sizes[..|sizes| - 1]);
    }
  }
}
