/** What each exchange of a transfer does to the server when its request arrives intact. */
module Steps {
  import opened Bytes
  import opened Crc
  import opened Frame
  import opened Resources
  import opened Server
  import opened Node
  import opened Requests
  import opened Client
  import opened Line

  /** An intact request of the right length is answered, not rejected. */
  lemma IntactIsAnswered(address: byte, s: Store, x: Exchange, before: seq<byte>)
    requires WellFormed(s) && |before| == BUFFER_SIZE && TransferExchange(x) && x.address == address
    requires |Request(x)| == s.link.size
    ensures DEFAULT_SIZE <= |Request(x)| <= BUFFER_SIZE
    ensures Serve(address, s, before, Request(x)) == Answered(address, s, Received(before, Request(x)), |Request(x)|)
    ensures Received(before, Request(x))[1] == Code(x)
  {
    hide Answered, TaskOutcome, ChecksumValid, Request, Received, ServiceAt, Be, WellFormed, TransferExchange;
    RequestIsValid(x);
    RequestCode(x, before);
    var buffer := Received(before, Request(x));
    assert buffer[0] == buffer[..|Request(x)|][0];
    ReplyKinds(address, s, buffer, |Request(x)|);
  }

  lemma ServeWriteRegister(address: byte, s: Store, register: half, value: half, before: seq<byte>)
    requires WellFormed(s) && |before| == BUFFER_SIZE && s.link.size == DEFAULT_SIZE && RegisterWriteInBounds(register)
    ensures var o, (t, ok) := Serve(address, s, before, Request(WriteRegister(address, register, value))),
            RegisterWrite(s, register, value);
            o.store == t && (o.verdict == Verdict.NoError <==> ok)
  {
    hide RegisterWrite, Message, RegisterBody, Received, Be, WellFormed, ExceptionReply, Serve, Le, Checksum;
    var x := WriteRegister(address, register, value);
    RequestIsValid(x);
    IntactIsAnswered(address, s, x, before);
    RegisterRequestDecodes(address, WRITE_REGISTER, register, value, before);
  }

  lemma ServeReadRecord(address: byte, s: Store, file: half, record: half, words: half, before: seq<byte>)
    requires WellFormed(s) && |before| == BUFFER_SIZE && s.link.size == READ_REQUEST_SIZE
    ensures var o := Serve(address, s, before, Request(ReadRecord(address, file, record, words)));
            var (t, answer) := RecordRead(s, FileService(file, record, words));
            && o.store == t && (o.verdict == Verdict.NoError <==> answer.Data?)
            && (answer.Data? ==> o.reply == Sealed([address, READ_FILE] + answer.payload))
  {
    hide RecordRead, Message, ReadRecordBody, Received, Be, WellFormed, ExceptionReply, Serve, Le, Checksum,
         ReferenceOk, ServiceAt, Sealed;
    var x := ReadRecord(address, file, record, words);
    RequestIsValid(x);
    IntactIsAnswered(address, s, x, before);
    ReadRequestDecodes(address, file, record, words, before);
  }

  lemma ServeWriteRecord(address: byte, s: Store, file: half, record: half, data: seq<byte>, before: seq<byte>)
    requires WellFormed(s) && |before| == BUFFER_SIZE && s.link.size == READ_REQUEST_SIZE + |data| && |data| <= 238
    ensures var o, buffer := Serve(address, s, before, Request(WriteRecord(address, file, record, data))),
                             Received(before, Request(WriteRecord(address, file, record, data)));
            var (t, ok) := RecordWrite(s, FileService(file, record, |data| / 2), buffer[10..]);
            && buffer[10..][..|data|] == data
            && o.store == t && (o.verdict == Verdict.NoError <==> ok)
  {
    hide RecordWrite, Message, WriteRecordBody, Received, Be, WellFormed, ExceptionReply, Serve, Le, Checksum,
         ReferenceOk, ServiceAt;
    var x := WriteRecord(address, file, record, data);
    RequestIsValid(x);
    IntactIsAnswered(address, s, x, before);
    WriteRequestDecodes(address, file, record, data, before);
  }
}
