/** One exchange over a faulty line. */
module Line {
  import opened Bytes
  import opened Crc
  import opened Detection
  import opened Frame
  import opened Resources
  import opened Server
  import opened Node
  import opened Requests
  import opened Client

  /** What a line may make of a frame: deliver it, lose it, or damage it detectably. */
  ghost predicate Carries(sent: seq<byte>, got: seq<byte>) {
    || got == sent
    || got == []
    || exists e :: |e| == |sent| && Detectable(e) && got == XorBytes(sent, e)
  }

  /** One exchange as it happened: the node's buffer before, the frame that reached the server,
      and the frame that reached the client. */
  datatype Crossing = Crossing(before: seq<byte>, arrived: seq<byte>, carried: seq<byte>)

  /** The client reads no more bytes than it expects. */
  function Taken(bytes: seq<byte>, limit: nat): seq<byte> {
    if |bytes| > limit then bytes[..limit] else bytes
  }

  function Heard(x: Exchange, w: Crossing): seq<byte> {
    Taken(w.carried, Expected(x))
  }

  function Served(address: byte, s: Store, w: Crossing): Outcome
    requires WellFormed(s) && |w.before| == BUFFER_SIZE
  {
    Serve(address, s, w.before, w.arrived)
  }

  /** At most one of the two frames of an exchange is lost or damaged. */
  ghost predicate Crosses(address: byte, s: Store, x: Exchange, w: Crossing)
    requires WellFormed(s)
  {
    && |w.before| == BUFFER_SIZE
    && var reply := Served(address, s, w).reply;
       || (w.arrived == Request(x) && Carries(reply, w.carried))
       || (Carries(Request(x), w.arrived) && w.carried == reply)
  }

  /** The exchanges a file transfer consists of. */
  predicate TransferExchange(x: Exchange) {
    x.WriteRegister? || x.ReadRecord? || (x.WriteRecord? && |x.data| <= 241)
  }

  /** What the exchange asks for lies inside the server's register table. */
  predicate Bounded(x: Exchange) {
    x.WriteRegister? ==> RegisterWriteInBounds(x.register)
  }

  function Code(x: Exchange): byte {
    match x
    case PingServer(_) => UNDEFINED_FUNCTION
    case WriteRegister(_, _, _) => WRITE_REGISTER
    case ReadRegisters(_, _, _) => READ_REGISTERS
    case ReadRecord(_, _, _, _) => READ_FILE
    case WriteRecord(_, _, _, _) => WRITE_FILE
  }

  lemma RequestIsValid(x: Exchange)
    requires TransferExchange(x)
    ensures ChecksumValid(Request(x)) && DEFAULT_SIZE <= |Request(x)| <= BUFFER_SIZE && Request(x)[0] == x.address
    ensures |Request(x)| == match x
                            case WriteRecord(_, _, _, data) => 12 + |data|
                            case ReadRecord(_, _, _, _) => 12
                            case _ => 8
    ensures Expected(x) == if x.ReadRecord? then 7 + 2 * x.words else |Request(x)|
    ensures Code(x) in {WRITE_REGISTER, READ_FILE, WRITE_FILE} && (Code(x) == READ_FILE <==> x.ReadRecord?)
  {
    hide Sealed, BeBytes, ToByte;
    match x {
      case WriteRegister(a, register, value) => SealedIsValid([a, WRITE_REGISTER] + RegisterBody(register, value));
      case ReadRecord(a, file, record, words) => SealedIsValid([a, READ_FILE] + ReadRecordBody(file, record, words));
      case WriteRecord(a, file, record, data) => SealedIsValid([a, WRITE_FILE] + WriteRecordBody(file, record, data));
    }
    SealedHead(x);
  }

  lemma SealedHead(x: Exchange)
    requires TransferExchange(x)
    ensures |Request(x)| > 0 && Request(x)[0] == x.address
  {
    hide LowByte, HighByte, Checksum, BeBytes, ToByte;
  }

  lemma RequestCode(x: Exchange, before: seq<byte>)
    requires |before| == BUFFER_SIZE && TransferExchange(x)
    ensures |Request(x)| <= BUFFER_SIZE
    ensures var buffer := Received(before, Request(x));
            && buffer[1] == Code(x)
            && (x.ReadRecord? ==> ServiceAt(buffer).words == x.words)
            && (x.WriteRegister? ==> Be(buffer[2], buffer[3]) == x.register)
  {
    RequestIsValid(x);
    hide Message, Received, ServiceAt, Be, ReferenceOk, Le, Checksum, ChecksumValid, WriteRecordBody, ReadRecordBody,
         RegisterBody;
    match x {
      case WriteRegister(a, register, value) => RegisterRequestDecodes(a, WRITE_REGISTER, register, value, before);
      case ReadRecord(a, file, record, words) => ReadRequestDecodes(a, file, record, words, before);
      case WriteRecord(a, file, record, data) => WriteRequestDecodes(a, file, record, data, before);
    }
  }

  /** An intact request gets the reply the client expects, or a five-byte exception; both are valid. */
  lemma IntactRequest(address: byte, s: Store, x: Exchange, before: seq<byte>)
    requires WellFormed(s) && |before| == BUFFER_SIZE && TransferExchange(x) && Bounded(x) && x.address == address
    requires |Request(x)| == s.link.size
    ensures var o := Serve(address, s, before, Request(x));
            && ChecksumValid(o.reply) && |o.reply| <= BUFFER_SIZE && |o.reply| <= Expected(x)
            && (o.verdict == Verdict.NoError ==> |o.reply| == Expected(x) && (x.ReadRecord? || o.reply == Request(x)))
            && (o.verdict != Verdict.NoError ==>
                  |o.reply| == 5 < Expected(x) && o.store.files == s.files && o.store.registers == s.registers)
  {
    hide Answered, TaskOutcome, ChecksumValid, Request, Received, ServiceAt, Be, WellFormed, TransferExchange;
    RequestIsValid(x);
    RequestCode(x, before);
    var buffer := Received(before, Request(x));
    assert buffer[0] == buffer[..|Request(x)|][0];
    ReplyKinds(address, s, buffer, |Request(x)|);
    AnswerShape(address, s, buffer, |Request(x)|);
  }

  /** A damaged request changes nothing; it comes back unchanged or as a five-byte exception. */
  lemma DamagedRequest(address: byte, s: Store, x: Exchange, before: seq<byte>, arrived: seq<byte>)
    requires WellFormed(s) && |before| == BUFFER_SIZE && TransferExchange(x)
    requires arrived != Request(x) && Carries(Request(x), arrived)
    ensures !ChecksumValid(arrived)
    ensures var o := Serve(address, s, before, arrived);
            && o.store == s
            && (o.reply == [] || o.reply == arrived || |o.reply| == 5)
  {
    assert s.link.size >= DEFAULT_SIZE;
    NothingIsInvalid();
    hide TaskOutcome, Received, Request, WellFormed, Detectable, ChecksumValid;
    RequestIsValid(x);
    if arrived != [] {
      var e :| |e| == |Request(x)| && Detectable(e) && arrived == XorBytes(Request(x), e);
      DamageIsRejected(Request(x), e);
      if |arrived| == s.link.size {
        var buffer := Received(before, arrived);
        assert buffer[..|arrived|] == arrived;
        ReplyKinds(address, s, buffer, |arrived|);
        ExceptionReplyIsValid(address, buffer[1], 3);
      }
    }
  }

  /** What it means that the client accepts a response, whatever the line did. A frame of the request's length was
      taken by a server that waited for exactly that many bytes. If the request arrived intact, it was performed and
      the response is the server's reply; otherwise the server did nothing. Where the client waits for at least as
      many bytes as it sent, only the former happens. */
  lemma AcceptedIsGenuine(address: byte, s: Store, x: Exchange, w: Crossing)
    requires WellFormed(s) && TransferExchange(x) && Bounded(x) && x.address == address
    requires Crosses(address, s, x, w)
    requires ChecksumValid(Heard(x, w)) && |Heard(x, w)| == Expected(x)
    ensures |w.before| == BUFFER_SIZE && |w.arrived| == |Request(x)| == s.link.size
    ensures w.arrived == Request(x) ==>
              Served(address, s, w).verdict == Verdict.NoError && Heard(x, w) == Served(address, s, w).reply
    ensures w.arrived != Request(x) ==> Served(address, s, w).store == s
    ensures |Request(x)| <= Expected(x) ==> w.arrived == Request(x)
  {
    hide TaskOutcome, Received, Request, WellFormed, Detectable, ChecksumValid;
    RequestIsValid(x);
    NothingIsInvalid();
    if w.arrived != Request(x) {
      DamagedRequest(address, s, x, w.before, w.arrived);
    } else if |Request(x)| == s.link.size {
      IntactRequest(address, s, x, w.before);
      IntactReply(Served(address, s, w).reply, Expected(x), w.carried);
    } else {
      IntactReply([], Expected(x), w.carried);
    }
  }

  /** Where the client waits for at least as many bytes as it sent, it reads all that arrives: nothing is left for a
      later exchange. */
  lemma NothingIsLeft(address: byte, s: Store, x: Exchange, w: Crossing)
    requires WellFormed(s) && TransferExchange(x) && Bounded(x) && x.address == address
    requires Crosses(address, s, x, w) && |Request(x)| <= Expected(x)
    ensures |w.carried| <= Expected(x) && Heard(x, w) == w.carried
  {
    hide TaskOutcome, Received, Request, WellFormed, Detectable, ChecksumValid;
    RequestIsValid(x);
    if w.arrived != Request(x) {
      DamagedRequest(address, s, x, w.before, w.arrived);
    } else if |Request(x)| == s.link.size {
      IntactRequest(address, s, x, w.before);
    }
  }

  lemma NothingIsInvalid()
    ensures !ChecksumValid([])
  {
  }

  /** Of a reply that is not longer than expected, the client accepts nothing but the reply itself. */
  lemma IntactReply(reply: seq<byte>, expected: nat, carried: seq<byte>)
    requires Carries(reply, carried) && |reply| <= expected && |reply| < 0x1_0000
    requires reply == [] || ChecksumValid(reply)
    ensures Taken(carried, expected) == carried
    ensures ChecksumValid(carried) ==> carried == reply
  {
    NothingIsInvalid();
    hide ChecksumValid, Detectable;
    if carried != reply && carried != [] {
      var e :| |e| == |reply| && Detectable(e) && carried == XorBytes(reply, e);
      DamageIsRejected(reply, e);
    }
  }
}
