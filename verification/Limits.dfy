/** Where the guarantees end: inputs outside the conditions of the main results, and what happens there. */
module Limits {
  import opened Bytes
  import opened Crc
  import opened Detection
  import opened Frame
  import opened Resources
  import opened Records
  import opened Server
  import opened Node
  import opened Requests
  import opened Client
  import opened Line
  import opened Steps
  import opened Transfer
  import opened Reading

  // ---------- Addresses ----------

  /** A request for another node is sent back as it came. */
  lemma OthersAreEchoed(address: byte, s: Store, x: Exchange, before: seq<byte>)
    requires WellFormed(s) && |before| == BUFFER_SIZE && TransferExchange(x) && x.address != address
    requires |Request(x)| == s.link.size
    ensures Serve(address, s, before, Request(x)) == Outcome(s, Request(x), AddressNotRecognized)
  {
    hide Request, Answered, ChecksumValid, ExceptionReply, TaskOutcome, WellFormed;
    RequestIsValid(x);
    var buffer := Received(before, Request(x));
    assert buffer[0] == buffer[..|Request(x)|][0];
    ReplyKinds(address, s, buffer, |Request(x)|);
  }

  /** When a delivered register write is confirmed to the client, and when it takes place: a node that does not own
      the address confirms the write without performing it. A write for the node itself has to stay inside its table. */
  lemma ConfirmedAndPerformed(address: byte, s: Store, x: Exchange, w: Crossing)
    requires WellFormed(s) && s.link.size == DEFAULT_SIZE && x.WriteRegister? && Delivered(address, s, x, w)
    requires x.address == address ==> RegisterWriteInBounds(x.register)
    ensures Satisfies(x, w) <==> x.address != address || RegisterWrite(s, x.register, x.value).1
    ensures Served(address, s, w).store == if x.address == address then RegisterWrite(s, x.register, x.value).0 else s
  {
    hide Request, WellFormed, RegisterWrite, Serve, ChecksumValid;
    RequestIsValid(x);
    if x.address == address {
      ServeWriteRegister(address, s, x.register, x.value, w.before);
      IntactRequest(address, s, x, w.before);
    } else {
      OthersAreEchoed(address, s, x, w.before);
    }
  }

  // ---------- Pings ----------

  lemma PingRequest(address: byte, before: seq<byte>)
    requires |before| == BUFFER_SIZE
    ensures var frame := Request(PingServer(address));
            |frame| == 8 && ChecksumValid(frame) && frame[0] == address
                && Received(before, frame)[1] == UNDEFINED_FUNCTION
  {
    hide LowByte, HighByte, Checksum, ToByte, ChecksumValid;
    SealedIsValid([address, UNDEFINED_FUNCTION, 0, 0, 0, 0]);
    assert [address, UNDEFINED_FUNCTION] + [0, 0, 0, 0] == [address, UNDEFINED_FUNCTION, 0, 0, 0, 0];
  }

  /** A node answers a ping with an exception of five bytes, and the client takes any valid five bytes for the
      answer. So a ping whose answer is delivered marks the node as available exactly if it arrived, damaged or not,
      under the node's address, or if it came back damaged with a valid beginning. In any case the node changes
      nothing. */
  lemma PingConfirmed(address: byte, s: Store, w: Crossing, c: ClientState)
    requires WellFormed(s) && |w.before| == BUFFER_SIZE && s.link.size == DEFAULT_SIZE
    requires Carries(Request(PingServer(address)), w.arrived) && w.carried == Served(address, s, w).reply
    requires c.info.task.PingTask? && c.info.fault == NoFault
    ensures Served(address, s, w).store == s && (w.arrived != [] ==> Served(address, s, w).verdict != Verdict.NoError)
    ensures var d := Step(c, PingServer(address), Heard(PingServer(address), w));
            && (d.info.fault == NoFault
               <==> w.arrived != [] && (w.arrived[0] == address || ChecksumValid(w.arrived[..5])))
            && (d.info.fault == NoFault ==> d.available)
  {
    hide Request, ChecksumValid, Detectable, WellFormed, Serve, Pdu, ExceptionReply;
    PingRequest(address, w.before);
    PingReply(address, s, w.before, w.arrived);
    NothingIsInvalid();
  }

  lemma PingReply(address: byte, s: Store, before: seq<byte>, arrived: seq<byte>)
    requires WellFormed(s) && |before| == BUFFER_SIZE && s.link.size == DEFAULT_SIZE
    requires Carries(Request(PingServer(address)), arrived)
    ensures arrived == [] || |arrived| == 8
    ensures var o := Serve(address, s, before, arrived);
            && o.store == s && (arrived != [] ==> o.verdict != Verdict.NoError)
            && if arrived == [] then o.reply == []
               else if arrived[0] == address then |o.reply| == 5 && ChecksumValid(o.reply)
               else o.reply == arrived
  {
    hide Request, ChecksumValid, Detectable, WellFormed, TaskOutcome, RegisterRead, RegisterWrite, RecordRead,
         RecordWrite, ReferenceOk, ExceptionReply, Received, Pdu;
    PingRequest(address, before);
    if arrived != [] {
      var buffer := Received(before, arrived);
      assert |arrived| == 8 && buffer[0] == buffer[..8][0];
      ReplyKinds(address, s, buffer, 8);
      ExceptionReplyIsValid(address, buffer[1], 1);
      ExceptionReplyIsValid(address, buffer[1], 3);
      if arrived != Request(PingServer(address)) {
        var e :| |e| == 8 && Detectable(e) && arrived == XorBytes(Request(PingServer(address)), e);
        DamageIsRejected(Request(PingServer(address)), e);
      }
    }
  }

  // ---------- Record sizes ----------

  /** A record of odd size is sent as size/2 half words: the write arrives whole exactly if the byte that is left out
      was there already. */
  lemma OddRecord(s: Store, service: FileService, data: seq<byte>)
    requires WellFormed(s) && s.recordSize <= |data| && service.words == s.recordSize / 2 && service.file > 0
    requires RecordWrite(s, service, data).1 && !s.files[service.file - 1].attributes.flash
    requires HasRecord(s, service.file - 1, service.record) && s.recordSize > 0
    ensures var t, i, n := RecordWrite(s, service, data).0, service.file - 1, s.recordSize;
            && HasRecord(t, i, service.record)
            && (Record(t, i, service.record) == data[..n] <==>
                  n % 2 == 0 || data[n - 1] == Record(s, i, service.record)[n - 1])
  {
    hide RecordWrite, Record;
    WriteReplacesOneRecord(s, service, data, service.file - 1, service.record);
    EvenHead(Record(s, service.file - 1, service.record), data, s.recordSize);
  }

  lemma EvenHead(older: seq<byte>, data: seq<byte>, n: nat)
    requires |older| == n <= |data| && n > 0
    ensures data[..2 * (n / 2)] + older[2 * (n / 2)..] == data[..n] <==> n % 2 == 0 || data[n - 1] == older[n - 1]
  {
    var mixed := data[..2 * (n / 2)] + older[2 * (n / 2)..];
    if n % 2 == 1 {
      assert mixed[n - 1] == older[n - 1];
      assert forall k :: 0 <= k < n - 1 ==> mixed[k] == data[k];
    }
  }

  /** Above 238 bytes the byte counter of a write request is out of the range the server accepts. */
  lemma LargeRecordIsRefused(address: byte, s: Store, file: half, record: half, data: seq<byte>, before: seq<byte>)
    requires WellFormed(s) && |before| == BUFFER_SIZE && 238 < |data| <= 241
             && s.link.size == READ_REQUEST_SIZE + |data|
    ensures var o := Serve(address, s, before, Request(WriteRecord(address, file, record, data)));
            o.verdict == FunctionException && o.store == s
  {
    hide RecordWrite, Message, WriteRecordBody, Received, Be, WellFormed, ExceptionReply, Serve, Le, Checksum,
         ReferenceOk, ServiceAt;
    var x := WriteRecord(address, file, record, data);
    RequestIsValid(x);
    IntactIsAnswered(address, s, x, before);
    WriteRequestDecodes(address, file, record, data, before);
  }

  // ---------- Short read responses ----------

  lemma ByteParity(b: byte)
    ensures Ones(ByteBits(b)) % 2 == 1 <==> OddRegister(Widen(b))
  {
    hide OddRegister, Widen, ShiftBit, ShiftDown, Ones;
    FeedByte(0, b);
    XorWithZero(Widen(b));
    FeedParity(0, ByteBits(b));
    OddConstants();
    ShiftsKeepParity(Xor(0, Widen(b)), 8);
  }

  lemma {:induction false} ShiftsKeepParity(c: bv16, n: nat)
    ensures OddRegister(Shifts(c, n)) == OddRegister(c)
    decreases n
  {
    hide OddRegister, ShiftBit;
    if n > 0 {
      ShiftsKeepParity(c, n - 1);
      OddShift(Shifts(c, n - 1));
    }
  }

  lemma {:induction false} OnesAppend(a: seq<bool>, b: seq<bool>)
    ensures Ones(a + b) == Ones(a) + Ones(b)
    decreases |b|
  {
    if |b| == 0 {
      assert a + b == a;
    } else {
      assert (a + b)[..|a + b| - 1] == a + b[..|b| - 1];
      OnesAppend(a, b[..|b| - 1]);
    }
  }

  lemma FlippedLowBit(b: byte)
    ensures Widen(XorByte(b, 1)) == Xor(Widen(b), 1)
  {
  }

  /** Of two patterns that differ in one bit of the last byte, one has an odd number of ones. */
  lemma OneIsOdd(e: seq<byte>, b: byte)
    ensures Detectable(e + [b]) || Detectable(e + [XorByte(b, 1)])
  {
    hide BitsOf, ByteBits, Ones, OddRegister, Widen, XorByte, Xor, Burst;
    BitsOfAppend(e, b);
    BitsOfAppend(e, XorByte(b, 1));
    OnesAppend(BitsOf(e), ByteBits(b));
    OnesAppend(BitsOf(e), ByteBits(XorByte(b, 1)));
    ByteParity(b);
    ByteParity(XorByte(b, 1));
    FlippedLowBit(b);
    OddXor(Widen(b), 1);
    OddConstants();
  }

  /** The forged frame: a read reply from another node, with any payload. */
  function Forged(address: byte, payload: seq<byte>): seq<byte> {
    Sealed([XorByte(address, 1), READ_FILE] + RecordAnswer(payload))
  }

  lemma ForgedShape(address: byte, payload: seq<byte>)
    requires |payload| <= 4
    ensures var frame := Forged(address, payload);
            && |frame| == 7 + |payload| && ChecksumValid(frame) && frame[0] == XorByte(address, 1)
               && Pdu(frame) == ReadPdu(payload)
  {
    hide LowByte, HighByte, Checksum, ToByte, ChecksumValid, XorByte;
    SealedIsValid([XorByte(address, 1), READ_FILE] + RecordAnswer(payload));
  }

  lemma OtherAddress(address: byte)
    ensures XorByte(address, 1) != address
  {
  }

  lemma XorTwice(a: seq<byte>, b: seq<byte>)
    requires |a| == |b|
    ensures XorBytes(a, XorBytes(a, b)) == b
  {
    forall k | 0 <= k < |a| ensures XorByte(a[k], XorByte(a[k], b[k])) == b[k] {
      XorByteTwice(a[k], b[k]);
    }
    hide XorByte;
  }

  lemma XorByteTwice(a: byte, b: byte)
    ensures XorByte(a, XorByte(a, b)) == b
    ensures XorByte(a, XorByte(b, 1)) == XorByte(XorByte(a, b), 1)
  {
  }

  /** A detectable damage that turns `frame` into one that starts with `head`, as long as a byte is left to even out
      the bits. */
  lemma DamageInto(frame: seq<byte>, head: seq<byte>) returns (got: seq<byte>)
    requires |head| < |frame|
    ensures |got| == |frame| && head <= got && Carries(frame, got)
  {
    hide XorByte, Detectable;
    var n := |frame| - 1;
    var rest := head + frame[|head|..n];
    var e, b := XorBytes(frame[..n], rest), XorByte(frame[n], frame[n]);
    OneIsOdd(e, b);
    if Detectable(e + [b]) {
      got := rest + [frame[n]];
      assert XorBytes(frame, got) == e + [b];
    } else {
      got := rest + [XorByte(frame[n], 1)];
      XorByteTwice(frame[n], frame[n]);
      assert XorBytes(frame, got) == e + [XorByte(b, 1)];
    }
    XorTwice(frame, got);
  }

  /** Where the client waits for fewer bytes than its request has, any valid frame of the expected length from
      another address can be passed off as the response: there is a damaged request that the node sends back and
      that begins with that frame. */
  lemma ForgedResponse(address: byte, s: Store, x: Exchange, frame: seq<byte>, before: seq<byte>) returns (w: Crossing)
    requires WellFormed(s) && s.link.size == READ_REQUEST_SIZE && |before| == BUFFER_SIZE && x.ReadRecord?
    requires |frame| == Expected(x) < READ_REQUEST_SIZE && ChecksumValid(frame) && frame[0] != address
             && frame[0] != x.address
    ensures Crosses(address, s, x, w) && w.arrived != Request(x) && Satisfies(x, w) && Heard(x, w) == frame
    ensures Served(address, s, w).store == s
  {
    hide Request, ChecksumValid, WellFormed, TaskOutcome, Answered, ExceptionReply, Detectable;
    RequestIsValid(x);
    var got := DamageInto(Request(x), frame);
    w := Crossing(before, got, got);
    var buffer := Received(before, got);
    assert buffer[0] == buffer[..|got|][0] == got[..|frame|][0] == frame[0];
    assert buffer[..|got|] == got && got[..|frame|] == frame;
    ReplyKinds(address, s, buffer, |got|);
  }

  /** For any payload of up to two half words: the client takes it for the record, the server has seen nothing of it. */
  lemma ShortReadIsForged(address: byte, s: Store, file: half, record: half, words: half, payload: seq<byte>,
                          before: seq<byte>)
    returns (w: Crossing)
    requires WellFormed(s) && s.link.size == READ_REQUEST_SIZE && |before| == BUFFER_SIZE
    requires words <= 2 && |payload| == 2 * words
    ensures var x := ReadRecord(address, file, record, words);
            && Crosses(address, s, x, w) && w.arrived != Request(x) && Satisfies(x, w)
            && Pdu(Heard(x, w)) == ReadPdu(payload)
            && Served(address, s, w).store == s
  {
    hide Request, Forged, ChecksumValid, Pdu, ReadPdu, WellFormed, Crosses, Satisfies, XorByte, Served, Heard;
    ForgedShape(address, payload);
    OtherAddress(address);
    w := ForgedResponse(address, s, ReadRecord(address, file, record, words), Forged(address, payload), before);
  }

  /** A frame from another node whose length byte promises more than it carries. */
  function Overlong(address: byte, length: nat, words: nat): seq<byte> {
    Sealed([XorByte(address, 1), READ_FILE, 0, ToByte(length), FILE_REFERENCE] + seq(2 * words, _ => 0))
  }

  lemma OverlongShape(address: byte, length: nat, words: nat)
    requires words <= 2 && length < 0x100
    ensures var frame := Overlong(address, length, words);
            && |frame| == 7 + 2 * words && ChecksumValid(frame) && frame[0] == XorByte(address, 1)
            && |Pdu(frame)| == 4 + 2 * words && Value(Pdu(frame)[2]) == length
  {
    hide LowByte, HighByte, Checksum, ToByte, ChecksumValid, XorByte, Value;
    SealedIsValid([XorByte(address, 1), READ_FILE, 0, ToByte(length), FILE_REFERENCE] + seq(2 * words, _ => 0));
    ValueOfToByte(length);
  }

  /** The same way the client can be made to read outside its response: whenever the length byte may promise more
      than the response carries and the file still has room for that, the copy into the file runs past the response. */
  lemma ShortReadOverreads(address: byte, s: Store, file: half, record: half, words: half, length: nat,
                           before: seq<byte>, c: ClientState)
    returns (w: Crossing)
    requires WellFormed(s) && s.link.size == READ_REQUEST_SIZE && |before| == BUFFER_SIZE
    requires words <= 2 && 2 * words < length < 0x100
    requires c.info.task.ReadFileTask? && c.file.counter * c.file.recordSize + length <= c.file.fileSize
    ensures var x := ReadRecord(address, file, record, words);
            && Crosses(address, s, x, w) && w.arrived != Request(x) && Satisfies(x, w)
            && !CallbackDefined(Begun(c, x), Heard(x, w))
            && Served(address, s, w).store == s
  {
    hide Request, Overlong, ChecksumValid, Pdu, WellFormed, Crosses, XorByte, Served, Heard, Value;
    OverlongShape(address, length, words);
    OtherAddress(address);
    w := ForgedResponse(address, s, ReadRecord(address, file, record, words), Overlong(address, length, words), before);
  }

  /** Over a line that loses or damages at most one frame, a read response the client accepts is genuine exactly from
      three half words on. */
  lemma GenuineFromThreeWords(address: byte, s: Store, file: half, record: half, words: half, before: seq<byte>)
    requires WellFormed(s) && s.link.size == READ_REQUEST_SIZE && |before| == BUFFER_SIZE
    ensures var x := ReadRecord(address, file, record, words);
            words >= 3 <==> forall w :: Crosses(address, s, x, w) && Satisfies(x, w) ==> w.arrived == Request(x)
  {
    hide Request, Crosses, Satisfies, WellFormed, Serve, Pdu, ReadPdu, Heard;
    var x := ReadRecord(address, file, record, words);
    if words >= 3 {
      RequestIsValid(x);
      forall w | Crosses(address, s, x, w) && Satisfies(x, w) ensures w.arrived == Request(x) {
        SatisfiedIsGenuine(address, s, x, w);
      }
    } else {
      var w := ShortReadIsForged(address, s, file, record, words, seq(2 * words, _ => 0), before);
    }
  }
}
