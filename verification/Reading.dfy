/** Read transfers over a faulty line: the record exchanges of taskReadFile and what they assemble. */
module Reading {
  import opened Bytes
  import opened Crc
  import opened Frame
  import opened Resources
  import opened Records
  import opened Server
  import opened Node
  import opened ClientFile
  import opened Chunks
  import opened Client
  import opened Queue
  import opened Line
  import opened Steps
  import opened Transfer

  ghost predicate ReadyForReads(s: Store, index: nat) {
    && WellFormed(s) && index < FILE_COUNT
    && s.files[index].attributes.read
    && 1 <= s.recordSize
    && s.counter == 0 && s.link.size == READ_REQUEST_SIZE
    && s.files[index].records > 0
  }

  /** A client file set up to read from the server's file `index`. */
  ghost predicate Reads(s: Store, index: nat, f: FileState) {
    && ReadyForReads(s, index)
    && f.recordSize == s.recordSize && 0 < f.records <= MAX_RECORDS
    && f.counter == 0 && |f.bytes| == f.fileSize
    && (forall i :: 0 <= i < f.records ==>
          ActualRecordLength(f, i) <= f.recordSize && i * f.recordSize + ActualRecordLength(f, i) <= f.fileSize)
    && f.records * f.recordSize <= f.fileSize + f.recordSize
  }

  /** How many half words the client asks for in record i. */
  function WordsOf(f: FileState, i: nat): nat {
    ActualRecordLength(f, i) / 2
  }

  /** The first k requests ask for byte j: it lies in one of these records and in one of the half words asked for
      there. */
  predicate Asked(f: FileState, j: nat, k: nat) {
    f.recordSize > 0 && j / f.recordSize < k && j % f.recordSize < 2 * WordsOf(f, j / f.recordSize)
  }

  /** The client's buffer after k responses: what was asked for, and the initial zeros elsewhere. */
  ghost function Assembled(f: FileState, content: seq<byte>, k: nat): (r: seq<byte>)
    ensures |r| == |f.bytes|
  {
    seq(|f.bytes|, j requires 0 <= j < |f.bytes| => if Asked(f, j, k) && j < |content| then content[j] else f.bytes[j])
  }

  /** The client's file after k responses. */
  ghost function ReadProgress(f: FileState, content: seq<byte>, k: nat): FileState {
    f.(bytes := Assembled(f, content, k), counter := k % 0x1_0000, ready := f.ready || (k > 0 && k == f.records))
  }

  lemma AskedNext(f: FileState, j: nat, k: nat)
    requires f.recordSize > 0 && 2 * WordsOf(f, k) <= f.recordSize
    ensures Asked(f, j, k + 1) <==> Asked(f, j, k) || k * f.recordSize <= j < k * f.recordSize + 2 * WordsOf(f, k)
  {
    hide WordsOf;
    var size := f.recordSize;
    if j / size == k {
      assert j == k * size + j % size;
    }
    if k * size <= j < k * size + 2 * WordsOf(f, k) {
      DivModUnique(j, size, k, j - k * size);
    }
  }

  /** The PDU of a read reply. */
  function ReadPdu(bytes: seq<byte>): seq<byte> {
    [READ_FILE] + RecordAnswer(bytes)
  }

  lemma AssembledNext(f: FileState, content: seq<byte>, k: nat, bytes: seq<byte>)
    requires f.recordSize > 0 && |bytes| == 2 * WordsOf(f, k) <= f.recordSize
    requires k * f.recordSize + |bytes| <= |f.bytes| && k * f.recordSize + |bytes| <= |content|
    requires bytes == content[k * f.recordSize..k * f.recordSize + |bytes|]
    ensures Overwrite(Assembled(f, content, k), k * f.recordSize, bytes) == Assembled(f, content, k + 1)
  {
    hide Asked, WordsOf;
    var at := k * f.recordSize;
    var older, newer := Assembled(f, content, k), Assembled(f, content, k + 1);
    forall j | 0 <= j < |f.bytes| ensures newer[j] == if at <= j < at + |bytes| then content[j] else older[j] {
      AskedNext(f, j, k);
    }
  }

  lemma PduCarries(bytes: seq<byte>)
    requires |bytes| < 0x100
    ensures var message := ReadPdu(bytes);
            |message| == 4 + |bytes| && Value(message[2]) == |bytes| && message[4..4 + |bytes|] == bytes
  {
    hide ToByte, Value;
    ValueOfToByte(|bytes|);
    assert ReadPdu(bytes)[4..] == bytes;
  }

  lemma LoadNext(f: FileState, content: seq<byte>, k: nat, bytes: seq<byte>, message: seq<byte>)
    requires k < f.records && f.recordSize > 0 && |f.bytes| == f.fileSize
    requires |bytes| == 2 * WordsOf(f, k) <= f.recordSize && k * f.recordSize + |bytes| <= f.fileSize
    requires k * f.recordSize + |bytes| <= |content| && bytes == content[k * f.recordSize..k * f.recordSize + |bytes|]
    requires |message| == 4 + |bytes| && Value(message[2]) == |bytes| && message[4..4 + |bytes|] == bytes
    ensures var g := ReadProgress(f, content, k);
            && g.fileSize <= |g.bytes| && Loadable(g, message)
            && Load(g, message) == (ReadProgress(f, content, k + 1), true)
  {
    hide Assembled, Value, WordsOf, Overwrite;
    AssembledNext(f, content, k, bytes);
    var g := ReadProgress(f, content, k);
    assert g.counter * g.recordSize == k * f.recordSize;
  }

  // ---------- One read exchange ----------

  lemma {:induction false} ReadExchangesAt(address: byte, file: half, f: FileState, n: nat, k: nat)
    requires k < n <= f.records
    ensures ReadExchanges(address, file, f, n)[k] == ReadRecord(address, file, k, WordsOf(f, k) % 0x1_0000)
    decreases n
  {
    hide ActualRecordLength;
    if k < n - 1 { ReadExchangesAt(address, file, f, n - 1, k); }
  }

  lemma CountedTables(s: Store, index: nat, k: nat)
    requires ReadyForReads(s, index) && k <= s.files[index].records
    ensures var t := Counted(s, index, k);
            && WellFormed(t) && t.files == s.files && t.recordSize == s.recordSize && t.registers == s.registers
            && (k < s.files[index].records ==> t.link == s.link)
  {
  }

  lemma PortionRoom(s: Store, index: nat, f: FileState, k: nat)
    requires Reads(s, index, f) && k < f.records && k < s.files[index].records
    ensures 2 * WordsOf(f, k) <= s.recordSize && k * s.recordSize + s.recordSize <= |s.files[index].bytes|
  {
    SlotInside(k, s.files[index].records, s.recordSize);
  }

  /** The bytes the k-th response has to bring. */
  ghost function Portion(s: Store, index: nat, f: FileState, k: nat): (r: seq<byte>)
    requires Reads(s, index, f) && k < f.records && k < s.files[index].records
    ensures |r| == 2 * WordsOf(f, k) <= s.recordSize
    ensures k * s.recordSize + |r| <= |s.files[index].bytes|
  {
    PortionRoom(s, index, f, k);
    s.files[index].bytes[k * s.recordSize..k * s.recordSize + 2 * WordsOf(f, k)]
  }

  /** Record k of `content` begins with these bytes. */
  ghost predicate Supplies(content: seq<byte>, f: FileState, k: nat, bytes: seq<byte>) {
    && k * f.recordSize + |bytes| <= |content|
    && content[k * f.recordSize..k * f.recordSize + |bytes|] == bytes
  }

  lemma PortionSupplies(s: Store, index: nat, f: FileState, k: nat)
    requires Reads(s, index, f) && k < f.records && k < s.files[index].records
    ensures index < |s.files| && f.recordSize == s.recordSize
    ensures Supplies(s.files[index].bytes, f, k, Portion(s, index, f, k))
  {
    hide WordsOf;
    PortionRoom(s, index, f, k);
  }

  lemma SlotHead(bytes: seq<byte>, size: nat, k: nat, n: nat)
    requires k * size + size <= |bytes| && n <= size
    ensures Slice(bytes, size, k)[..n] == bytes[k * size..k * size + n]
  {
  }

  lemma PortionIsHead(s: Store, index: nat, f: FileState, k: nat, t: Store)
    requires Reads(s, index, f) && k < f.records && k < s.files[index].records && HasRecord(t, index, k)
    requires t.files == s.files && t.recordSize == s.recordSize
    ensures 2 * WordsOf(f, k) <= s.recordSize
    ensures Record(t, index, k)[..2 * WordsOf(f, k)] == Portion(s, index, f, k)
  {
    PortionRoom(s, index, f, k);
    PortionSupplies(s, index, f, k);
    var n := |Portion(s, index, f, k)|;
    hide ActualRecordLength, WellFormed, Reads, WordsOf, Slice, Portion;
    SlotHead(s.files[index].bytes, s.recordSize, k, n);
  }

  lemma ReadsReady(s: Store, index: nat, f: FileState)
    requires Reads(s, index, f)
    ensures ReadyForReads(s, index) && |s.files| == FILE_COUNT && f.records <= MAX_RECORDS && s.recordSize <= 241
  {
  }

  lemma ReadAnswer(s: Store, index: nat, f: FileState, m: nat, k: nat)
    requires Reads(s, index, f) && k < f.records && k < s.files[index].records && m < s.files[index].records
    ensures WellFormed(Counted(s, index, m))
    ensures RecordRead(Counted(s, index, m), FileService(index + 1, k, WordsOf(f, k)))
            == (Counted(s, index, m + 1), Data(RecordAnswer(Portion(s, index, f, k))))
  {
    hide RecordRead, CountOperation, RecordAnswer, WordsOf, Record, Portion, Reads, WellFormed;
    ReadsReady(s, index, f);
    PortionRoom(s, index, f, k);
    var t := Counted(s, index, m);
    CountedTables(s, index, m);
    CountedNext(s, index, m);
    PortionIsHead(s, index, f, k, t);
    ReadOutcome(t, FileService(index + 1, k, WordsOf(f, k)));
  }

  /** The k-th read request, arriving intact, is counted and answered with its portion of the file, however many reads
      the server has counted before. */
  lemma ReadServed(address: byte, s: Store, index: nat, f: FileState, m: nat, k: nat, t: Store, x: Exchange,
                   w: Crossing)
    requires Reads(s, index, f) && k < f.records && k < s.files[index].records && m < s.files[index].records
    requires t == Counted(s, index, m) && WellFormed(t)
    requires x == ReadRecord(address, index + 1, k, WordsOf(f, k) % 0x1_0000)
    requires |w.before| == BUFFER_SIZE && w.arrived == Request(x)
    ensures t.link.size == READ_REQUEST_SIZE
    ensures var o := Served(address, t, w);
            && o.store == Counted(s, index, m + 1) && o.verdict == Verdict.NoError
            && o.reply == Sealed([address, READ_FILE] + RecordAnswer(Portion(s, index, f, k)))
  {
    hide Request, Serve, RecordRead, WellFormed, Sealed, RecordAnswer, Portion, ActualRecordLength;
    CountedTables(s, index, m);
    ReadAnswer(s, index, f, m, k);
    ServeReadRecord(address, t, index + 1, k, x.words, w.before);
  }

  lemma ReplyPdu(address: byte, bytes: seq<byte>)
    ensures |Sealed([address, READ_FILE] + RecordAnswer(bytes))| >= MIN_FRAME
    ensures Pdu(Sealed([address, READ_FILE] + RecordAnswer(bytes))) == ReadPdu(bytes)
  {
    hide LowByte, HighByte, Checksum, ToByte;
  }

  /** The client takes an acceptable answer to its k-th read request into its file, whoever sent it. */
  lemma ReadTaken(f: FileState, content: seq<byte>, k: nat, bytes: seq<byte>, c: ClientState, x: Exchange,
                  response: seq<byte>)
    requires k < f.records && f.recordSize > 0 && |f.bytes| == f.fileSize
    requires |bytes| == 2 * WordsOf(f, k) <= f.recordSize && |bytes| < 0x100
             && k * f.recordSize + |bytes| <= f.fileSize && Supplies(content, f, k, bytes)
    requires c.info.task.ReadFileTask? && c.file == ReadProgress(f, content, k)
    requires ChecksumValid(response) && |response| == Expected(x) && |response| >= MIN_FRAME
             && Pdu(response) == ReadPdu(bytes)
    ensures CallbackDefined(Begun(c, x), response)
    ensures var d := Step(c, x, response);
            && d.file == ReadProgress(f, content, k + 1)
            && d.info.fault == c.info.fault && d.info.task == c.info.task
  {
    PduCarries(bytes);
    LoadNext(f, content, k, bytes, Pdu(response));
    hide Load, Loadable, ReadProgress, ChecksumValid, ReadPdu, Expected, Pdu;
  }

  // ---------- Whole read transfers ----------

  /** The first k records have at least three half words each: the client waits for at least as many bytes as it
      sends. */
  ghost predicate LongTo(f: FileState, k: nat) {
    forall j :: 0 <= j < k && j < f.records ==> WordsOf(f, j) >= 3
  }

  ghost function ReadQueue(address: byte, index: nat, f: FileState): (q: seq<Exchange>)
    requires index < FILE_COUNT
    ensures |q| == f.records
  {
    ReadExchanges(address, index + 1, f, f.records)
  }

  /** A client about to read: the file is set up, the task is a file read, nothing has gone wrong. */
  ghost predicate Reader(c: ClientState, f: FileState) {
    c.file == f && c.info.task.ReadFileTask? && c.info.fault == NoFault
  }

  lemma PortionFits(s: Store, index: nat, f: FileState, k: nat)
    requires Reads(s, index, f) && k < f.records
    ensures 2 * WordsOf(f, k) <= s.recordSize <= 241
    ensures k * f.recordSize + 2 * WordsOf(f, k) <= f.fileSize
    ensures f.recordSize == s.recordSize > 0 && |f.bytes| == f.fileSize
  {
  }

  /** A read exchange whose response the client accepts and whose request arrived intact, as it has to where the
      record has three half words or more. The server has counted m reads; the client holds k records of `content`,
      which need not be the server's file but has its bytes in record k. */
  lemma ReadExchange(address: byte, s: Store, index: nat, f: FileState, m: nat, content: seq<byte>, k: nat,
                     t: Store, d: ClientState, x: Exchange, w: Crossing)
    requires Reads(s, index, f) && k < f.records && k < s.files[index].records && m < s.files[index].records
    requires t == Counted(s, index, m) && WellFormed(t)
    requires x == ReadRecord(address, index + 1, k, WordsOf(f, k) % 0x1_0000)
    requires d.info.task.ReadFileTask? && d.file == ReadProgress(f, content, k)
             && Supplies(content, f, k, Portion(s, index, f, k))
    requires Crosses(address, t, x, w) && (WordsOf(f, k) >= 3 || w.arrived == Request(x))
    requires Satisfies(x, w)
    ensures w.arrived == Request(x) && Served(address, t, w).store == Counted(s, index, m + 1)
    ensures CallbackDefined(Begun(d, x), Heard(x, w))
    ensures var e := Step(d, x, Heard(x, w));
            && e.file == ReadProgress(f, content, k + 1)
            && e.info.fault == d.info.fault && e.info.task == d.info.task
  {
    hide Request, Crosses, ChecksumValid, Served, WellFormed, Heard, Step, Expected, Sealed, RecordAnswer, WordsOf,
         Portion, Counted, ReadProgress, CallbackDefined, Reads, Supplies, ReadPdu, Pdu;
    PortionFits(s, index, f, k);
    RequestIsValid(x);
    AcceptedIsGenuine(address, t, x, w);
    ReadServed(address, s, index, f, m, k, t, x, w);
    ReplyPdu(address, Portion(s, index, f, k));
    ReadTaken(f, content, k, Portion(s, index, f, k), d, x, Heard(x, w));
  }

  /** A read transfer over a faulty line. */
  ghost predicate ReadSession(address: byte, s: Store, index: nat, f: FileState, c: ClientState, ws: seq<Crossing>)
    ensures ReadSession(address, s, index, f, c, ws) ==> index < |s.files|
  {
    && Reads(s, index, f) && Reader(c, f)
    && LineRun(address, s, ReadQueue(address, index, f), ws)
  }

  /** After k exchanges the server has counted m reads and the client holds what k responses bring of `content`. */
  ghost predicate ReadStateAt(address: byte, s: Store, index: nat, f: FileState, c: ClientState, ws: seq<Crossing>,
                              m: nat, content: seq<byte>, k: nat)
    requires WellFormed(s) && index < FILE_COUNT && |ws| == f.records && Buffers(ws) && k <= |ws|
  {
    var d := StateAfter(c, ReadQueue(address, index, f), Responses(ReadQueue(address, index, f), ws), k);
    && Through(address, s, ws, k) == Counted(s, index, m)
    && d.file == ReadProgress(f, content, k) && d.info.task.ReadFileTask?
  }

  /** After k exchanges the server has counted k reads and the client holds exactly what k responses bring of its
      file. */
  ghost predicate ReadState(address: byte, s: Store, index: nat, f: FileState, c: ClientState, ws: seq<Crossing>,
                            k: nat)
    requires WellFormed(s) && index < FILE_COUNT && |ws| == f.records && Buffers(ws) && k <= |ws|
  {
    ReadStateAt(address, s, index, f, c, ws, k, s.files[index].bytes, k)
  }

  lemma ReadSessionShape(address: byte, s: Store, index: nat, f: FileState, c: ClientState, ws: seq<Crossing>)
    requires ReadSession(address, s, index, f, c, ws)
    ensures WellFormed(s) && index < FILE_COUNT && 0 < |ws| == f.records <= MAX_RECORDS && Buffers(ws) && Reader(c, f)
    ensures ReadState(address, s, index, f, c, ws, 0)
    ensures GoesWell(c, ReadQueue(address, index, f), ws, 0)
    ensures StateAfter(c, ReadQueue(address, index, f), Responses(ReadQueue(address, index, f), ws), 0).info.fault
            == NoFault
  {
    NothingRead(s, index, f);
  }

  lemma NothingRead(s: Store, index: nat, f: FileState)
    requires Reads(s, index, f)
    ensures Counted(s, index, 0) == s && ReadProgress(f, s.files[index].bytes, 0) == f
  {
    assert Assembled(f, s.files[index].bytes, 0) == f.bytes;
  }

  /** If the client accepts its next response and the request arrived intact, the transfer moves on by one record,
      and nothing is read outside the response. */
  lemma ReadStateAtNext(address: byte, s: Store, index: nat, f: FileState, c: ClientState, ws: seq<Crossing>,
                        m: nat, content: seq<byte>, k: nat)
    requires Reads(s, index, f) && |ws| == f.records && Buffers(ws)
    requires k < f.records && k < s.files[index].records && m < s.files[index].records
    requires WellFormed(s) && ReadStateAt(address, s, index, f, c, ws, m, content, k)
    requires Supplies(content, f, k, Portion(s, index, f, k))
    requires var x := ReadQueue(address, index, f)[k];
             && Crosses(address, Through(address, s, ws, k), x, ws[k]) && Satisfies(x, ws[k])
             && (WordsOf(f, k) >= 3 || ws[k].arrived == Request(x))
    ensures ReadStateAt(address, s, index, f, c, ws, m + 1, content, k + 1)
    ensures ws[k].arrived == Request(ReadQueue(address, index, f)[k])
    ensures var queue := ReadQueue(address, index, f); var d := StateAfter(c, queue, Responses(queue, ws), k);
            && CallbackDefined(Begun(d, queue[k]), Heard(queue[k], ws[k]))
            && StateAfter(c, queue, Responses(queue, ws), k + 1).info.fault == d.info.fault
  {
    hide Request, Crosses, Satisfies, Served, WellFormed, Heard, Step, Expected, WordsOf, Counted, ReadProgress,
         CallbackDefined, Reads, Responses, Through, StateAfter, Supplies, Portion;
    ReadsShape(s, index, f);
    var queue := ReadQueue(address, index, f);
    RunNext(address, s, c, queue, ws, k);
    ReadExchangesAt(address, index + 1, f, f.records, k);
    ReadExchange(address, s, index, f, m, content, k, Through(address, s, ws, k),
                 StateAfter(c, queue, Responses(queue, ws), k), queue[k], ws[k]);
  }

  /** The same in a read session. */
  lemma ReadStateNext(address: byte, s: Store, index: nat, f: FileState, c: ClientState, ws: seq<Crossing>, k: nat)
    requires ReadSession(address, s, index, f, c, ws) && k < f.records && k < s.files[index].records
    requires ReadState(address, s, index, f, c, ws, k)
    requires var x := ReadQueue(address, index, f)[k];
             Satisfies(x, ws[k]) && (WordsOf(f, k) >= 3 || ws[k].arrived == Request(x))
    ensures ReadState(address, s, index, f, c, ws, k + 1)
    ensures ws[k].arrived == Request(ReadQueue(address, index, f)[k])
    ensures var queue := ReadQueue(address, index, f); var d := StateAfter(c, queue, Responses(queue, ws), k);
            && CallbackDefined(Begun(d, queue[k]), Heard(queue[k], ws[k]))
            && StateAfter(c, queue, Responses(queue, ws), k + 1).info.fault == d.info.fault
  {
    hide Request, Crosses, Satisfies, Served, WellFormed, Heard, Step, Expected, WordsOf, Counted, ReadProgress,
         CallbackDefined, Reads, Responses, Through, StateAfter, ReadStateAt;
    ReadSessionShape(address, s, index, f, c, ws);
    RunShape(address, s, ReadQueue(address, index, f), ws, k);
    PortionFits(s, index, f, k);
    PortionSupplies(s, index, f, k);
    ReadStateAtNext(address, s, index, f, c, ws, k, s.files[index].bytes, k);
  }

  /** As long as the client reports no fault, every exchange of a long record moves the transfer on by one record. */
  lemma {:induction false} ReadsArrive(address: byte, s: Store, index: nat, f: FileState, c: ClientState,
                                       ws: seq<Crossing>, k: nat)
    requires ReadSession(address, s, index, f, c, ws) && k <= f.records && k <= s.files[index].records && LongTo(f, k)
    requires GoesWell(c, ReadQueue(address, index, f), ws, k)
    ensures ReadState(address, s, index, f, c, ws, k)
    ensures k > 0 ==> ws[k - 1].arrived == Request(ReadQueue(address, index, f)[k - 1])
    decreases k
  {
    hide ReadSession, ReadState, Satisfies, Request, CallbackDefined, Responses, StateAfter, ReadQueue, WellFormed,
         LineRun, Step, Through, Counted, Reads, WordsOf;
    ReadSessionShape(address, s, index, f, c, ws);
    if k > 0 {
      ReadsArrive(address, s, index, f, c, ws, k - 1);
      WentWell(c, ReadQueue(address, index, f), ws, k);
      assert WordsOf(f, k - 1) >= 3;
      ReadStateNext(address, s, index, f, c, ws, k - 1);
    }
  }

  /** Where all records have three half words or more: however the line behaves, the run ends with a prefix of the
      records in the client's file, those of all exchanges if no fault was reported, otherwise of all but the last
      that was run. The server has counted as many, or one more. */
  lemma ReadRun(address: byte, s: Store, index: nat, f: FileState, c: ClientState, ws: seq<Crossing>)
    requires ReadSession(address, s, index, f, c, ws) && f.records <= s.files[index].records && LongTo(f, f.records)
    ensures |ws| == f.records && WellFormed(s) && Buffers(ws) && index < FILE_COUNT
    ensures var queue := ReadQueue(address, index, f);
            var d, k := RunQueue(c, queue, Responses(queue, ws)), Executed(c, queue, Responses(queue, ws));
            && 0 < k
            && (d.info.fault == NoFault ==> k == f.records && ReadState(address, s, index, f, c, ws, k)
                                            && d.file == ReadProgress(f, s.files[index].bytes, k))
            && (d.info.fault != NoFault ==> d.file == ReadProgress(f, s.files[index].bytes, k - 1)
                                            && Through(address, s, ws, k) in {Counted(s, index, k - 1),
                                               Counted(s, index, k)})
  {
    hide ReadSession, Satisfies, Request, StateAfter, ReadProgress, Counted, Served, Step, RunQueue, Executed,
         ReadQueue, Responses, WellFormed, Through, LineRun, Reads;
    ReadSessionShape(address, s, index, f, c, ws);
    var queue := ReadQueue(address, index, f);
    var k := Executed(c, queue, Responses(queue, ws));
    RunIsPrefix(c, queue, Responses(queue, ws));
    ReadsArrive(address, s, index, f, c, ws, k - 1);
    if RunQueue(c, queue, Responses(queue, ws)).info.fault == NoFault {
      ReadsArrive(address, s, index, f, c, ws, k);
    } else {
      ReadStateEnds(address, s, index, f, c, ws, k - 1);
    }
  }

  /** The exchange that fails leaves the client's file alone; the server may have counted it. */
  lemma ReadStateEnds(address: byte, s: Store, index: nat, f: FileState, c: ClientState, ws: seq<Crossing>, k: nat)
    requires ReadSession(address, s, index, f, c, ws) && k < f.records && k < s.files[index].records
             && WordsOf(f, k) >= 3
    requires ReadState(address, s, index, f, c, ws, k)
    requires var queue := ReadQueue(address, index, f);
             StateAfter(c, queue, Responses(queue, ws), k).info.fault == NoFault
    requires var queue := ReadQueue(address, index, f);
             StateAfter(c, queue, Responses(queue, ws), k + 1).info.fault != NoFault
    ensures var queue := ReadQueue(address, index, f);
            StateAfter(c, queue, Responses(queue, ws), k + 1).file == ReadProgress(f, s.files[index].bytes, k)
    ensures Through(address, s, ws, k + 1) in {Counted(s, index, k), Counted(s, index, k + 1)}
  {
    hide ReadSession, ReadState, Satisfies, Request, StateAfter, ReadProgress, Counted, Served, Step, ReadQueue,
         Responses, WellFormed, Through, LineRun, Reads, Crosses, CallbackDefined, Expected, Heard, WordsOf;
    ReadSessionShape(address, s, index, f, c, ws);
    ReadSessionLine(address, s, index, f, c, ws, k);
    var queue := ReadQueue(address, index, f);
    var x, w := queue[k], ws[k];
    if !Satisfies(x, w) {
      RejectedKeepsFile(StateAfter(c, queue, Responses(queue, ws), k), x, w);
    } else {
      ReadStateNext(address, s, index, f, c, ws, k);
    }
  }

  /** The k-th exchange of a read transfer, whatever becomes of it. */
  lemma ReadSessionLine(address: byte, s: Store, index: nat, f: FileState, c: ClientState, ws: seq<Crossing>, k: nat)
    requires ReadSession(address, s, index, f, c, ws) && k < f.records && k < s.files[index].records
    requires ReadState(address, s, index, f, c, ws, k)
    ensures var queue := ReadQueue(address, index, f); var d := StateAfter(c, queue, Responses(queue, ws), k);
            && d.file == ReadProgress(f, s.files[index].bytes, k)
            && StateAfter(c, queue, Responses(queue, ws), k + 1) == Step(d, queue[k], Heard(queue[k], ws[k]))
    ensures Through(address, s, ws, k + 1) in {Counted(s, index, k), Counted(s, index, k + 1)}
  {
    hide Request, Satisfies, Served, WellFormed, Heard, Step, Expected, WordsOf, Counted, ReadProgress, CallbackDefined,
         Reads, Responses, Through, StateAfter, LineRun, Crosses;
    ReadSessionShape(address, s, index, f, c, ws);
    var queue := ReadQueue(address, index, f);
    RunShape(address, s, queue, ws, k);
    RunNext(address, s, c, queue, ws, k);
    ReadExchangesAt(address, index + 1, f, f.records, k);
    CrossingEffect(address, Through(address, s, ws, k), queue[k], ws[k]);
    if ws[k].arrived == Request(queue[k]) {
      ReadServed(address, s, index, f, k, k, Through(address, s, ws, k), queue[k], ws[k]);
    }
  }

  lemma RejectedKeepsFile(d: ClientState, x: Exchange, w: Crossing)
    requires !Satisfies(x, w)
    ensures Step(d, x, Heard(x, w)).file == d.file
  {
    hide Load, Loadable, Pdu, ChecksumValid, Expected, Heard;
  }

  lemma LongBefore(s: Store, index: nat, f: FileState, n: nat)
    requires Reads(s, index, f) && s.recordSize >= 6 && n < f.records
    ensures LongTo(f, n)
  {
    hide WellFormed;
  }

  /** With records of six bytes or more, a file of more records than the server's cannot be read without a fault
      either. */
  lemma ReadOverrun(address: byte, s: Store, index: nat, f: FileState, c: ClientState, ws: seq<Crossing>)
    requires ReadSession(address, s, index, f, c, ws) && f.records > s.files[index].records && s.recordSize >= 6
    ensures |ws| == f.records
            && RunQueue(c, ReadQueue(address, index, f),
            Responses(ReadQueue(address, index, f), ws)).info.fault != NoFault
  {
    hide Satisfies, Request, StateAfter, ReadProgress, Counted, Served, RunQueue, Executed, ReadQueue, Responses,
         Through, LineRun, Reads, Crosses, WordsOf, Expected, ReadState, LongTo;
    ReadSessionShape(address, s, index, f, c, ws);
    var queue, n := ReadQueue(address, index, f), s.files[index].records;
    RunGoesWell(c, queue, ws);
    if RunQueue(c, queue, Responses(queue, ws)).info.fault == NoFault {
      LongBefore(s, index, f, n);
      ReadsArrive(address, s, index, f, c, ws, n);
      WentWell(c, queue, ws, n + 1);
      ReadLimit(address, s, index, f, c, ws);
    }
  }

  /** The receive length at which the server is idle fits no read request, damaged or not. */
  lemma ReadLimit(address: byte, s: Store, index: nat, f: FileState, c: ClientState, ws: seq<Crossing>)
    requires ReadSession(address, s, index, f, c, ws) && f.records > s.files[index].records
    requires ReadState(address, s, index, f, c, ws, s.files[index].records)
    ensures !Satisfies(ReadQueue(address, index, f)[s.files[index].records], ws[s.files[index].records])
  {
    hide Request, Satisfies, StateAfter, ReadProgress, Served, RunQueue, Executed, Responses, Through, Crosses, WordsOf,
         Expected;
    var queue, n := ReadQueue(address, index, f), s.files[index].records;
    RunShape(address, s, queue, ws, n);
    ReadExchangesAt(address, index + 1, f, f.records, n);
    RequestIsValid(queue[n]);
    if Satisfies(queue[n], ws[n]) {
      SatisfiedIsAligned(address, Through(address, s, ws, n), queue[n], ws[n]);
    }
  }

  // ---------- A line that delivers everything ----------

  /** On such a line a read transfer of records of any length is a read session that ends without a fault, and
      everything that was asked for has been read. */
  lemma ReadsSucceed(address: byte, s: Store, index: nat, f: FileState, c: ClientState, ws: seq<Crossing>)
    requires Reads(s, index, f) && Reader(c, f) && f.records <= s.files[index].records
    requires PerfectRun(address, s, ReadQueue(address, index, f), ws)
    ensures ReadSession(address, s, index, f, c, ws)
    ensures var d := RunQueue(c, ReadQueue(address, index, f), Responses(ReadQueue(address, index, f), ws));
            && d.info.fault == NoFault && d.file == ReadProgress(f, s.files[index].bytes, f.records)
            && WellFormed(s) && Buffers(ws) && Through(address, s, ws, f.records) == Counted(s, index, f.records)
  {
    hide ReadSession, StateAfter, RunQueue, ReadQueue, Responses, PerfectRun, WellFormed, Through, LineRun, Reads,
         ReadProgress, Counted;
    ReadsShape(s, index, f);
    PerfectIsSession(address, s, index, f, c, ws);
    ReadSessionShape(address, s, index, f, c, ws);
    var queue := ReadQueue(address, index, f);
    forall j | 0 <= j <= |queue| ensures StateAfter(c, queue, Responses(queue, ws), j).info.fault == NoFault {
      PerfectReads(address, s, index, f, c, ws, j);
    }
    WholeRun(c, queue, Responses(queue, ws));
    PerfectReads(address, s, index, f, c, ws, f.records);
  }

  lemma PerfectIsSession(address: byte, s: Store, index: nat, f: FileState, c: ClientState, ws: seq<Crossing>)
    requires Reads(s, index, f) && Reader(c, f)
    requires PerfectRun(address, s, ReadQueue(address, index, f), ws)
    ensures ReadSession(address, s, index, f, c, ws)
  {
    hide Reads, Crosses, Served, Request, LineRun, ReadQueue, Expected, WellFormed, Through;
    ReadsShape(s, index, f);
    var queue := ReadQueue(address, index, f);
    PerfectRunIsLineRun(address, s, queue, ws);
  }

  lemma ReadsShape(s: Store, index: nat, f: FileState)
    requires Reads(s, index, f)
    ensures WellFormed(s) && index < FILE_COUNT
  {
  }

  lemma {:induction false} PerfectReads(address: byte, s: Store, index: nat, f: FileState, c: ClientState,
                                        ws: seq<Crossing>, k: nat)
    requires ReadSession(address, s, index, f, c, ws) && k <= f.records <= s.files[index].records
    requires WellFormed(s) && PerfectRun(address, s, ReadQueue(address, index, f), ws)
    ensures ReadState(address, s, index, f, c, ws, k)
    ensures StateAfter(c, ReadQueue(address, index, f), Responses(ReadQueue(address, index, f), ws), k).info.fault
            == NoFault
    decreases k
  {
    hide ReadSession, ReadState, StateAfter, ReadQueue, Responses, PerfectRun, WellFormed, Through, LineRun, Satisfies,
         Request, CallbackDefined, Heard;
    ReadSessionShape(address, s, index, f, c, ws);
    if k > 0 {
      PerfectReads(address, s, index, f, c, ws, k - 1);
      PerfectReadSatisfies(address, s, index, f, c, ws, k - 1);
      PerfectArrives(address, s, ReadQueue(address, index, f), ws, k - 1);
      ReadStateNext(address, s, index, f, c, ws, k - 1);
    }
  }

  lemma PerfectReadSatisfies(address: byte, s: Store, index: nat, f: FileState, c: ClientState, ws: seq<Crossing>,
                             k: nat)
    requires ReadSession(address, s, index, f, c, ws) && k < f.records <= s.files[index].records
    requires WellFormed(s) && PerfectRun(address, s, ReadQueue(address, index, f), ws)
    requires ReadState(address, s, index, f, c, ws, k)
    ensures Satisfies(ReadQueue(address, index, f)[k], ws[k])
  {
    hide StateAfter, Responses, WellFormed, Through, LineRun, Request, Heard, Served, Delivered, Counted, ReadProgress,
         Reads, WordsOf, Expected, ChecksumValid;
    ReadSessionShape(address, s, index, f, c, ws);
    var queue := ReadQueue(address, index, f);
    var t, x, w := Through(address, s, ws, k), queue[k], ws[k];
    ReadExchangesAt(address, index + 1, f, f.records, k);
    RequestIsValid(x);
    DeliveredArrives(address, t, x, w);
    ReadServed(address, s, index, f, k, k, t, x, w);
    DeliveredIsHeard(address, t, x, w);
  }
}
