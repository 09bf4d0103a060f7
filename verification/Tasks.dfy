/** The two file tasks of the client from beginning to end: core/client/src/client.cpp, taskWriteFile and taskReadFile,
    against the node of core/server. */
module Tasks {
  import opened Bytes
  import Server
  import opened Resources
  import opened ClientFile
  import opened Chunks
  import opened Client
  import opened Queue
  import opened Line
  import opened Transfer
  import opened Reading
  import opened Image
  import opened Session

  // ---------- taskWriteFile ----------

  ghost predicate WriteTarget(s: Store, index: nat) {
    && index < FILE_COUNT && |s.files| == FILE_COUNT
    && s.files[index].attributes.write && !s.files[index].attributes.flash && s.files[index].records > 0
    && 1 <= s.recordSize <= 238
  }

  /** A file buffer as setupWriteFromMemory leaves it. The task refuses a file that is not ready. */
  ghost predicate Writable(s: Store, index: nat, f: FileState) {
    f.ready && f.id == index + 1 && 0 < f.records <= MAX_RECORDS && |f.bytes| == f.records * s.recordSize
  }

  /** taskWriteFile for file `index` of an idle server: the prepare writes and the record writes cross the line. */
  ghost predicate WriteTask(address: byte, s: Store, base: half, index: nat, f: FileState, w1: Crossing, w2: Crossing,
                            ws: seq<Crossing>) {
    && Idle(s) && WriteTarget(s, index) && Writable(s, index, f) && AddressesInBounds(base)
    && Prepares(address, s, base, f.records, WRITE_PREPARE, w1, w2)
    && LineRun(address, Prepared(address, s, w1, w2), WriteExchanges(address, f, s.recordSize, f.records), ws)
  }

  /** No exchange of the task reports a fault. */
  ghost predicate WriteTaskFine(address: byte, s: Store, base: half, f: FileState, c: ClientState, w1: Crossing,
                                w2: Crossing, ws: seq<Crossing>)
    requires f.records * s.recordSize <= |f.bytes| && |ws| == f.records
  {
    var queue := WriteExchanges(address, f, s.recordSize, f.records);
    && PrepareConfirmed(c, address, base, f.records, WRITE_PREPARE, w1, w2)
    && RunQueue(c.(info := Fresh(WriteFileTask, f.records)), queue, Responses(queue, ws)).info.fault == NoFault
  }

  /** The task crossed the line and the client reported no fault. */
  ghost predicate WriteTaskDone(address: byte, s: Store, base: half, index: nat, f: FileState, c: ClientState,
                                w1: Crossing, w2: Crossing, ws: seq<Crossing>) {
    && WriteTask(address, s, base, index, f, w1, w2, ws)
    && |ws| == f.records && f.records * s.recordSize == |f.bytes| && WriteTaskFine(address, s, base, f, c, w1, w2, ws)
  }

  lemma WriteTaskShape(address: byte, s: Store, base: half, index: nat, f: FileState, w1: Crossing, w2: Crossing,
                       ws: seq<Crossing>)
    requires WriteTask(address, s, base, index, f, w1, w2, ws)
    ensures WellFormed(s) && Idle(s) && Listening(s)
    ensures index < FILE_COUNT && AddressesInBounds(base) && |s.registers| == REGISTER_COUNT
    ensures |w1.before| == Server.BUFFER_SIZE && |w2.before| == Server.BUFFER_SIZE
    ensures Buffers(ws) && |ws| == f.records && f.records * s.recordSize == |f.bytes|
    ensures Prepares(address, s, base, f.records, WRITE_PREPARE, w1, w2)
    ensures LineRun(address, Prepared(address, s, w1, w2), WriteExchanges(address, f, s.recordSize, f.records), ws)
  {
    hide AddressesInBounds, TransferRegisters, Crosses, Prepared, AfterCounter, WriteExchanges, Through, CounterWrite,
         ControlWrite;
  }

  lemma PreparedMatches(s: Store, index: nat, f: FileState)
    requires Idle(s) && WriteTarget(s, index) && Writable(s, index, f)
    ensures var p := PreparedStore(s, f.records, WRITE_PREPARE);
            Matches(p, index, f) && p.files == s.files && p.recordSize == s.recordSize
  {
    PrepareEffect(s, f.records, WRITE_PREPARE);
  }

  /** A write task without a fault used the register base the server expects, fitted the server's file,
      and left exactly the written store. */
  lemma WriteTaskOutcome(address: byte, s: Store, base: half, index: nat, f: FileState, c: ClientState,
                         w1: Crossing, w2: Crossing, ws: seq<Crossing>)
    requires WriteTaskDone(address, s, base, index, f, c, w1, w2, ws)
    ensures index < |s.files| && |s.registers| == REGISTER_COUNT
    ensures base == HOLDING_OFFSET && |ws| == f.records <= s.files[index].records
    ensures ServerAfter(address, s, w1, w2, ws, f.records)
            == WriteProgress(PreparedStore(s, f.records, WRITE_PREPARE), index, Landed(s, index, f.bytes), f.records)
  {
    hide WriteProgress, PreparedStore, Idle, Prepares, PrepareConfirmed, RunQueue, Responses, WriteExchanges, LineRun,
         Matches, Prepared, Through, AddressesInBounds, WellFormed, Landed;
    WriteTaskShape(address, s, base, index, f, w1, w2, ws);
    PrepareOutcome(address, s, base, f.records, WRITE_PREPARE, w1, w2, c);
    PreparedMatches(s, index, f);
    SameLanding(s, index, f.bytes, f.records);
    var p, d := PreparedStore(s, f.records, WRITE_PREPARE), c.(info := Fresh(WriteFileTask, f.records));
    if f.records > s.files[index].records {
      WriteOverrun(address, p, index, f, d, ws);
    } else {
      WriteRun(address, p, index, f, d, ws);
    }
  }

  /** The file, the padding, and what stays: the meaning of the written store. */
  lemma WrittenStore(s: Store, index: nat, f: FileState)
    requires Idle(s) && WriteTarget(s, index) && Writable(s, index, f) && f.records <= s.files[index].records
    ensures var landed := Landed(s, index, f.bytes);
            var t := WriteProgress(PreparedStore(s, f.records, WRITE_PREPARE), index, landed, f.records);
            && |t.files| == FILE_COUNT
            && |f.bytes| <= |s.files[index].bytes|
            && t.files[index] == s.files[index].(bytes := landed + s.files[index].bytes[|f.bytes|..])
            && t.files[1 - index] == s.files[1 - index]
            && t.registers == PreparedStore(s, f.records, WRITE_PREPARE).registers
            && (t.counter == 0 && t.link.size == DEFAULT_SIZE <==> f.records == s.files[index].records)
            && t.completions == if f.records == s.files[index].records && s.files[index].notifies
                                then s.completions + [index] else s.completions
  {
    hide PreparedStore, TransferRegisters, Landed;
    PreparedMatches(s, index, f);
    WrittenProgress(PreparedStore(s, f.records, WRITE_PREPARE), index, f, Landed(s, index, f.bytes));
    PreparedCompletions(s, f.records);
  }

  lemma PreparedCompletions(s: Store, records: half)
    requires Idle(s)
    ensures PreparedStore(s, records, WRITE_PREPARE).completions == s.completions
  {
  }

  lemma WrittenProgress(p: Store, index: nat, f: FileState, bytes: seq<byte>)
    requires Matches(p, index, f) && f.records <= p.files[index].records && |bytes| == |f.bytes|
    ensures var t := WriteProgress(p, index, bytes, f.records);
            && |t.files| == FILE_COUNT && |bytes| <= |p.files[index].bytes|
            && t.files[index] == p.files[index].(bytes := bytes + p.files[index].bytes[|bytes|..])
            && t.files[1 - index] == p.files[1 - index] && t.registers == p.registers
            && (t.counter == 0 && t.link.size == DEFAULT_SIZE <==> f.records == p.files[index].records)
            && t.completions == if f.records == p.files[index].records && p.files[index].notifies
                                then p.completions + [index] else p.completions
  {
    TimesMonotone(f.records, p.files[index].records, p.recordSize);
    assert bytes[..|bytes|] == bytes;
  }

  lemma SameLanding(s: Store, index: nat, bytes: seq<byte>, records: half)
    requires Idle(s)
    ensures Landed(PreparedStore(s, records, WRITE_PREPARE), index, bytes) == Landed(s, index, bytes)
  {
  }

  /** A file of `content` prepared for the server's file `index`. */
  ghost function Source(g: FileState, index: nat, content: seq<byte>, size: nat): FileState
    requires size > 0
  {
    WriteSetup(g, (index + 1) % 0x1_0000, content, size)
  }

  ghost predicate Chunked(content: seq<byte>, size: nat) {
    size > 0 && |content| > 0 && RecordsNeeded(|content|, size) <= MAX_FILE_RECORDS
  }

  lemma SourceWritable(s: Store, g: FileState, index: nat, content: seq<byte>)
    requires index < FILE_COUNT && Chunked(content, s.recordSize)
    ensures Writable(s, index, Source(g, index, content, s.recordSize))
  {
    hide RecordsNeeded, CountRecords;
    CountIsNeeded(|content|, s.recordSize);
  }

  /** Store t is s with file `index` starting with the content, then 0xFF up to n bytes, except that bytes left out
      of records of odd size are as in s; the other file is as in s. */
  ghost predicate CopiedInto(s: Store, t: Store, index: nat, content: seq<byte>, n: nat) {
    && index < FILE_COUNT && |s.files| == |t.files| == FILE_COUNT
    && t.files[1 - index] == s.files[1 - index]
    && var older, newer := s.files[index].bytes, t.files[index].bytes;
       && |content| <= n <= |older| == |newer|
       && newer[n..] == older[n..]
       && (forall k :: 0 <= k < n ==>
             newer[k] == if LeftOut(k, s.recordSize) then older[k] else if k < |content| then content[k] else 0xFF)
  }

  /** The content has arrived exactly if the bytes that were left out were there already; with records of even size,
      always. */
  lemma ArrivedWhole(s: Store, t: Store, index: nat, content: seq<byte>, n: nat)
    requires CopiedInto(s, t, index, content, n)
    ensures content <= t.files[index].bytes <==>
            forall k :: 0 <= k < |content| && LeftOut(k, s.recordSize) ==> s.files[index].bytes[k] == content[k]
    ensures s.recordSize % 2 == 0 ==> content <= t.files[index].bytes
  {
    var older, newer := s.files[index].bytes, t.files[index].bytes;
    if forall k :: 0 <= k < |content| && LeftOut(k, s.recordSize) ==> older[k] == content[k] {
      assert newer[..|content|] == content;
    }
    if content <= newer {
      forall k | 0 <= k < |content| && LeftOut(k, s.recordSize) ensures older[k] == content[k] {
        assert newer[k] == content[k];
      }
    }
  }

  /** End to end: if no exchange of a write task reports a fault, then, however faulty the line was, the server's file
      starts with the content, padded with 0xFF to whole records, and everything else is as before; records of odd size
      keep their last byte. The server is idle again exactly if the content fills all of its file's records. */
  lemma WriteTaskCopies(address: byte, s: Store, base: half, index: nat, g: FileState, content: seq<byte>,
                        c: ClientState, w1: Crossing, w2: Crossing, ws: seq<Crossing>)
    requires Chunked(content, s.recordSize)
    requires WriteTaskDone(address, s, base, index, Source(g, index, content, s.recordSize), c, w1, w2, ws)
    ensures base == HOLDING_OFFSET
    ensures var t := ServerAfter(address, s, w1, w2, ws, |ws|);
            && CopiedInto(s, t, index, content, |ws| * s.recordSize)
            && (content <= t.files[index].bytes <==>
                  forall k :: 0 <= k < |content| && LeftOut(k, s.recordSize) ==> s.files[index].bytes[k] == content[k])
            && (s.recordSize % 2 == 0 ==> content <= t.files[index].bytes)
            && |ws| == RecordsNeeded(|content|, s.recordSize) <= s.files[index].records
            && (t.counter == 0 && t.link.size == DEFAULT_SIZE <==> |ws| == s.files[index].records)
  {
    hide WriteProgress, PreparedStore, WriteTaskFine, RecordsNeeded, WriteSetup, Concatenated, ServerAfter, LineRun,
         Prepares, LeftOut;
    var f := Source(g, index, content, s.recordSize);
    WriteTaskOutcome(address, s, base, index, f, c, w1, w2, ws);
    WrittenStore(s, index, f);
    SourceContent(g, index, content, s.recordSize);
    ArrivedWhole(s, ServerAfter(address, s, w1, w2, ws, |ws|), index, content, |ws| * s.recordSize);
  }

  lemma SourceContent(g: FileState, index: nat, content: seq<byte>, size: nat)
    requires Chunked(content, size)
    ensures var f := Source(g, index, content, size);
            && f.records == RecordsNeeded(|content|, size)
            && content <= f.bytes && |f.bytes| == f.records * size
            && forall k :: |content| <= k < |f.bytes| ==> f.bytes[k] == 0xFF
  {
    hide RecordsNeeded, CountRecords, Concatenated;
    CountIsNeeded(|content|, size);
    WriteChunks(g, (index + 1) % 0x1_0000, content, size);
  }

  /** Lockstep: in a write task without a fault, each request is exactly as long as the server waits for when it
      arrives. */
  lemma WriteTaskLockstep(address: byte, s: Store, base: half, index: nat, f: FileState, c: ClientState,
                          w1: Crossing, w2: Crossing, ws: seq<Crossing>, k: nat)
    requires WriteTaskDone(address, s, base, index, f, c, w1, w2, ws)
    requires k < |ws|
    ensures |w1.arrived| == s.link.size == 8
    ensures WellFormed(s) && |w1.before| == Server.BUFFER_SIZE
            && |w2.arrived| == AfterCounter(address, s, w1).link.size == 8
    ensures |ws[k].arrived| == ServerAfter(address, s, w1, w2, ws, k).link.size == 12 + s.recordSize
  {
    hide WriteProgress, PreparedStore, Idle, Prepares, Satisfies, Responses, LineRun, Matches, Prepared,
         Through, AddressesInBounds, WellFormed, Request, RunQueue, GoesWell, Executed, StateAfter, WriteExchanges;
    var queue := WriteExchanges(address, f, s.recordSize, f.records);
    WriteTaskShape(address, s, base, index, f, w1, w2, ws);
    var p, d := PreparedStore(s, f.records, WRITE_PREPARE), c.(info := Fresh(WriteFileTask, f.records));
    WriteTaskOutcome(address, s, base, index, f, c, w1, w2, ws);
    PrepareOutcome(address, s, base, f.records, WRITE_PREPARE, w1, w2, c);
    PrepareLockstep(address, s, base, f.records, WRITE_PREPARE, w1, w2, c);
    PreparedMatches(s, index, f);
    RunGoesWell(d, queue, ws);
    GoesWellUpTo(d, queue, ws, k);
    WritesArrive(address, p, index, f, d, ws, k + 1);
    WritesArrive(address, p, index, f, d, ws, k);
    WriteProgressEnds(p, index, f);
    WriteExchangesAt(address, f, s.recordSize, f.records, k);
    RequestIsValid(queue[k]);
  }

  lemma GoesWellUpTo(c: ClientState, queue: seq<Exchange>, ws: seq<Crossing>, k: nat)
    requires k < |queue| == |ws| && GoesWell(c, queue, ws, |queue|)
    ensures GoesWell(c, queue, ws, k + 1) && GoesWell(c, queue, ws, k)
  {
    hide StateAfter, Responses;
  }

  lemma PrepareLockstep(address: byte, s: Store, base: half, records: half, command: half, w1: Crossing, w2: Crossing,
                        c: ClientState)
    requires WellFormed(s) && Prepares(address, s, base, records, command, w1, w2) && AddressesInBounds(base)
    requires PrepareConfirmed(c, address, base, records, command, w1, w2)
    ensures |w1.arrived| == s.link.size == 8
    ensures |w2.arrived| == AfterCounter(address, s, w1).link.size == 8
  {
    hide Crosses, Satisfies, Request, WellFormed, Confirmed, Served;
    var x1, x2 := CounterWrite(address, base, records), ControlWrite(address, base, command);
    ConfirmedIff(c, x1, w1);
    ConfirmedIff(c, x2, w2);
    RequestIsValid(x1);
    RequestIsValid(x2);
    SatisfiedIsGenuine(address, s, x1, w1);
    SatisfiedIsGenuine(address, AfterCounter(address, s, w1), x2, w2);
  }

  /** On a line that delivers everything, a write task with the expected register base and no more records than
      the server's file has no fault. With WriteTaskOutcome: on such a line, it has none exactly then. */
  lemma WriteTaskSucceeds(address: byte, s: Store, index: nat, f: FileState, c: ClientState, w1: Crossing, w2: Crossing,
                          ws: seq<Crossing>)
    requires Idle(s) && WriteTarget(s, index) && Writable(s, index, f) && f.records <= s.files[index].records
    requires PreparesPerfectly(address, s, HOLDING_OFFSET, f.records, WRITE_PREPARE, w1, w2)
    requires PerfectRun(address, Prepared(address, s, w1, w2), WriteExchanges(address, f, s.recordSize, f.records), ws)
    ensures WriteTaskDone(address, s, HOLDING_OFFSET, index, f, c, w1, w2, ws)
  {
    hide PreparedStore, Prepares, PrepareConfirmed, RunQueue, Responses, WriteExchanges, LineRun, Matches, Prepared,
         Delivered, Served, Through, TransferRegisters;
    PrepareSucceeds(address, s, f.records, WRITE_PREPARE, w1, w2, c);
    PreparedMatches(s, index, f);
    PerfectRunIsLineRun(address, Prepared(address, s, w1, w2), WriteExchanges(address, f, s.recordSize, f.records), ws);
    WritesSucceed(address, PreparedStore(s, f.records, WRITE_PREPARE), index, f,
        c.(info := Fresh(WriteFileTask, f.records)), ws);
  }

  // ---------- taskReadFile ----------

  ghost predicate ReadTarget(s: Store, index: nat) {
    && index < FILE_COUNT && |s.files| == FILE_COUNT
    && s.files[index].attributes.read && s.files[index].records > 0
    && 1 <= s.recordSize
  }

  /** A client file set up to read a whole file of this size. */
  ghost function Sink(g: FileState, index: nat, fileSize: nat, size: nat): FileState {
    ReadSetup(g, (index + 1) % 0x1_0000, fileSize, size)
  }

  /** The client while it reads records. */
  function AboutToRead(c: ClientState, f: FileState): ClientState {
    c.(info := Fresh(ReadFileTask, f.records), file := f)
  }

  /** taskReadFile for file `index` of an idle server: the prepare writes and the record reads cross the line. */
  ghost predicate ReadTask(address: byte, s: Store, base: half, index: nat, g: FileState, fileSize: nat,
                           w1: Crossing, w2: Crossing, ws: seq<Crossing>) {
    && Idle(s) && ReadTarget(s, index) && AddressesInBounds(base) && Clean(g) && ReadParameters(fileSize, s.recordSize)
    && var f := Sink(g, index, fileSize, s.recordSize);
       && Prepares(address, s, base, f.records, READ_PREPARE, w1, w2)
       && LineRun(address, Prepared(address, s, w1, w2), ReadQueue(address, index, f), ws)
  }

  /** The client at the end of the task's queue. */
  ghost function ClientAfter(address: byte, index: nat, f: FileState, c: ClientState, ws: seq<Crossing>): ClientState {
    if index < FILE_COUNT && |ws| == f.records
    then RunQueue(AboutToRead(c, f), ReadQueue(address, index, f), Responses(ReadQueue(address, index, f), ws))
    else c
  }

  /** The task crossed the line and its prepare writes were confirmed, so that records are read. */
  ghost predicate ReadTaskBegun(address: byte, s: Store, base: half, index: nat, g: FileState, fileSize: nat,
                                c: ClientState, w1: Crossing, w2: Crossing, ws: seq<Crossing>) {
    && ReadTask(address, s, base, index, g, fileSize, w1, w2, ws)
    && PrepareConfirmed(c, address, base, Sink(g, index, fileSize, s.recordSize).records, READ_PREPARE, w1, w2)
  }

  /** The task crossed the line and the client reported no fault. */
  ghost predicate ReadTaskDone(address: byte, s: Store, base: half, index: nat, g: FileState, fileSize: nat,
                               c: ClientState, w1: Crossing, w2: Crossing, ws: seq<Crossing>) {
    && ReadTaskBegun(address, s, base, index, g, fileSize, c, w1, w2, ws)
    && ClientAfter(address, index, Sink(g, index, fileSize, s.recordSize), c, ws).info.fault == NoFault
  }

  /** The client read nothing outside a response. */
  ghost predicate ReadDefined(address: byte, index: nat, f: FileState, c: ClientState, ws: seq<Crossing>) {
    && index < FILE_COUNT && |ws| == f.records
    && RunDefined(AboutToRead(c, f), ReadQueue(address, index, f), Responses(ReadQueue(address, index, f), ws))
  }

  lemma PreparedReads(s: Store, index: nat, g: FileState, fileSize: nat)
    requires Idle(s) && ReadTarget(s, index) && Clean(g) && ReadParameters(fileSize, s.recordSize)
    ensures var f := Sink(g, index, fileSize, s.recordSize);
            var p := PreparedStore(s, f.records, READ_PREPARE);
            && Reads(p, index, f) && p.files == s.files && p.recordSize == s.recordSize && p.counter == 0
            && p.link.size == READ_REQUEST_SIZE
  {
    hide ReadSetup, RecordsNeeded, TransferRegisters, Reads, CountRecords;
    var f := Sink(g, index, fileSize, s.recordSize);
    PrepareEffect(s, f.records, READ_PREPARE);
    ReadSetupReads(PreparedStore(s, f.records, READ_PREPARE), index, g, (index + 1) % 0x1_0000, fileSize);
  }

  lemma PreparesBuffers(address: byte, s: Store, base: half, records: half, command: half, w1: Crossing, w2: Crossing)
    requires WellFormed(s) && Prepares(address, s, base, records, command, w1, w2)
    ensures |w1.before| == |w2.before| == Server.BUFFER_SIZE
  {
    hide Crosses, WellFormed, AfterCounter;
  }

  /** A read task whose prepare phase is confirmed goes on as a read session of the prepared server. */
  lemma ReadTaskSession(address: byte, s: Store, base: half, index: nat, g: FileState, fileSize: nat, c: ClientState,
                        w1: Crossing, w2: Crossing, ws: seq<Crossing>)
    requires ReadTaskBegun(address, s, base, index, g, fileSize, c, w1, w2, ws)
    ensures base == HOLDING_OFFSET && Idle(s) && index < FILE_COUNT && |w1.before| == |w2.before| == Server.BUFFER_SIZE
    ensures Prepares(address, s, base, Sink(g, index, fileSize, s.recordSize).records, READ_PREPARE, w1, w2)
    ensures PrepareConfirmed(c, address, base, Sink(g, index, fileSize, s.recordSize).records, READ_PREPARE, w1, w2)
    ensures var f := Sink(g, index, fileSize, s.recordSize); var p := PreparedStore(s, f.records, READ_PREPARE);
            && Prepared(address, s, w1, w2) == p && p.files == s.files
            && ReadSession(address, p, index, f, AboutToRead(c, f), ws)
  {
    hide PreparedStore, Prepares, PrepareConfirmed, ReadQueue, LineRun, Reads, Prepared, AddressesInBounds,
         TransferRegisters, ReadSetup, ReadParameters;
    var f := Sink(g, index, fileSize, s.recordSize);
    PreparesBuffers(address, s, base, f.records, READ_PREPARE, w1, w2);
    PrepareOutcome(address, s, base, f.records, READ_PREPARE, w1, w2, c);
    PreparedReads(s, index, g, fileSize);
  }

  /** The server has counted all reads of the task and changed nothing else since it was prepared, and the client's
      file holds what the responses had to bring. */
  ghost predicate ReadTaskFaithful(address: byte, s: Store, index: nat, g: FileState, fileSize: nat, c: ClientState,
                                   w1: Crossing, w2: Crossing, ws: seq<Crossing>) {
    var f := Sink(g, index, fileSize, s.recordSize);
    && index < |s.files| && |s.registers| == REGISTER_COUNT
    && |ws| == f.records <= s.files[index].records
    && ServerAfter(address, s, w1, w2, ws, |ws|) == Counted(PreparedStore(s, f.records, READ_PREPARE), index, |ws|)
    && ClientAfter(address, index, f, c, ws).file == ReadProgress(f, s.files[index].bytes, |ws|)
  }

  /** A condition the caller can check: every record has at least six bytes, so the client always waits for twelve
      or more. */
  predicate LongRecords(fileSize: nat, size: nat) {
    size >= 6 && (fileSize <= size || fileSize % size >= 6)
  }

  lemma LengthOfRecord(g: FileState, index: nat, fileSize: nat, size: nat, k: nat)
    requires ReadParameters(fileSize, size) && k < Sink(g, index, fileSize, size).records
    ensures var f := Sink(g, index, fileSize, size);
            ActualRecordLength(f, k) == if k + 1 < f.records || fileSize <= size then size else fileSize % size
  {
    hide RecordsNeeded, CountRecords, ReadSetup, ActualRecordLength;
    RecordLength(g, (index + 1) % 0x1_0000, fileSize, size, k);
  }

  /** The condition says exactly that the client asks for three half words or more in every exchange. */
  lemma LongRecordsExactly(g: FileState, index: nat, fileSize: nat, size: nat)
    requires ReadParameters(fileSize, size)
    ensures var f := Sink(g, index, fileSize, size); LongRecords(fileSize, size) <==> LongTo(f, f.records)
    ensures var f := Sink(g, index, fileSize, size);
            f.records > 0 && (LongRecords(fileSize, size) <==> WordsOf(f, f.records - 1) >= 3)
  {
    hide ReadSetup, RecordsNeeded, CountRecords, ActualRecordLength;
    var f := Sink(g, index, fileSize, size);
    LastRecordLength(g, (index + 1) % 0x1_0000, fileSize, size);
    forall k | 0 <= k < f.records
      ensures ActualRecordLength(f, k) == if k + 1 < f.records || fileSize <= size then size else fileSize % size
    {
      LengthOfRecord(g, index, fileSize, size, k);
    }
    if LongTo(f, f.records) { assert WordsOf(f, f.records - 1) >= 3; }
  }

  /** A read task of long records without a fault, on any line, used the register base the server expects, fitted
      the server's file, counted its reads there and changed nothing else, and left in the client's file what the
      responses had to bring. */
  lemma ReadTaskOutcome(address: byte, s: Store, base: half, index: nat, g: FileState, fileSize: nat, c: ClientState,
                        w1: Crossing, w2: Crossing, ws: seq<Crossing>)
    requires ReadTaskDone(address, s, base, index, g, fileSize, c, w1, w2, ws) && LongRecords(fileSize, s.recordSize)
    ensures base == HOLDING_OFFSET && ReadTaskFaithful(address, s, index, g, fileSize, c, w1, w2, ws)
  {
    ReadTaskParameters(address, s, base, index, g, fileSize, c, w1, w2, ws);
    hide ReadTaskBegun, PreparedStore, Prepares, PrepareConfirmed, RunQueue, Responses, ReadQueue, ReadSession,
         Prepared, Through, TransferRegisters, ReadSetup, ReadProgress, Counted, LongTo, ReadParameters;
    ReadTaskSession(address, s, base, index, g, fileSize, c, w1, w2, ws);
    LongRecordsExactly(g, index, fileSize, s.recordSize);
    var f := Sink(g, index, fileSize, s.recordSize);
    var p, d := PreparedStore(s, f.records, READ_PREPARE), AboutToRead(c, f);
    ReadSessionShape(address, p, index, f, d, ws);
    SameRecordSize(s, f.records);
    if f.records > s.files[index].records {
      ReadOverrun(address, p, index, f, d, ws);
    } else {
      ReadRun(address, p, index, f, d, ws);
    }
  }

  lemma ReadTaskParameters(address: byte, s: Store, base: half, index: nat, g: FileState, fileSize: nat, c: ClientState,
                           w1: Crossing, w2: Crossing, ws: seq<Crossing>)
    requires ReadTaskBegun(address, s, base, index, g, fileSize, c, w1, w2, ws)
    ensures Idle(s) && ReadTarget(s, index) && Clean(g) && ReadParameters(fileSize, s.recordSize)
  {
    hide Prepares, PrepareConfirmed, ReadQueue, LineRun, ClientAfter, TransferRegisters, RecordsNeeded;
  }

  lemma SameRecordSize(s: Store, records: half)
    requires Idle(s)
    ensures PreparedStore(s, records, READ_PREPARE).recordSize == s.recordSize
  {
  }

  lemma CountedStore(p: Store, index: nat, k: nat)
    requires ReadyForReads(p, index) && k <= p.files[index].records
    ensures var t := Counted(p, index, k);
            && t.files == p.files && t.registers == p.registers
            && (t.counter == 0 && t.link.size == DEFAULT_SIZE <==> k == p.files[index].records)
  {
  }

  /** Of file `index` of s, the client's file h holds the bytes that were asked for, and zeros elsewhere. It is the
      beginning of the server's file exactly if the bytes not asked for are zero there, and always if every byte was
      asked for. The files of t are those of s, and t is idle exactly if all records of the file were read. */
  ghost predicate CopiedOut(s: Store, t: Store, index: nat, fileSize: nat, f: FileState, h: FileState) {
    && index < |s.files| && s.recordSize > 0
    && t.files == s.files
    && (t.counter == 0 && t.link.size == DEFAULT_SIZE <==> f.records == s.files[index].records)
    && var content := s.files[index].bytes;
       && |h.bytes| == f.fileSize <= |content| && h.ready
       && (forall j :: 0 <= j < f.fileSize ==> h.bytes[j] == if AskedFor(f, j) then content[j] else 0)
       && (h.bytes == content[..f.fileSize] <==> forall j :: 0 <= j < f.fileSize && !AskedFor(f, j) ==> content[j] == 0)
       && (WholeFileRequested(fileSize, s.recordSize) ==> h.bytes == content[..f.fileSize])
  }

  lemma FaithfulCopies(address: byte, s: Store, index: nat, g: FileState, fileSize: nat, c: ClientState,
                       w1: Crossing, w2: Crossing, ws: seq<Crossing>)
    requires Idle(s) && ReadTarget(s, index) && Clean(g) && ReadParameters(fileSize, s.recordSize)
    requires ReadTaskFaithful(address, s, index, g, fileSize, c, w1, w2, ws)
    ensures var f := Sink(g, index, fileSize, s.recordSize);
            CopiedOut(s, ServerAfter(address, s, w1, w2, ws, |ws|), index, fileSize, f,
                ClientAfter(address, index, f, c, ws).file)
  {
    hide PreparedStore, ReadQueue, ReadSetup, ReadProgress, Counted, AskedFor, WholeFileRequested, ClientAfter,
         ServerAfter, TransferRegisters, RecordsNeeded, Reads;
    var f := Sink(g, index, fileSize, s.recordSize);
    ReadTaskSetting(s, index, g, fileSize);
    PreparedReads(s, index, g, fileSize);
    FinalImage(g, (index + 1) % 0x1_0000, fileSize, s.recordSize, s.files[index].bytes);
    AllAskedFor(g, (index + 1) % 0x1_0000, fileSize, s.recordSize);
    CountedStore(PreparedStore(s, f.records, READ_PREPARE), index, |ws|);
  }

  lemma ReadTaskSetting(s: Store, index: nat, g: FileState, fileSize: nat)
    requires Idle(s) && ReadTarget(s, index) && Clean(g) && ReadParameters(fileSize, s.recordSize)
    requires Sink(g, index, fileSize, s.recordSize).records <= s.files[index].records
    ensures Sink(g, index, fileSize, s.recordSize).fileSize <= |s.files[index].bytes|
    ensures ReadyForReads(PreparedStore(s, Sink(g, index, fileSize, s.recordSize).records, READ_PREPARE), index)
  {
    hide TransferRegisters, RecordsNeeded, CountRecords, PreparedStore;
    PreparedReads(s, index, g, fileSize);
    StoredSizeFits(g, index, fileSize, s.recordSize);
    TimesMonotone(Sink(g, index, fileSize, s.recordSize).records, s.files[index].records, s.recordSize);
  }

  lemma StoredSizeFits(g: FileState, index: nat, fileSize: nat, size: nat)
    requires ReadParameters(fileSize, size)
    ensures var f := Sink(g, index, fileSize, size); f.fileSize <= f.records * size
  {
    hide RecordsNeeded, CountRecords;
    CountIsNeeded(fileSize, size);
  }

  /** End to end: if no exchange of a read task of long records reports a fault, then, however faulty the line was,
      the file is copied to the client as far as it was asked for, and the server's files are untouched. */
  lemma ReadTaskCopies(address: byte, s: Store, base: half, index: nat, g: FileState, fileSize: nat, c: ClientState,
                       w1: Crossing, w2: Crossing, ws: seq<Crossing>)
    requires ReadTaskDone(address, s, base, index, g, fileSize, c, w1, w2, ws) && LongRecords(fileSize, s.recordSize)
    ensures base == HOLDING_OFFSET
    ensures var f := Sink(g, index, fileSize, s.recordSize);
            CopiedOut(s, ServerAfter(address, s, w1, w2, ws, |ws|), index, fileSize, f,
                ClientAfter(address, index, f, c, ws).file)
  {
    hide ReadTaskBegun, ReadTaskFaithful, CopiedOut, ReadSetup, ClientAfter, ServerAfter, TransferRegisters,
         RecordsNeeded;
    ReadTaskParameters(address, s, base, index, g, fileSize, c, w1, w2, ws);
    ReadTaskOutcome(address, s, base, index, g, fileSize, c, w1, w2, ws);
    FaithfulCopies(address, s, index, g, fileSize, c, w1, w2, ws);
  }

  /** Lockstep of a read task without a fault in which nothing is read outside a response, for records of any length
      and on any line: even a damaged request is as long as the server waits for, or the client would have had no
      response. */
  lemma ReadTaskLockstep(address: byte, s: Store, base: half, index: nat, g: FileState, fileSize: nat, c: ClientState,
                         w1: Crossing, w2: Crossing, ws: seq<Crossing>, k: nat)
    requires ReadTaskDone(address, s, base, index, g, fileSize, c, w1, w2, ws) && k < |ws|
    requires ReadDefined(address, index, Sink(g, index, fileSize, s.recordSize), c, ws)
    ensures |w1.arrived| == s.link.size == 8
    ensures WellFormed(s) && |w1.before| == Server.BUFFER_SIZE
            && |w2.arrived| == AfterCounter(address, s, w1).link.size == 8
    ensures |ws[k].arrived| == ServerAfter(address, s, w1, w2, ws, k).link.size == 12
  {
    hide ReadDefined, ReadTaskBegun, PreparedStore, Prepares, PrepareConfirmed, RunQueue, Responses, ReadQueue,
         Prepared, Through, TransferRegisters, ReadSetup, ReadProgress, Counted, Request, GoesWell, Executed,
         StateAfter, LineRun, Satisfies, Reads, Crosses;
    ReadTaskSession(address, s, base, index, g, fileSize, c, w1, w2, ws);
    var f := Sink(g, index, fileSize, s.recordSize);
    PrepareLockstep(address, s, base, f.records, READ_PREPARE, w1, w2, c);
    var p, d, queue := PreparedStore(s, f.records, READ_PREPARE), AboutToRead(c, f), ReadQueue(address, index, f);
    ReadSessionShape(address, p, index, f, d, ws);
    RunGoesWell(d, queue, ws);
    GoesWellUpTo(d, queue, ws, k);
    WentWell(d, queue, ws, k + 1);
    RunShape(address, p, queue, ws, k);
    ReadRequestLength(address, index, f, k);
    SatisfiedIsAligned(address, Through(address, p, ws, k), queue[k], ws[k]);
  }

  lemma ReadRequestLength(address: byte, index: nat, f: FileState, k: nat)
    requires index < FILE_COUNT && k < f.records
    ensures var x := ReadQueue(address, index, f)[k];
            |Request(x)| == READ_REQUEST_SIZE && TransferExchange(x) && Bounded(x) && x.address == address
  {
    hide Request;
    ReadExchangesAt(address, index + 1, f, f.records, k);
    RequestIsValid(ReadQueue(address, index, f)[k]);
  }

  /** On a line that delivers everything, a read task with the expected register base and no more records than
      the server's file has no fault and copies the file, whatever the record lengths. */
  lemma ReadTaskSucceeds(address: byte, s: Store, index: nat, g: FileState, fileSize: nat, c: ClientState,
                         w1: Crossing, w2: Crossing, ws: seq<Crossing>)
    requires Idle(s) && ReadTarget(s, index) && Clean(g) && ReadParameters(fileSize, s.recordSize)
    requires var f := Sink(g, index, fileSize, s.recordSize);
             && f.records <= s.files[index].records
             && PreparesPerfectly(address, s, HOLDING_OFFSET, f.records, READ_PREPARE, w1, w2)
             && PerfectRun(address, Prepared(address, s, w1, w2), ReadQueue(address, index, f), ws)
    ensures ReadTaskDone(address, s, HOLDING_OFFSET, index, g, fileSize, c, w1, w2, ws)
    ensures ReadTaskFaithful(address, s, index, g, fileSize, c, w1, w2, ws)
  {
    hide PreparedStore, Prepares, PrepareConfirmed, RunQueue, Responses, ReadQueue, LineRun, Reads, Prepared, Through,
         TransferRegisters, ReadSetup, ReadParameters, Delivered, Served, PerfectRun, ReadProgress, Counted;
    var f := Sink(g, index, fileSize, s.recordSize);
    PrepareSucceeds(address, s, f.records, READ_PREPARE, w1, w2, c);
    PreparedReads(s, index, g, fileSize);
    var p := PreparedStore(s, f.records, READ_PREPARE);
    ReadsSucceed(address, p, index, f, AboutToRead(c, f), ws);
    ReadSessionShape(address, p, index, f, AboutToRead(c, f), ws);
    assert AddressesInBounds(HOLDING_OFFSET);
  }
}
