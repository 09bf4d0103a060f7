/** Read tasks on every line: exactly which file and record sizes are safe. */
module Safety {
  import opened Bytes
  import Frame
  import Limits
  import Server
  import opened Resources
  import opened Records
  import opened ClientFile
  import opened Chunks
  import opened Client
  import opened Queue
  import opened Line
  import opened Transfer
  import opened Reading
  import opened Image
  import opened Session
  import opened Tasks
  import opened RoundTrip
  import opened Exposure

  /** An idle server and a client about to read a file of this size from it that the server has enough records for. */
  ghost predicate ReadSetting(s: Store, index: nat, g: FileState, fileSize: nat) {
    && Idle(s) && ReadTarget(s, index) && Clean(g) && ReadParameters(fileSize, s.recordSize)
    && Sink(g, index, fileSize, s.recordSize).records <= s.files[index].records
  }

  lemma SettingReads(s: Store, index: nat, g: FileState, fileSize: nat, c: ClientState)
    requires ReadSetting(s, index, g, fileSize)
    ensures index < FILE_COUNT && Idle(s) && |s.registers| == REGISTER_COUNT && |s.files| == FILE_COUNT
    ensures ReadParameters(fileSize, s.recordSize)
    ensures var f := Sink(g, index, fileSize, s.recordSize); var p := PreparedStore(s, f.records, READ_PREPARE);
            && Reads(p, index, f) && Reader(AboutToRead(c, f), f) && p.files == s.files && p.recordSize == s.recordSize
            && 0 < f.records <= p.files[index].records && f.recordSize == s.recordSize
  {
    hide ReadSetup, RecordsNeeded, TransferRegisters, CountRecords, ReadParameters, PreparedStore;
    PreparedReads(s, index, g, fileSize);
    IdleShape(s);
  }

  lemma IdleShape(s: Store)
    requires Idle(s)
    ensures |s.registers| == REGISTER_COUNT && |s.files| == FILE_COUNT
  {
  }

  /** Every read session of the prepared server is part of a read task. */
  lemma SessionTask(address: byte, s: Store, index: nat, g: FileState, fileSize: nat, c: ClientState, ws: seq<Crossing>)
    returns (w1: Crossing, w2: Crossing)
    requires ReadSetting(s, index, g, fileSize) && |s.registers| == REGISTER_COUNT
    requires var f := Sink(g, index, fileSize, s.recordSize); var p := PreparedStore(s, f.records, READ_PREPARE);
             ReadSession(address, p, index, f, AboutToRead(c, f), ws)
    ensures ReadTaskBegun(address, s, HOLDING_OFFSET, index, g, fileSize, c, w1, w2, ws)
    ensures var p := PreparedStore(s, Sink(g, index, fileSize, s.recordSize).records, READ_PREPARE);
            && WellFormed(p) && Buffers(ws)
            && ServerAfter(address, s, w1, w2, ws, |ws|) == Through(address, p, ws, |ws|)
  {
    hide PreparedStore, Prepares, PrepareConfirmed, ReadQueue, Prepared, Through, TransferRegisters, ReadSetup,
         ReadParameters, PreparesPerfectly, Reads, LineRun, RecordsNeeded;
    var f := Sink(g, index, fileSize, s.recordSize);
    ReadSessionShape(address, PreparedStore(s, f.records, READ_PREPARE), index, f, AboutToRead(c, f), ws);
    w1, w2 := PreparesFor(address, s, f.records, READ_PREPARE, seq(Server.BUFFER_SIZE, _ => 0));
    PerfectBuffers(address, s, f.records, READ_PREPARE, w1, w2);
    PrepareSucceeds(address, s, f.records, READ_PREPARE, w1, w2, c);
    assert AddressesInBounds(HOLDING_OFFSET);
  }

  lemma PerfectBuffers(address: byte, s: Store, records: half, command: half, w1: Crossing, w2: Crossing)
    requires WellFormed(s) && PreparesPerfectly(address, s, HOLDING_OFFSET, records, command, w1, w2)
    ensures |w1.before| == |w2.before| == Server.BUFFER_SIZE
  {
    hide WellFormed, Delivered;
  }

  // ---------- Forged records ----------

  /** Of a read task with a short record there is a run without a fault, in which nothing is read outside a
      response, that brings any payload for that record and leaves the server one read behind. */
  lemma ForgedTask(address: byte, s: Store, index: nat, g: FileState, fileSize: nat, c: ClientState, p: nat,
                   payload: seq<byte>)
    returns (w1: Crossing, w2: Crossing, ws: seq<Crossing>)
    requires ReadSetting(s, index, g, fileSize)
    requires var f := Sink(g, index, fileSize, s.recordSize);
             p < f.records && WordsOf(f, p) <= 2 && |payload| == 2 * WordsOf(f, p)
    ensures ReadTaskDone(address, s, HOLDING_OFFSET, index, g, fileSize, c, w1, w2, ws)
    ensures |s.registers| == REGISTER_COUNT && index < FILE_COUNT
    ensures var f := Sink(g, index, fileSize, s.recordSize);
            && ReadDefined(address, index, f, c, ws) && f.records > 0
            && Drained(ReadQueue(address, index, f), ws, f.records, p)
            && ClientAfter(address, index, f, c, ws).file
               == ReadProgress(f, WithRecord(s, index, p, payload), f.records)
            && ServerAfter(address, s, w1, w2, ws, |ws|)
               == Counted(PreparedStore(s, f.records, READ_PREPARE), index, f.records - 1)
  {
    hide PreparedStore, ReadSetup, ReadSetting, Reads, Reader, WordsOf, ReadSession, ReadTaskBegun, ReadQueue, RunQueue,
         RunDefined, Responses, Through, Counted, ReadProgress, Overwrite, ServerAfter, Idle;
    SettingReads(s, index, g, fileSize, c);
    var f := Sink(g, index, fileSize, s.recordSize);
    var p', d := PreparedStore(s, f.records, READ_PREPARE), AboutToRead(c, f);
    ws := ForgedRun(address, p', index, f, d, p, payload);
    w1, w2 := SessionTask(address, s, index, g, fileSize, c, ws);
  }

  lemma CountsDiffer(p: Store, index: nat, f: FileState)
    requires Reads(p, index, f) && 0 < f.records <= p.files[index].records
    ensures Counted(p, index, f.records - 1) != Counted(p, index, f.records)
  {
    hide ActualRecordLength;
  }

  /** A read task without a fault is faithful on every line exactly if its records are long. */
  lemma FaithfulExactly(address: byte, s: Store, index: nat, g: FileState, fileSize: nat, c: ClientState)
    requires ReadSetting(s, index, g, fileSize)
    ensures LongRecords(fileSize, s.recordSize) <==>
            forall base, w1, w2, ws :: ReadTaskDone(address, s, base, index, g, fileSize, c, w1, w2, ws) ==>
              ReadTaskFaithful(address, s, index, g, fileSize, c, w1, w2, ws)
  {
    hide ReadTaskDone, ReadDefined, ClientAfter, ServerAfter, PreparedStore, ReadSetup, ReadProgress, Counted, Reads,
         WithRecord, ReadParameters, WordsOf, LongTo, Idle;
    var f := Sink(g, index, fileSize, s.recordSize);
    LongRecordsExactly(g, index, fileSize, s.recordSize);
    if LongRecords(fileSize, s.recordSize) {
      forall base, w1, w2, ws | ReadTaskDone(address, s, base, index, g, fileSize, c, w1, w2, ws)
        ensures ReadTaskFaithful(address, s, index, g, fileSize, c, w1, w2, ws)
      {
        ReadTaskOutcome(address, s, base, index, g, fileSize, c, w1, w2, ws);
      }
    } else {
      var n := f.records - 1;
      var w1, w2, ws := ForgedTask(address, s, index, g, fileSize, c, n, seq(2 * WordsOf(f, n), _ => 0));
      SettingReads(s, index, g, fileSize, c);
      CountsDiffer(PreparedStore(s, f.records, READ_PREPARE), index, f);
      DoneLength(address, index, f, c, ws);
      assert ReadTaskDone(address, s, HOLDING_OFFSET, index, g, fileSize, c, w1, w2, ws);
    }
  }

  lemma DoneLength(address: byte, index: nat, f: FileState, c: ClientState, ws: seq<Crossing>)
    requires ReadDefined(address, index, f, c, ws)
    ensures |ws| == f.records
  {
    hide RunDefined, ReadQueue, Responses;
  }

  // ---------- Reading outside a response ----------

  /** The sizes for which no record leaves room in the file for more than its response brings. */
  predicate RoomForNoMore(fileSize: nat, size: nat) {
    if fileSize <= size then size >= 6 || size % 2 == 0
        else size >= 6 && (fileSize % size >= 6 || fileSize % size in {2, 4})
  }

  lemma RoomExactly(g: FileState, index: nat, fileSize: nat, size: nat)
    requires ReadParameters(fileSize, size)
    ensures var f := Sink(g, index, fileSize, size);
            RoomForNoMore(fileSize, size) <==> forall k :: 0 <= k < f.records ==> StaysInside(f, k)
  {
    hide ReadSetup, RecordsNeeded, CountRecords, ActualRecordLength, StaysInside;
    var f := Sink(g, index, fileSize, size);
    LastRecordLength(g, (index + 1) % 0x1_0000, fileSize, size);
    LastRecordStart(fileSize, size, f.records);
    forall k | 0 <= k < f.records
      ensures StaysInside(f, k) <==>
              if k + 1 < f.records || fileSize <= size then size >= 6 || (fileSize <= size && size % 2 == 0)
              else fileSize % size >= 6 || fileSize % size in {2, 4}
    {
      LengthOfRecord(g, index, fileSize, size, k);
      InsideAt(f, fileSize, size, k);
    }
    assert StaysInside(f, f.records - 1) || !StaysInside(f, f.records - 1);
    assert StaysInside(f, 0) || !StaysInside(f, 0);
  }

  lemma InsideAt(f: FileState, fileSize: nat, size: nat, k: nat)
    requires size > 0 && k < f.records && f.recordSize == size
    requires f.fileSize == if fileSize <= size then size else fileSize
    requires ActualRecordLength(f, k) == if k + 1 < f.records || fileSize <= size then size else fileSize % size
    requires (f.records - 1) * size == if fileSize % size == 0 then fileSize - size else fileSize - fileSize % size
    requires fileSize > 0 && ((f.records - 1) * size == 0 <==> fileSize <= size)
    ensures StaysInside(f, k) <==>
            if k + 1 < f.records || fileSize <= size then size >= 6 || (fileSize <= size && size % 2 == 0)
            else fileSize % size >= 6 || fileSize % size in {2, 4}
  {
    hide ActualRecordLength;
    if k + 1 < f.records {
      TimesMonotone(k + 1, f.records - 1, size);
      NextMultiple(k, size);
    }
  }

  /** No line makes the client read outside a response exactly under that condition on the sizes, whether or not a
      fault is reported. */
  lemma DefinedExactly(address: byte, s: Store, index: nat, g: FileState, fileSize: nat, c: ClientState)
    requires ReadSetting(s, index, g, fileSize)
    ensures RoomForNoMore(fileSize, s.recordSize) <==>
            forall base, w1, w2, ws :: ReadTaskBegun(address, s, base, index, g, fileSize, c, w1, w2, ws) ==>
              ReadDefined(address, index, Sink(g, index, fileSize, s.recordSize), c, ws)
  {
    hide ReadTaskBegun, PreparedStore, ReadSetup, Reads, Reader, ReadParameters, WordsOf, Idle, StaysInside, RunDefined,
         ReadQueue, Responses, ReadSession;
    var f := Sink(g, index, fileSize, s.recordSize);
    SettingReads(s, index, g, fileSize, c);
    RoomExactly(g, index, fileSize, s.recordSize);
    var p := PreparedStore(s, f.records, READ_PREPARE);
    if RoomForNoMore(fileSize, s.recordSize) {
      forall base, w1, w2, ws | ReadTaskBegun(address, s, base, index, g, fileSize, c, w1, w2, ws)
        ensures ReadDefined(address, index, f, c, ws)
      {
        ReadTaskSession(address, s, base, index, g, fileSize, c, w1, w2, ws);
        ReadRunDefined(address, p, index, f, AboutToRead(c, f), ws);
      }
    } else {
      var k :| 0 <= k < f.records && !StaysInside(f, k);
      var ws := OverreadRun(address, p, index, f, AboutToRead(c, f), k);
      var w1, w2 := SessionTask(address, s, index, g, fileSize, c, ws);
      assert !ReadDefined(address, index, f, c, ws);
    }
  }

  // ---------- Wrong content ----------

  /** The sizes for which no record has one or two half words. */
  predicate NoForgeableRecord(fileSize: nat, size: nat) {
    size == 1 || (size >= 6 && (fileSize <= size || fileSize % size <= 1 || fileSize % size >= 6))
  }

  /** Outside these sizes there is a record that can be forged into something else: the last one, unless it is empty. */
  lemma ForgeableRecord(g: FileState, index: nat, fileSize: nat, size: nat) returns (k: nat)
    requires ReadParameters(fileSize, size) && !NoForgeableRecord(fileSize, size)
    ensures var f := Sink(g, index, fileSize, size);
            k < f.records && 1 <= WordsOf(f, k) <= 2 && (k + 1 < f.records ==> WordsOf(f, f.records - 1) == 0)
  {
    hide ReadSetup, RecordsNeeded, CountRecords, ActualRecordLength;
    var f := Sink(g, index, fileSize, size);
    LastRecordLength(g, (index + 1) % 0x1_0000, fileSize, size);
    LengthOfRecord(g, index, fileSize, size, 0);
    LengthOfRecord(g, index, fileSize, size, f.records - 1);
    k := if WordsOf(f, f.records - 1) > 0 then f.records - 1 else 0;
    LastRecordStart(fileSize, size, f.records);
  }

  /** A forged record shows in the client's file. */
  lemma ForgeryShows(s: Store, index: nat, f: FileState, p: nat, payload: seq<byte>)
    requires Reads(s, index, f) && p < f.records <= s.files[index].records && 1 <= WordsOf(f, p)
             && |payload| == 2 * WordsOf(f, p)
    requires index < |s.files| && p * s.recordSize < |s.files[index].bytes|
             && payload[0] != s.files[index].bytes[p * s.recordSize]
    ensures ReadProgress(f, WithRecord(s, index, p, payload), f.records) != ReadProgress(f, s.files[index].bytes,
            f.records)
  {
    hide Reads, WordsOf;
    RecordRoom(s, index, f, p);
    PortionFits(s, index, f, p);
    var at := p * s.recordSize;
    DivModUnique(at, s.recordSize, p, 0);
    var a, b := Assembled(f, WithRecord(s, index, p, payload), f.records),
        Assembled(f, s.files[index].bytes, f.records);
    assert a[at] == payload[0] && b[at] == s.files[index].bytes[at];
  }

  /** An accepted response to a request for nothing brings nothing, whoever sent it, unless it is read outside. */
  lemma EmptyTaken(f: FileState, content: seq<byte>, k: nat, c: ClientState, x: Exchange, response: seq<byte>)
    requires k < f.records && f.recordSize > 0 && |f.bytes| == f.fileSize && WordsOf(f, k) == 0
    requires k * f.recordSize <= f.fileSize && k * f.recordSize <= |content|
    requires c.info.task.ReadFileTask? && c.file == ReadProgress(f, content, k)
    requires |response| == Expected(x) == 7 && CallbackDefined(Begun(c, x), response)
    requires Step(c, x, response).info.fault == NoFault
    ensures Step(c, x, response).file == ReadProgress(f, content, k + 1)
  {
    hide Frame.ChecksumValid, Expected, Assembled, WordsOf, Overwrite, Value, Load;
    StepLoads(c, x, response);
    EmptyLength(f, content, k, Frame.Pdu(response));
    LoadNext(f, content, k, [], Frame.Pdu(response));
  }

  lemma EmptyLength(f: FileState, content: seq<byte>, k: nat, message: seq<byte>)
    requires k < f.records && |message| == 4 && k * f.recordSize <= f.fileSize
    requires var g := ReadProgress(f, content, k); Loadable(g, message) && g.fileSize <= |g.bytes| && Load(g, message).1
    ensures Value(message[2]) == 0 && message[4..4] == []
  {
    hide Assembled, Value, Overwrite;
    var g := ReadProgress(f, content, k);
    assert g.counter * g.recordSize == k * f.recordSize;
  }

  lemma StepLoads(c: ClientState, x: Exchange, response: seq<byte>)
    requires c.info.task.ReadFileTask? && |response| == Expected(x) && |response| == 7
    requires CallbackDefined(Begun(c, x), response) && Step(c, x, response).info.fault == NoFault
    ensures |Frame.Pdu(response)| == 4 && Loadable(c.file, Frame.Pdu(response)) && c.file.fileSize <= |c.file.bytes|
    ensures Load(c.file, Frame.Pdu(response)) == (Step(c, x, response).file, true)
  {
    hide Frame.ChecksumValid, Expected, Load, Loadable;
  }

  /** No record has one or two half words. */
  ghost predicate Unforgeable(f: FileState) {
    forall k :: 0 <= k < f.records ==> WordsOf(f, k) == 0 || WordsOf(f, k) >= 3
  }

  /** Without a record that can be forged, as long as no fault is reported and nothing is read outside a response,
      the client holds the right bytes; the server has counted some m of the k reads. */
  lemma {:induction false} ContentArrives(address: byte, s: Store, index: nat, f: FileState, c: ClientState,
                                          ws: seq<Crossing>, k: nat)
    returns (m: nat)
    requires ReadSession(address, s, index, f, c, ws) && k <= f.records <= s.files[index].records && Unforgeable(f)
    requires GoesWell(c, ReadQueue(address, index, f), ws, k)
    requires FineTo(c, ReadQueue(address, index, f), ws, k)
    ensures m <= k && ReadStateAt(address, s, index, f, c, ws, m, s.files[index].bytes, k)
    decreases k
  {
    hide ReadSession, Satisfies, Request, CallbackDefined, Responses, StateAfter, ReadQueue, WellFormed, LineRun, Step,
         Through, Counted, Reads, WordsOf, ReadStateAt, FineTo, GoesWell;
    ReadSessionShape(address, s, index, f, c, ws);
    m := 0;
    if k > 0 {
      FineBefore(c, ReadQueue(address, index, f), ws, k);
      GoesWellBefore(c, ReadQueue(address, index, f), ws, k);
      m := ContentArrives(address, s, index, f, c, ws, k - 1);
      WentWell(c, ReadQueue(address, index, f), ws, k);
      m := ContentNext(address, s, index, f, c, ws, m, k - 1);
    }
  }

  lemma FineBefore(c: ClientState, queue: seq<Exchange>, ws: seq<Crossing>, k: nat)
    requires FineTo(c, queue, ws, k) && k > 0
    ensures FineTo(c, queue, ws, k - 1) && k <= |queue| == |ws|
    ensures CallbackDefined(Begun(StateAfter(c, queue, Responses(queue, ws), k - 1), queue[k - 1]),
            Heard(queue[k - 1], ws[k - 1]))
    ensures StateAfter(c, queue, Responses(queue, ws), k).info.fault == NoFault
  {
    hide CallbackDefined, StateAfter, Responses, Heard;
  }

  lemma ContentNext(address: byte, s: Store, index: nat, f: FileState, c: ClientState, ws: seq<Crossing>, m: nat,
                    k: nat)
    returns (m': nat)
    requires ReadSession(address, s, index, f, c, ws) && m <= k < f.records <= s.files[index].records && Unforgeable(f)
    requires |ws| == f.records && Satisfies(ReadQueue(address, index, f)[k], ws[k])
    requires FineTo(c, ReadQueue(address, index, f), ws, k + 1)
    requires ReadStateAt(address, s, index, f, c, ws, m, s.files[index].bytes, k)
    ensures m' <= k + 1 && ReadStateAt(address, s, index, f, c, ws, m', s.files[index].bytes, k + 1)
  {
    hide Request, CallbackDefined, Responses, StateAfter, ReadQueue, WellFormed, LineRun, Step, Through, ReadProgress,
         Counted, Reads, WordsOf, FineTo, Crosses, Heard, Expected, Frame.ChecksumValid, Portion, Unforgeable, Served;
    ReadSessionShape(address, s, index, f, c, ws);
    var queue, bytes := ReadQueue(address, index, f), s.files[index].bytes;
    RunShape(address, s, queue, ws, k);
    QueuedRead(address, s, index, f, k);
    PortionFits(s, index, f, k);
    RecordRoom(s, index, f, k);
    RequestIsValid(queue[k]);
    FineBefore(c, queue, ws, k + 1);
    UnforgeableAt(f, k);
    if WordsOf(f, k) >= 3 || ws[k].arrived == Request(queue[k]) {
      PortionSupplies(s, index, f, k);
      ReadStateAtNext(address, s, index, f, c, ws, m, bytes, k);
      m' := m + 1;
    } else {
      RunNext(address, s, c, queue, ws, k);
      AcceptedIsGenuine(address, Through(address, s, ws, k), queue[k], ws[k]);
      EmptyTaken(f, bytes, k, StateAfter(c, queue, Responses(queue, ws), k), queue[k], Heard(queue[k], ws[k]));
      KeepsTask(StateAfter(c, queue, Responses(queue, ws), k), queue[k], Heard(queue[k], ws[k]));
      m' := m;
    }
  }

  lemma UnforgeableAt(f: FileState, k: nat)
    requires Unforgeable(f) && k < f.records
    ensures WordsOf(f, k) == 0 || WordsOf(f, k) >= 3
  {
    hide WordsOf;
  }

  lemma KeepsTask(c: ClientState, x: Exchange, response: seq<byte>)
    ensures Step(c, x, response).info.task == c.info.task
  {
    hide Load, Loadable, Frame.Pdu, Frame.ChecksumValid, Expected;
  }

  /** So a run without a fault in which nothing is read outside a response leaves the right file. */
  lemma UnforgeableContent(address: byte, s: Store, index: nat, f: FileState, c: ClientState, ws: seq<Crossing>)
    requires ReadSession(address, s, index, f, c, ws) && f.records <= s.files[index].records && Unforgeable(f)
    requires |ws| == f.records
             && RunDefined(c, ReadQueue(address, index, f), Responses(ReadQueue(address, index, f), ws))
    requires RunQueue(c, ReadQueue(address, index, f), Responses(ReadQueue(address, index, f), ws)).info.fault
             == NoFault
    ensures RunQueue(c, ReadQueue(address, index, f), Responses(ReadQueue(address, index, f), ws)).file
            == ReadProgress(f, s.files[index].bytes, f.records)
  {
    hide ReadProgress, RunQueue, Executed, RunDefined, ReadQueue, Responses, StateAfter, Through, Counted, Reads,
         LineRun, WordsOf, CallbackDefined, Step, GoesWell, Heard, Expected, WellFormed, Unforgeable, FineTo;
    ReadSessionShape(address, s, index, f, c, ws);
    var queue := ReadQueue(address, index, f);
    RunGoesWell(c, queue, ws);
    FineAll(c, queue, ws);
    var m := ContentArrives(address, s, index, f, c, ws, f.records);
  }

  lemma FineAll(c: ClientState, queue: seq<Exchange>, ws: seq<Crossing>)
    requires |queue| == |ws| && RunDefined(c, queue, Responses(queue, ws)) && c.info.fault == NoFault
    requires RunQueue(c, queue, Responses(queue, ws)).info.fault == NoFault
    ensures FineTo(c, queue, ws, |queue|)
  {
    hide CallbackDefined, StateAfter, RunDefined, RunQueue, Executed, Heard, Step, Frame.ChecksumValid, Expected;
    FaultFreeRun(c, queue, Responses(queue, ws));
    forall j | 0 <= j < |queue|
      ensures CallbackDefined(Begun(StateAfter(c, queue, Responses(queue, ws), j), queue[j]), Heard(queue[j], ws[j]))
    {
      RunDefinedAt(c, queue, ws, j);
    }
  }

  lemma RunDefinedAt(c: ClientState, queue: seq<Exchange>, ws: seq<Crossing>, k: nat)
    requires k < |queue| == |ws| && RunDefined(c, queue, Responses(queue, ws))
             && k < Executed(c, queue, Responses(queue, ws))
    ensures CallbackDefined(Begun(StateAfter(c, queue, Responses(queue, ws), k), queue[k]), Heard(queue[k], ws[k]))
  {
    hide CallbackDefined, RunDefined, Executed, StateAfter, Heard;
    RunDefinedBySteps(c, queue, Responses(queue, ws));
    assert Responses(queue, ws)[k] == Heard(queue[k], ws[k]);
  }

  /** A read task without a fault in which nothing is read outside a response leaves, on every line, the right bytes
      in the client's file exactly if no record has one or two half words. */
  lemma ContentExactly(address: byte, s: Store, index: nat, g: FileState, fileSize: nat, c: ClientState)
    requires ReadSetting(s, index, g, fileSize)
    ensures |s.files| == FILE_COUNT && index < FILE_COUNT
    ensures var f := Sink(g, index, fileSize, s.recordSize);
            NoForgeableRecord(fileSize, s.recordSize) <==>
            forall base, w1, w2, ws ::
              && ReadTaskDone(address, s, base, index, g, fileSize, c, w1, w2, ws)
              && ReadDefined(address, index, f, c, ws) ==>
                ClientAfter(address, index, f, c, ws).file == ReadProgress(f, s.files[index].bytes, f.records)
  {
    hide ReadTaskBegun, ReadDefined, ReadSetup, ReadProgress, Reads, WithRecord, ReadParameters, WordsOf, LongTo, Idle,
         RunDefined, ReadQueue, RunQueue, Responses, PreparedStore, ServerAfter, ClientAfter, XorByte;
    var f := Sink(g, index, fileSize, s.recordSize);
    SettingReads(s, index, g, fileSize, c);
    var bytes := s.files[index].bytes;
    if NoForgeableRecord(fileSize, s.recordSize) {
      forall base, w1, w2, ws | ReadTaskDone(address, s, base, index, g, fileSize, c, w1, w2, ws)
          && ReadDefined(address, index, f, c, ws)
        ensures ClientAfter(address, index, f, c, ws).file == ReadProgress(f, bytes, f.records)
      {
        RightContent(address, s, base, index, g, fileSize, c, w1, w2, ws);
      }
    } else {
      var w1, w2, ws := WrongContent(address, s, index, g, fileSize, c);
      assert ReadTaskDone(address, s, HOLDING_OFFSET, index, g, fileSize, c, w1, w2, ws);
    }
  }

  lemma RightContent(address: byte, s: Store, base: half, index: nat, g: FileState, fileSize: nat, c: ClientState,
                     w1: Crossing, w2: Crossing, ws: seq<Crossing>)
    requires ReadSetting(s, index, g, fileSize) && |s.files| == FILE_COUNT && index < FILE_COUNT
    requires NoForgeableRecord(fileSize, s.recordSize)
             && ReadTaskDone(address, s, base, index, g, fileSize, c, w1, w2, ws)
    requires ReadDefined(address, index, Sink(g, index, fileSize, s.recordSize), c, ws)
    ensures var f := Sink(g, index, fileSize, s.recordSize);
            ClientAfter(address, index, f, c, ws).file == ReadProgress(f, s.files[index].bytes, f.records)
  {
    hide ReadTaskBegun, ReadSetting, ReadSetup, ReadProgress, Reads, Reader, ReadParameters, WordsOf, Idle, RunDefined,
         ReadQueue, RunQueue, Responses, PreparedStore, ReadSession, NoForgeableRecord, Unforgeable, ServerAfter,
         Prepares, PrepareConfirmed, Prepared;
    var f := Sink(g, index, fileSize, s.recordSize);
    SettingReads(s, index, g, fileSize, c);
    var p := PreparedStore(s, f.records, READ_PREPARE);
    ReadTaskSession(address, s, base, index, g, fileSize, c, w1, w2, ws);
    UnforgeableExactly(g, index, fileSize, s.recordSize);
    UnforgeableContent(address, p, index, f, AboutToRead(c, f), ws);
  }

  /** The condition on the sizes says exactly that. */
  lemma UnforgeableExactly(g: FileState, index: nat, fileSize: nat, size: nat)
    requires ReadParameters(fileSize, size)
    ensures NoForgeableRecord(fileSize, size) <==> Unforgeable(Sink(g, index, fileSize, size))
  {
    hide ReadSetup, RecordsNeeded, CountRecords, ActualRecordLength;
    var f := Sink(g, index, fileSize, size);
    LastRecordLength(g, (index + 1) % 0x1_0000, fileSize, size);
    LastRecordStart(fileSize, size, f.records);
    forall k | 0 <= k < f.records
      ensures ActualRecordLength(f, k) == if k + 1 < f.records || fileSize <= size then size else fileSize % size
    {
      LengthOfRecord(g, index, fileSize, size, k);
    }
    if Unforgeable(f) {
      UnforgeableAt(f, 0);
      UnforgeableAt(f, f.records - 1);
    }
  }

  /** At every other size there is a task without a fault, in which nothing is read outside a response, that leaves
      wrong bytes. Unless the last record is empty, nothing is left unread before the last exchange. */
  lemma WrongContent(address: byte, s: Store, index: nat, g: FileState, fileSize: nat, c: ClientState)
    returns (w1: Crossing, w2: Crossing, ws: seq<Crossing>)
    requires ReadSetting(s, index, g, fileSize) && !NoForgeableRecord(fileSize, s.recordSize)
    ensures ReadTaskDone(address, s, HOLDING_OFFSET, index, g, fileSize, c, w1, w2, ws)
    ensures |s.files| == FILE_COUNT && index < FILE_COUNT
    ensures var f := Sink(g, index, fileSize, s.recordSize);
            && ReadDefined(address, index, f, c, ws) && f.records > 0
            && (WordsOf(f, f.records - 1) > 0 ==> Drained(ReadQueue(address, index, f), ws, f.records, f.records - 1))
            && ClientAfter(address, index, f, c, ws).file != ReadProgress(f, s.files[index].bytes, f.records)
  {
    hide ReadTaskDone, ReadDefined, ReadSetup, ReadProgress, Reads, WithRecord, WordsOf, Idle, PreparedStore,
         ServerAfter, ClientAfter, XorByte, Counted, NoForgeableRecord, RecordsNeeded, Drained, ReadQueue;
    var f := Sink(g, index, fileSize, s.recordSize);
    SettingReads(s, index, g, fileSize, c);
    var p := PreparedStore(s, f.records, READ_PREPARE);
    var k := ForgeableRecord(g, index, fileSize, s.recordSize);
    RecordRoom(p, index, f, k);
    var at := k * s.recordSize;
    var other := XorByte(s.files[index].bytes[at], 1);
    Limits.OtherAddress(s.files[index].bytes[at]);
    var payload := [other] + seq(2 * WordsOf(f, k) - 1, _ => 0);
    w1, w2, ws := ForgedTask(address, s, index, g, fileSize, c, k, payload);
    ForgeryShows(p, index, f, k, payload);
    SameRecord(s, p, index, k, payload);
  }

  lemma SameRecord(s: Store, p: Store, index: nat, k: nat, payload: seq<byte>)
    requires p.files == s.files && p.recordSize == s.recordSize
    ensures WithRecord(p, index, k, payload) == WithRecord(s, index, k, payload)
  {
  }
}
