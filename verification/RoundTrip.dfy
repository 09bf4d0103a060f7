/** Transfers one after the other: a file is written to the server and read back. */
module RoundTrip {
  import opened Bytes
  import opened Resources
  import Server
  import opened Node
  import opened ClientFile
  import opened Client
  import opened Line
  import opened Transfer
  import opened Reading
  import opened Image
  import opened Session
  import opened Tasks

  // ---------- Tasks that succeed exist ----------

  lemma PreparesFor(address: byte, s: Store, records: half, command: half, before: seq<byte>)
    returns (w1: Crossing, w2: Crossing)
    requires WellFormed(s) && |before| == Server.BUFFER_SIZE
    ensures PreparesPerfectly(address, s, HOLDING_OFFSET, records, command, w1, w2)
  {
    hide WellFormed, Serve, Request;
    w1 := Delivery(address, s, CounterWrite(address, HOLDING_OFFSET, records), before);
    w2 := Delivery(address, AfterCounter(address, s, w1), ControlWrite(address, HOLDING_OFFSET, command), before);
  }

  lemma WriteTaskHappens(address: byte, s: Store, index: nat, f: FileState, c: ClientState, before: seq<byte>)
    returns (w1: Crossing, w2: Crossing, ws: seq<Crossing>)
    requires Idle(s) && WriteTarget(s, index) && Writable(s, index, f) && f.records <= s.files[index].records
    requires |before| == Server.BUFFER_SIZE
    ensures WriteTaskDone(address, s, HOLDING_OFFSET, index, f, c, w1, w2, ws)
  {
    hide WriteTaskDone, Delivered, TransferRegisters, PerfectRun;
    w1, w2 := PreparesFor(address, s, f.records, WRITE_PREPARE, before);
    ws := PerfectRunFor(address, Prepared(address, s, w1, w2), WriteExchanges(address, f, s.recordSize, f.records),
        before);
    WriteTaskSucceeds(address, s, index, f, c, w1, w2, ws);
  }

  lemma ReadTaskHappens(address: byte, s: Store, index: nat, g: FileState, fileSize: nat, c: ClientState,
                        before: seq<byte>)
    returns (w1: Crossing, w2: Crossing, ws: seq<Crossing>)
    requires Idle(s) && ReadTarget(s, index) && Clean(g) && ReadParameters(fileSize, s.recordSize)
    requires Sink(g, index, fileSize, s.recordSize).records <= s.files[index].records && |before| == Server.BUFFER_SIZE
    ensures ReadTaskDone(address, s, HOLDING_OFFSET, index, g, fileSize, c, w1, w2, ws)
    ensures ReadTaskFaithful(address, s, index, g, fileSize, c, w1, w2, ws)
  {
    hide ReadTaskDone, ReadTaskFaithful, Delivered, TransferRegisters, PerfectRun, Sink, ReadParameters;
    var f := Sink(g, index, fileSize, s.recordSize);
    w1, w2 := PreparesFor(address, s, f.records, READ_PREPARE, before);
    ws := PerfectRunFor(address, Prepared(address, s, w1, w2), ReadQueue(address, index, f), before);
    ReadTaskSucceeds(address, s, index, g, fileSize, c, w1, w2, ws);
  }

  // ---------- After a whole file the server is ready for the next transfer ----------

  lemma PreparedRegisters(s: Store, records: half, command: half)
    requires Idle(s)
    ensures TransferRegisters(PreparedStore(s, records, command).registers)
  {
  }

  lemma ServerAfterIsWellFormed(address: byte, s: Store, w1: Crossing, w2: Crossing, ws: seq<Crossing>, k: nat)
    requires WellFormed(s)
    ensures WellFormed(ServerAfter(address, s, w1, w2, ws, k))
  {
    hide WellFormed, Prepared;
  }

  /** A write task without a fault that fills its file leaves the server idle, with the same record size. */
  lemma WriteTaskLeavesIdle(address: byte, s: Store, base: half, index: nat, f: FileState, c: ClientState,
                            w1: Crossing, w2: Crossing, ws: seq<Crossing>)
    requires WriteTaskDone(address, s, base, index, f, c, w1, w2, ws)
    ensures index < |s.files|
    ensures var t := ServerAfter(address, s, w1, w2, ws, |ws|);
            && t.recordSize == s.recordSize
            && (Idle(t) <==> |ws| == s.files[index].records)
            && |t.files| == |s.files| && SameButBytes(s.files[index], t.files[index])
  {
    hide PreparedStore, TransferRegisters, WriteProgress, ServerAfter, Prepares, LineRun, WriteTaskFine;
    WriteTaskOutcome(address, s, base, index, f, c, w1, w2, ws);
    WrittenStore(s, index, f);
    PreparedRegisters(s, f.records, WRITE_PREPARE);
    PreparedMatches(s, index, f);
    ProgressSize(PreparedStore(s, f.records, WRITE_PREPARE), index, Landed(s, index, f.bytes), f.records);
    ServerAfterIsWellFormed(address, s, w1, w2, ws, |ws|);
  }

  ghost predicate SameButBytes(f: Resources.File, g: Resources.File) {
    g.attributes == f.attributes && g.records == f.records && g.notifies == f.notifies && |g.bytes| == |f.bytes|
  }

  lemma ProgressSize(p: Store, index: nat, bytes: seq<byte>, k: nat)
    ensures WriteProgress(p, index, bytes, k).recordSize == p.recordSize
  {
  }

  // ---------- Written, then read back ----------

  /** What a client's file h that was set up as f holds of the content: bytes the read did not ask for are zero. So
      the content is there exactly if those bytes of it are zero, and always if every byte was asked for. */
  ghost predicate ComesBack(content: seq<byte>, size: nat, f: FileState, h: FileState) {
    && h.ready && |content| <= |h.bytes| && size > 0
    && (forall j :: 0 <= j < |content| ==> h.bytes[j] == if AskedFor(f, j) then content[j] else 0)
    && (content <= h.bytes <==> forall j :: 0 <= j < |content| && !AskedFor(f, j) ==> content[j] == 0)
    && (WholeFileRequested(|content|, size) ==> content <= h.bytes)
    && (|content| >= size ==> |h.bytes| == |content|)
  }

  /** A written file, copied to a client: of a record of odd size neither the write nor the read includes the last
      byte. */
  lemma CopiedBack(s: Store, t: Store, index: nat, content: seq<byte>, n: nat, g: FileState, u: Store, h: FileState)
    requires CopiedInto(s, t, index, content, n) && s.recordSize == t.recordSize
             && ReadParameters(|content|, t.recordSize)
    requires CopiedOut(t, u, index, |content|, Sink(g, index, |content|, t.recordSize), h)
    ensures ComesBack(content, t.recordSize, Sink(g, index, |content|, t.recordSize), h)
  {
    hide ReadSetup, AskedFor, WholeFileRequested, LeftOut, ReadParameters;
    var f := Sink(g, index, |content|, t.recordSize);
    SinkSize(g, index, |content|, t.recordSize);
    forall j | 0 <= j < |content| ensures h.bytes[j] == if AskedFor(f, j) then content[j] else 0 {
      AskedIsSent(g, index, |content|, t.recordSize, j);
    }
    AllAskedFor(g, (index + 1) % 0x1_0000, |content|, t.recordSize);
    if forall j :: 0 <= j < |content| && !AskedFor(f, j) ==> content[j] == 0 {
      assert h.bytes[..|content|] == content;
    }
    if content <= h.bytes {
      forall j | 0 <= j < |content| && !AskedFor(f, j) ensures content[j] == 0 {
        assert h.bytes[j] == content[j];
      }
    }
  }

  /** Whatever a read asks for, a write has sent. */
  lemma AskedIsSent(g: FileState, index: nat, fileSize: nat, size: nat, j: nat)
    requires ReadParameters(fileSize, size)
    ensures AskedFor(Sink(g, index, fileSize, size), j) ==> !LeftOut(j, size)
  {
    hide RecordsNeeded, CountRecords, ReadSetup, AskedFor;
    AskedAt(g, (index + 1) % 0x1_0000, fileSize, size, j);
  }

  /** What is read back after a file was written, over any faulty lines: the content, as far as it was asked for. */
  lemma WriteThenRead(address: byte, s: Store, base: half, index: nat, g: FileState, content: seq<byte>, c: ClientState,
                      w1: Crossing, w2: Crossing, ws: seq<Crossing>,
                      base': half, g': FileState, c': ClientState, v1: Crossing, v2: Crossing, vs: seq<Crossing>)
    requires Chunked(content, s.recordSize) && LongRecords(|content|, s.recordSize)
    requires WriteTaskDone(address, s, base, index, Source(g, index, content, s.recordSize), c, w1, w2, ws)
    requires ReadTaskDone(address, ServerAfter(address, s, w1, w2, ws, |ws|), base', index, g', |content|, c', v1, v2,
             vs)
    ensures var f := Sink(g', index, |content|, s.recordSize);
            ComesBack(content, s.recordSize, f, ClientAfter(address, index, f, c', vs).file)
  {
    hide WriteTaskDone, ReadTaskBegun, Idle, ReadTarget, ServerAfter, ClientAfter, Source, RecordsNeeded, Sink,
         CopiedInto, CopiedOut, ComesBack;
    WriteTaskCopies(address, s, base, index, g, content, c, w1, w2, ws);
    WriteTaskLeavesIdle(address, s, base, index, Source(g, index, content, s.recordSize), c, w1, w2, ws);
    var t := ServerAfter(address, s, w1, w2, ws, |ws|);
    ReadTaskParameters(address, t, base', index, g', |content|, c', v1, v2, vs);
    ReadTaskCopies(address, t, base', index, g', |content|, c', v1, v2, vs);
    var f := Sink(g', index, |content|, s.recordSize);
    CopiedBack(s, t, index, content, |ws| * s.recordSize, g', ServerAfter(address, t, v1, v2, vs, |vs|),
               ClientAfter(address, index, f, c', vs).file);
  }

  lemma SinkSize(g: FileState, index: nat, fileSize: nat, size: nat)
    ensures Sink(g, index, fileSize, size).fileSize == if fileSize < size then size else fileSize
  {
  }

  /** Such a pair of tasks exists for every content that fills a file that may be written and read, with records of any
      length; on the line that delivers everything the content comes back all the same. */
  lemma WriteThenReadHappens(address: byte, s: Store, index: nat, g: FileState, content: seq<byte>, c: ClientState,
                             g': FileState, c': ClientState, before: seq<byte>)
    returns (w1: Crossing, w2: Crossing, ws: seq<Crossing>, v1: Crossing, v2: Crossing, vs: seq<Crossing>)
    requires Idle(s) && WriteTarget(s, index) && ReadTarget(s, index) && Clean(g') && |before| == Server.BUFFER_SIZE
    requires Chunked(content, s.recordSize) && RecordsNeeded(|content|, s.recordSize) == s.files[index].records
    ensures WriteTaskDone(address, s, HOLDING_OFFSET, index, Source(g, index, content, s.recordSize), c, w1, w2, ws)
    ensures ReadTaskDone(address, ServerAfter(address, s, w1, w2, ws, |ws|), HOLDING_OFFSET, index, g', |content|, c',
            v1, v2, vs)
    ensures var f := Sink(g', index, |content|, s.recordSize);
            ComesBack(content, s.recordSize, f, ClientAfter(address, index, f, c', vs).file)
  {
    hide WriteTaskDone, ReadTaskDone, ReadTaskFaithful, ServerAfter, ClientAfter, Source, RecordsNeeded, CountRecords,
         TransferRegisters, CopiedInto, CopiedOut, ComesBack;
    var f := Source(g, index, content, s.recordSize);
    SourceWritable(s, g, index, content);
    SourceContent(g, index, content, s.recordSize);
    w1, w2, ws := WriteTaskHappens(address, s, index, f, c, before);
    WriteTaskOutcome(address, s, HOLDING_OFFSET, index, f, c, w1, w2, ws);
    WriteTaskLeavesIdle(address, s, HOLDING_OFFSET, index, f, c, w1, w2, ws);
    var t := ServerAfter(address, s, w1, w2, ws, |ws|);
    CountIsNeeded(|content|, s.recordSize);
    v1, v2, vs := ReadTaskHappens(address, t, index, g', |content|, c', before);
    WriteTaskCopies(address, s, HOLDING_OFFSET, index, g, content, c, w1, w2, ws);
    FaithfulCopies(address, t, index, g', |content|, c', v1, v2, vs);
    CopiedBack(s, t, index, content, |ws| * s.recordSize, g', ServerAfter(address, t, v1, v2, vs, |vs|),
               ClientAfter(address, index, Sink(g', index, |content|, s.recordSize), c', vs).file);
  }
}
