/** The first write transfer of a node, whose transfer counter starts with whatever the memory held. */
module FirstTransfer {
  import opened Bytes
  import opened Frame
  import opened Resources
  import opened Records
  import opened Server
  import opened Node
  import opened ClientFile
  import opened Client
  import opened Queue
  import opened Line
  import opened Steps
  import opened Transfer

  /** How many operations on a file of n records it takes from counter c0 until the transfer is reset. */
  function Until(c0: half, n: nat): nat {
    if c0 == 0xFFFF then n + 1 else if c0 < n then n - c0 else 1
  }

  /** How many records can be written: up to the reset, and no more than the file has. */
  function Span(c0: half, n: nat): nat {
    if Until(c0, n) <= n then Until(c0, n) else n
  }

  /** The server after k records from counter s.counter, up to and including the reset. */
  ghost function FirstProgress(s: Store, index: nat, bytes: seq<byte>, k: nat): Store {
    var t := Spliced(s, index, bytes, k);
    if index >= |t.files| || k < Until(s.counter, t.files[index].records) then t.(counter := (s.counter + k) % 0x1_0000)
    else AfterReset(t).(completions := if t.files[index].notifies then t.completions + [index] else t.completions)
  }

  lemma CountsOn(s: Store, t: Store, index: nat, k: nat)
    requires index < |t.files| && t.counter == s.counter && t.files[index].records > 0
             && k < Until(s.counter, t.files[index].records)
    ensures CountOperation(t.(counter := (s.counter + k) % 0x1_0000), index) ==
            if k + 1 < Until(s.counter, t.files[index].records) then t.(counter := (s.counter + k + 1) % 0x1_0000)
            else AfterReset(t).(completions :=
                   if t.files[index].notifies then t.completions + [index] else t.completions)
  {
  }

  ghost function Writes(address: byte, s: Store, f: FileState): (q: seq<Exchange>)
    requires f.records * s.recordSize <= |f.bytes|
    ensures |q| == f.records
  {
    WriteExchanges(address, f, s.recordSize, f.records)
  }

  ghost predicate Reached(address: byte, s: Store, index: nat, f: FileState, ws: seq<Crossing>, k: nat)
    requires WellFormed(s) && Buffers(ws) && k <= |ws|
  {
    Through(address, s, ws, k) == FirstProgress(s, index, Landed(s, index, f.bytes), k)
  }

  lemma ProgressTables(s: Store, index: nat, f: FileState, k: nat)
    requires Fits(s, index, f) && k <= Until(s.counter, s.files[index].records)
    ensures var n, t := s.files[index].records, FirstProgress(s, index, Landed(s, index, f.bytes), k);
            && (k < Until(s.counter, n) ==>
                  t.link.size == READ_REQUEST_SIZE + s.recordSize
                  && t == Spliced(s, index, Landed(s, index, f.bytes), k).(counter := (s.counter + k) % 0x1_0000))
            && (k == Until(s.counter, n) ==> t.link.size == DEFAULT_SIZE && t.counter == 0)
            && |t.files| == FILE_COUNT && t.files[index].records == n && t.recordSize == s.recordSize
            && t.files[index].attributes == s.files[index].attributes
  {
    hide Spliced, Landed, WellFormed;
    FitsShape(s, index, f);
    SplicedTables(s, index, Landed(s, index, f.bytes), k);
  }

  /** An intact request before the reset takes the server one record further. */
  lemma FirstServed(address: byte, s: Store, index: nat, f: FileState, k: nat, t: Store, x: Exchange, w: Crossing)
    requires Fits(s, index, f) && k < f.records && k < Span(s.counter, s.files[index].records)
    requires k * s.recordSize + s.recordSize <= |f.bytes|
    requires t == FirstProgress(s, index, Landed(s, index, f.bytes), k) && WellFormed(t)
    requires x == WriteRecord(address, f.id, k, Slice(f.bytes, s.recordSize, k))
    requires |w.before| == BUFFER_SIZE && w.arrived == Request(x)
    ensures t.link.size == READ_REQUEST_SIZE + s.recordSize
    ensures var o := Served(address, t, w);
            o.store == FirstProgress(s, index, Landed(s, index, f.bytes), k + 1) && o.verdict == Verdict.NoError
  {
    hide Request, Slice, Spliced, Served, WellFormed, Landed, CountOperation, Fits;
    FitsShape(s, index, f);
    ProgressTables(s, index, f, k);
    var u := Spliced(s, index, Landed(s, index, f.bytes), k + 1);
    SplicedTables(s, index, Landed(s, index, f.bytes), k + 1);
    RecordServed(address, s, index, f, k, (s.counter + k) % 0x1_0000, t, x, w);
    CountsOn(s, u, index, k);
  }

  /** As long as the client reports no fault, on any line, the records arrive one by one until the reset. */
  lemma {:induction false} FirstWritesArrive(address: byte, s: Store, index: nat, f: FileState, c: ClientState,
                                             ws: seq<Crossing>, k: nat)
    requires Fits(s, index, f) && k <= f.records && k <= Span(s.counter, s.files[index].records)
    requires LineRun(address, s, Writes(address, s, f), ws) && GoesWell(c, Writes(address, s, f), ws, k)
    ensures Reached(address, s, index, f, ws, k)
  {
    hide Request, Crosses, Slice, FirstProgress, Served, WellFormed, StateAfter, Satisfies, GoesWell, Responses, Landed;
    if k == 0 {
      NothingWritten(s, index, f);
    } else {
      var queue := Writes(address, s, f);
      GoesWellBefore(c, queue, ws, k);
      FirstWritesArrive(address, s, index, f, c, ws, k - 1);
      WentWell(c, queue, ws, k);
      WriteExchangesAt(address, f, s.recordSize, f.records, k - 1);
      RequestIsValid(queue[k - 1]);
      SatisfiedIsGenuine(address, Through(address, s, ws, k - 1), queue[k - 1], ws[k - 1]);
      FirstServed(address, s, index, f, k - 1, Through(address, s, ws, k - 1), queue[k - 1], ws[k - 1]);
    }
  }

  lemma NothingWritten(s: Store, index: nat, f: FileState)
    requires Fits(s, index, f)
    ensures FirstProgress(s, index, Landed(s, index, f.bytes), 0) == s
  {
    var bytes := Landed(s, index, f.bytes);
    assert bytes[..0] + s.files[index].bytes[0..] == s.files[index].bytes;
    hide Landed;
  }

  /** No further request is performed: the server waits for eight bytes again, or its file has no such record. */
  lemma SpanIsFinal(address: byte, s: Store, index: nat, f: FileState, k: nat, t: Store, x: Exchange, w: Crossing)
    requires Fits(s, index, f) && k < f.records && k == Span(s.counter, s.files[index].records)
    requires k * s.recordSize + s.recordSize <= |f.bytes|
    requires t == FirstProgress(s, index, Landed(s, index, f.bytes), k) && WellFormed(t)
    requires x == WriteRecord(address, f.id, k, Slice(f.bytes, s.recordSize, k))
    requires Crosses(address, t, x, w)
    ensures !Satisfies(x, w)
  {
    hide Request, Slice, Spliced, Serve, Landed, FirstProgress, Satisfies, Crosses, RecordWrite, Received;
    ProgressTables(s, index, f, k);
    RequestIsValid(x);
    if Satisfies(x, w) {
      SatisfiedIsGenuine(address, t, x, w);
      ServeWriteRecord(address, t, f.id, k, x.data, w.before);
      WriteOutcome(t, FileService(f.id, k, |x.data| / 2), Received(w.before, Request(x))[10..]);
    }
  }

  /** A first write transfer without a fault, on any line, has no more records than that, and they have all arrived. */
  lemma FirstWriteOutcome(address: byte, s: Store, index: nat, f: FileState, c: ClientState, ws: seq<Crossing>)
    requires Fits(s, index, f) && c.info.fault == NoFault && LineRun(address, s, Writes(address, s, f), ws)
    requires RunQueue(c, Writes(address, s, f), Responses(Writes(address, s, f), ws)).info.fault == NoFault
    ensures f.records <= Span(s.counter, s.files[index].records)
    ensures WellFormed(s) && Buffers(ws) && |ws| == f.records
    ensures Through(address, s, ws, f.records) == FirstProgress(s, index, Landed(s, index, f.bytes), f.records)
  {
    hide Request, Crosses, Slice, FirstProgress, Served, StateAfter, RunQueue, Executed, Responses, Satisfies, LineRun,
         Through, Landed, GoesWell, Writes;
    var queue, n := Writes(address, s, f), Span(s.counter, s.files[index].records);
    RunShape(address, s, queue, ws, 0);
    RunGoesWell(c, queue, ws);
    if f.records > n {
      GoesWellUntil(c, queue, ws, n);
      FirstWritesArrive(address, s, index, f, c, ws, n);
      WentWell(c, queue, ws, n + 1);
      RunShape(address, s, queue, ws, n);
      QueuedWrite(address, s, f, n);
      SpanIsFinal(address, s, index, f, n, Through(address, s, ws, n), queue[n], ws[n]);
    } else {
      FirstWritesArrive(address, s, index, f, c, ws, f.records);
    }
  }

  lemma GoesWellUntil(c: ClientState, queue: seq<Exchange>, ws: seq<Crossing>, k: nat)
    requires k < |queue| == |ws| && GoesWell(c, queue, ws, |queue|)
    ensures GoesWell(c, queue, ws, k) && GoesWell(c, queue, ws, k + 1)
  {
    hide StateAfter, Responses;
  }

  lemma QueuedWrite(address: byte, s: Store, f: FileState, k: nat)
    requires k < f.records && f.records * s.recordSize <= |f.bytes|
    ensures k * s.recordSize + s.recordSize <= |f.bytes|
    ensures Writes(address, s, f)[k] == WriteRecord(address, f.id, k, Slice(f.bytes, s.recordSize, k))
  {
    hide Slice;
    WriteExchangesAt(address, f, s.recordSize, f.records, k);
  }

  /** On a line that delivers everything, every record up to the reset is written and confirmed. */
  lemma {:induction false} FirstWritesServed(address: byte, s: Store, index: nat, f: FileState, ws: seq<Crossing>,
                                             k: nat)
    requires Fits(s, index, f) && k <= f.records && k <= Span(s.counter, s.files[index].records)
    requires PerfectRun(address, s, Writes(address, s, f), ws)
    ensures Reached(address, s, index, f, ws, k)
    ensures k > 0 ==> Satisfies(Writes(address, s, f)[k - 1], ws[k - 1])
  {
    hide Request, Slice, FirstProgress, ChecksumValid, Served, Delivered, WellFormed, Heard, Landed, Writes;
    if k == 0 {
      NothingWritten(s, index, f);
    } else {
      FirstWritesServed(address, s, index, f, ws, k - 1);
      var queue := Writes(address, s, f);
      QueuedWrite(address, s, f, k - 1);
      var t, x, w := Through(address, s, ws, k - 1), queue[k - 1], ws[k - 1];
      RequestIsValid(x);
      DeliveredArrives(address, t, x, w);
      FirstServed(address, s, index, f, k - 1, t, x, w);
      DeliveredIsHeard(address, t, x, w);
    }
  }

  /** From counter c0, a write transfer of f.records records to a file of n ends without a fault on a line that
      delivers everything exactly if it ends before the reset: up to n - c0 records if c0 < n, one record if n <= c0
      < 0xFFFF, and, since the counter wraps to zero, up to n records if c0 is 0xFFFF. */
  lemma FirstWriteExactly(address: byte, s: Store, index: nat, f: FileState, c: ClientState, ws: seq<Crossing>)
    requires Fits(s, index, f) && c.info.fault == NoFault && !c.info.task.ReadFileTask?
    requires PerfectRun(address, s, Writes(address, s, f), ws)
    ensures var c0, n := s.counter, s.files[index].records;
            RunQueue(c, Writes(address, s, f), Responses(Writes(address, s, f), ws)).info.fault == NoFault <==>
            f.records <= if c0 == 0xFFFF then n else if c0 < n then n - c0 else 1
  {
    hide Writes, RunQueue, StateAfter, WellFormed, PerfectRun, Through, Fits, Satisfies, LineRun;
    FitsShape(s, index, f);
    FitsRecords(s, index, f);
    var queue := Writes(address, s, f);
    PerfectRunIsLineRun(address, s, queue, ws);
    RunShape(address, s, queue, ws, 0);
    if RunQueue(c, queue, Responses(queue, ws)).info.fault == NoFault {
      FirstWriteOutcome(address, s, index, f, c, ws);
    }
    if f.records <= Span(s.counter, s.files[index].records) {
      forall j | 0 <= j < |queue| ensures Satisfies(queue[j], ws[j]) {
        FirstWritesServed(address, s, index, f, ws, j + 1);
      }
      forall j | 0 <= j <= |queue| ensures StateAfter(c, queue, Responses(queue, ws), j).info.fault == NoFault {
        ClientGoesOn(c, queue, ws, j);
      }
      WholeRun(c, queue, Responses(queue, ws));
    }
  }

  lemma FitsRecords(s: Store, index: nat, f: FileState)
    requires Fits(s, index, f)
    ensures 0 < f.records && f.records * s.recordSize <= |f.bytes| && index < |s.files| && s.files[index].records > 0
  {
  }
}
