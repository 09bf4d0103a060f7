/** Whole transfers over a faulty line: the record exchanges of taskWriteFile and taskReadFile. */
module Transfer {
  import opened Bytes
  import opened Crc
  import opened Frame
  import opened Resources
  import opened Records
  import opened Server
  import opened Node
  import opened ClientFile
  import opened Chunks
  import opened Client
  import opened Queue
  import opened Line
  import opened Steps

  // ---------- Runs of exchanges on the line ----------

  lemma PerformKeeps(s: Store, buffer: seq<byte>)
    requires WellFormed(s) && |buffer| == BUFFER_SIZE
    ensures WellFormed(Perform(s, buffer).0)
  {
    hide Be, Value, ToByte, CountOperation, ReferenceOk, RegisterRead;
    WriteKeeps(s, ServiceAt(buffer), buffer[10..]);
    ReadKeeps(s, ServiceAt(buffer));
    hide RecordRead, RecordWrite, ServiceAt;
  }

  lemma ServeKeeps(address: byte, s: Store, before: seq<byte>, frame: seq<byte>)
    requires WellFormed(s) && |before| == BUFFER_SIZE
    ensures WellFormed(Serve(address, s, before, frame).store)
  {
    if |frame| == s.link.size {
      PerformKeeps(s, Received(before, frame));
      hide Perform, WellFormed, Le, Checksum, ExceptionReply, Sealed, Received;
    }
  }

  ghost predicate Buffers(ws: seq<Crossing>) {
    forall k :: 0 <= k < |ws| ==> |ws[k].before| == BUFFER_SIZE
  }

  /** The server after the first j exchanges. */
  ghost function Through(address: byte, s: Store, ws: seq<Crossing>, j: nat): (t: Store)
    requires WellFormed(s) && Buffers(ws) && j <= |ws|
    ensures WellFormed(t)
  {
    if j == 0 then s
    else
      var u := Through(address, s, ws, j - 1);
      ServeKeeps(address, u, ws[j - 1].before, ws[j - 1].arrived);
      Served(address, u, ws[j - 1]).store
  }

  /** Every exchange of the queue crosses the line with at most one frame lost or damaged. */
  ghost predicate LineRun(address: byte, s: Store, queue: seq<Exchange>, ws: seq<Crossing>)
    requires WellFormed(s)
  {
    && |ws| == |queue| && Buffers(ws)
    && forall j :: 0 <= j < |queue| ==> Crosses(address, Through(address, s, ws, j), queue[j], ws[j])
  }

  function Responses(queue: seq<Exchange>, ws: seq<Crossing>): (r: seq<seq<byte>>)
    requires |ws| == |queue|
    ensures |r| == |queue|
  {
    seq(|queue|, j requires 0 <= j < |queue| => Heard(queue[j], ws[j]))
  }

  // ---------- Writing ----------

  /** The server waits for records of file `index`, a RAM file that may be written. */
  ghost predicate OpenForWrites(s: Store, index: nat) {
    && WellFormed(s) && index < FILE_COUNT
    && s.files[index].attributes.write && !s.files[index].attributes.flash
    && 1 <= s.recordSize <= 238
    && s.link.size == READ_REQUEST_SIZE + s.recordSize
    && s.files[index].records > 0
  }

  /** The server is set for a write transfer. */
  ghost predicate ReadyForWrites(s: Store, index: nat) {
    OpenForWrites(s, index) && s.counter == 0
  }

  /** The first n bytes of a file replaced, as far as there are bytes for them. */
  ghost function WithPrefix(f: Resources.File, bytes: seq<byte>, n: nat): (g: Resources.File)
    ensures |g.bytes| == |f.bytes| && g.attributes == f.attributes && g.records == f.records && g.notifies == f.notifies
  {
    if n <= |bytes| && n <= |f.bytes| then f.(bytes := bytes[..n] + f.bytes[n..]) else f
  }

  ghost function Spliced(s: Store, index: nat, bytes: seq<byte>, k: nat): Store {
    if index >= |s.files| then s
    else s.(files := s.files[index := WithPrefix(s.files[index], bytes, k * s.recordSize)])
  }

  /** k operations counted on a store that had counted none. */
  ghost function Counted(t: Store, index: nat, k: nat): Store {
    if index >= |t.files| || k < t.files[index].records then t.(counter := k % 0x1_0000)
    else t.(counter := 0, link := WithBufferSize(t.link, DEFAULT_SIZE),
            completions := if t.files[index].notifies then t.completions + [index] else t.completions)
  }

  /** A store in which the first k records of a file are replaced, k of its operations are counted, and nothing else
      differs. */
  ghost function WriteProgress(s: Store, index: nat, bytes: seq<byte>, k: nat): Store {
    Counted(Spliced(s, index, bytes, k), index, k)
  }

  lemma CountedNext(t: Store, index: nat, k: nat)
    requires index < |t.files| && k < t.files[index].records
    ensures CountOperation(t.(counter := k), index) == Counted(t, index, k + 1)
  {
  }

  /** Of a record of odd size the last byte is not sent: only whole half words are written. */
  predicate LeftOut(i: nat, size: nat) {
    size % 2 == 1 && i % size == size - 1
  }

  /** What becomes of the first bytes of file `index` when `bytes` are written there record by record. */
  ghost function Landed(s: Store, index: nat, bytes: seq<byte>): (r: seq<byte>)
    ensures |r| == |bytes|
  {
    if index >= |s.files| then bytes
    else
      var older := s.files[index].bytes;
      seq(|bytes|, i requires 0 <= i < |bytes| =>
            if LeftOut(i, s.recordSize) && i < |older| then older[i] else bytes[i])
  }

  lemma LeftOutIn(k: nat, size: nat, j: nat)
    requires j < size
    ensures LeftOut(k * size + j, size) <==> size % 2 == 1 && j == size - 1
  {
    DivModUnique(k * size + j, size, k, j);
  }

  /** Within a record, the half words land and the rest stays. */
  lemma LandedSlice(s: Store, index: nat, bytes: seq<byte>, k: nat)
    requires index < |s.files| && s.recordSize > 0
    requires k * s.recordSize + s.recordSize <= |bytes| && k * s.recordSize + s.recordSize <= |s.files[index].bytes|
    ensures var size := s.recordSize; var landed, n := Slice(Landed(s, index, bytes), size, k), 2 * (size / 2);
            landed[..n] == Slice(bytes, size, k)[..n] && landed[n..] == Slice(s.files[index].bytes, size, k)[n..]
  {
    hide LeftOut;
    var size := s.recordSize;
    var x, y, z := Slice(Landed(s, index, bytes), size, k), Slice(bytes, size, k), Slice(s.files[index].bytes, size, k);
    forall j | 0 <= j < size ensures x[j] == if size % 2 == 1 && j == size - 1 then z[j] else y[j] {
      LeftOutIn(k, size, j);
    }
    LandedParts(x, y, z);
  }

  lemma LandedParts(x: seq<byte>, y: seq<byte>, z: seq<byte>)
    requires |x| == |y| == |z|
    requires forall j :: 0 <= j < |x| ==> x[j] == if |x| % 2 == 1 && j == |x| - 1 then z[j] else y[j]
    ensures var n := 2 * (|x| / 2); x[..n] == y[..n] && x[n..] == z[n..]
  {
  }

  lemma WithPrefixNext(f: Resources.File, bytes: seq<byte>, size: nat, k: nat, n: nat)
    requires HasRoom(f, size) && k < f.records && k * size + size <= |bytes| && n <= size
    requires k * size + size <= |f.bytes| && Slice(bytes, size, k)[n..] == Slice(f.bytes, size, k)[n..]
    ensures WithRecordHead(WithPrefix(f, bytes, k * size), size, k, Slice(bytes, size, k)[..n])
            == WithPrefix(f, bytes, (k + 1) * size)
  {
    NextMultiple(k, size);
    TimesMonotone(k + 1, f.records, size);
    PrefixGrows(f.bytes, bytes, k * size, size, n);
  }

  lemma PrefixGrows(older: seq<byte>, bytes: seq<byte>, at: nat, size: nat, n: nat)
    requires at + size <= |bytes| && at + size <= |older| && n <= size
    requires bytes[at..at + size][n..] == older[at..at + size][n..]
    ensures Overwrite(bytes[..at] + older[at..], at, bytes[at..at + size][..n])
            == bytes[..at + size] + older[at + size..]
  {
    forall i | at + n <= i < at + size ensures bytes[i] == older[i] {
      assert bytes[at..at + size][n..][i - at - n] == older[at..at + size][n..][i - at - n];
    }
  }

  lemma SplicedTables(s: Store, index: nat, bytes: seq<byte>, k: nat)
    requires WellFormed(s) && index < FILE_COUNT
    ensures var t := Spliced(s, index, bytes, k);
            && t.recordSize == s.recordSize && t.counter == s.counter && t.link == s.link && |t.files| == FILE_COUNT
            && t.files[index] == WithPrefix(s.files[index], bytes, k * s.recordSize)
            && WellFormed(t) && forall counter: half :: WellFormed(t.(counter := counter))
  {
    hide WithPrefix;
  }

  lemma SplicedNext(s: Store, index: nat, bytes: seq<byte>, k: nat, counter: half, n: nat)
    requires WellFormed(s) && index < FILE_COUNT && k < s.files[index].records && n <= s.recordSize
    requires k * s.recordSize + s.recordSize <= |bytes| && k * s.recordSize + s.recordSize <= |s.files[index].bytes|
    requires Slice(bytes, s.recordSize, k)[n..] == Slice(s.files[index].bytes, s.recordSize, k)[n..]
    ensures var f := WithPrefix(s.files[index], bytes, k * s.recordSize);
            var t := Spliced(s, index, bytes, k).(counter := counter);
            t.(files := t.files[index := WithRecordHead(f, s.recordSize, k, Slice(bytes, s.recordSize, k)[..n])])
            == Spliced(s, index, bytes, k + 1).(counter := counter)
  {
    WithPrefixNext(s.files[index], bytes, s.recordSize, k, n);
    hide WithPrefix, WithRecordHead, Slice, WellFormed;
  }

  /** The k-th record is written and counted, whatever the counter. */
  lemma SplicedWritten(s: Store, index: nat, bytes: seq<byte>, k: nat, counter: half, data: seq<byte>)
    requires OpenForWrites(s, index) && k < s.files[index].records && k < MAX_RECORDS
    requires k * s.recordSize + s.recordSize <= |bytes| && k * s.recordSize + s.recordSize <= |s.files[index].bytes|
    requires var n, record := 2 * (s.recordSize / 2), Slice(bytes, s.recordSize, k);
             && s.recordSize <= |data| && data[..n] == record[..n]
             && record[n..] == Slice(s.files[index].bytes, s.recordSize, k)[n..]
    ensures WellFormed(Spliced(s, index, bytes, k).(counter := counter))
            && |Spliced(s, index, bytes, k + 1).files| == FILE_COUNT
    ensures RecordWrite(Spliced(s, index, bytes, k).(counter := counter), FileService(index + 1, k, s.recordSize / 2),
            data)
            == (CountOperation(Spliced(s, index, bytes, k + 1).(counter := counter), index), true)
  {
    hide Slice, RecordWrite, Spliced, WithPrefix, WithRecordHead, CountOperation, WellFormed, HasRoom;
    SplicedTables(s, index, bytes, k);
    SplicedTables(s, index, bytes, k + 1);
    SplicedNext(s, index, bytes, k, counter, 2 * (s.recordSize / 2));
    WriteOutcome(Spliced(s, index, bytes, k).(counter := counter), FileService(index + 1, k, s.recordSize / 2), data);
  }

  lemma {:induction false} WriteExchangesAt(address: byte, f: FileState, size: nat, n: nat, k: nat)
    requires k < n <= f.records && n * size <= |f.bytes|
    ensures k * size + size <= |f.bytes|
    ensures WriteExchanges(address, f, size, n)[k] == WriteRecord(address, f.id, k, Slice(f.bytes, size, k))
    decreases n
  {
    NextMultiple(n - 1, size);
    NextMultiple(k, size);
    TimesMonotone(k + 1, n, size);
    if k < n - 1 { WriteExchangesAt(address, f, size, n - 1, k); }
  }

  /** A file buffer prepared for the server's file `index`, with the server's record size. */
  ghost predicate Fits(s: Store, index: nat, f: FileState) {
    && OpenForWrites(s, index)
    && f.id == index + 1 && 0 < f.records <= MAX_RECORDS
    && |f.bytes| == f.records * s.recordSize
  }

  ghost predicate Matches(s: Store, index: nat, f: FileState) {
    Fits(s, index, f) && s.counter == 0
  }

  /** The k-th write request, arriving intact, writes and counts the k-th record. */
  lemma RecordServed(address: byte, s: Store, index: nat, f: FileState, k: nat, counter: half, t: Store, x: Exchange,
                     w: Crossing)
    requires Fits(s, index, f) && k < f.records && k < s.files[index].records
    requires k * s.recordSize + s.recordSize <= |f.bytes|
    requires t == Spliced(s, index, Landed(s, index, f.bytes), k).(counter := counter) && WellFormed(t)
    requires x == WriteRecord(address, f.id, k, Slice(f.bytes, s.recordSize, k))
    requires |w.before| == BUFFER_SIZE && w.arrived == Request(x)
    ensures t.link.size == READ_REQUEST_SIZE + s.recordSize
    ensures |Spliced(s, index, Landed(s, index, f.bytes), k + 1).files| == FILE_COUNT
    ensures var o := Served(address, t, w);
            && o.store == CountOperation(Spliced(s, index, Landed(s, index, f.bytes), k + 1).(counter := counter),
               index)
            && o.verdict == Verdict.NoError
  {
    hide Request, Slice, Spliced, Serve, RecordWrite, Received, WellFormed, Landed, CountOperation;
    WriteRoom(s, index, k);
    SplicedTables(s, index, Landed(s, index, f.bytes), k);
    RequestIsValid(x);
    ServeWriteRecord(address, t, f.id, k, x.data, w.before);
    LandedSlice(s, index, f.bytes, k);
    var data, n := Received(w.before, Request(x))[10..], 2 * (s.recordSize / 2);
    assert data[..n] == data[..s.recordSize][..n];
    SplicedWritten(s, index, Landed(s, index, f.bytes), k, counter, data);
  }

  /** In a transfer that started from zero, this takes the server from k records to k + 1. */
  lemma WriteServed(address: byte, s: Store, index: nat, f: FileState, k: nat, t: Store, x: Exchange, w: Crossing)
    requires Matches(s, index, f) && k < f.records && k < s.files[index].records
    requires k * s.recordSize + s.recordSize <= |f.bytes|
    requires t == WriteProgress(s, index, Landed(s, index, f.bytes), k) && WellFormed(t)
    requires x == WriteRecord(address, f.id, k, Slice(f.bytes, s.recordSize, k))
    requires |w.before| == BUFFER_SIZE && w.arrived == Request(x)
    ensures t.link.size == READ_REQUEST_SIZE + s.recordSize
    ensures var o := Served(address, t, w);
            o.store == WriteProgress(s, index, Landed(s, index, f.bytes), k + 1) && o.verdict == Verdict.NoError
  {
    hide Request, Slice, Spliced, Served, WellFormed, Landed, CountOperation, Fits;
    FitsShape(s, index, f);
    SplicedTables(s, index, Landed(s, index, f.bytes), k);
    SplicedTables(s, index, Landed(s, index, f.bytes), k + 1);
    RecordServed(address, s, index, f, k, k, t, x, w);
    CountedNext(Spliced(s, index, Landed(s, index, f.bytes), k + 1), index, k);
  }

  lemma FitsShape(s: Store, index: nat, f: FileState)
    requires Fits(s, index, f)
    ensures WellFormed(s) && |s.files| == FILE_COUNT && index < FILE_COUNT && f.records <= MAX_RECORDS
  {
  }

  lemma WriteRoom(s: Store, index: nat, k: nat)
    requires OpenForWrites(s, index) && k < s.files[index].records
    ensures |s.files| == FILE_COUNT && k * s.recordSize + s.recordSize <= |s.files[index].bytes|
  {
    SlotInside(k, s.files[index].records, s.recordSize);
  }

  /** The client accepts what it hears. */
  predicate Satisfies(x: Exchange, w: Crossing) {
    ChecksumValid(Heard(x, w)) && |Heard(x, w)| == Expected(x)
  }

  /** None of the first k exchanges reports a fault. */
  ghost predicate GoesWell(c: ClientState, queue: seq<Exchange>, ws: seq<Crossing>, k: nat)
    requires k <= |queue| == |ws|
  {
    forall j :: 0 < j <= k ==> StateAfter(c, queue, Responses(queue, ws), j).info.fault == NoFault
  }

  lemma GoesWellBefore(c: ClientState, queue: seq<Exchange>, ws: seq<Crossing>, k: nat)
    requires 0 < k <= |queue| == |ws| && GoesWell(c, queue, ws, k)
    ensures GoesWell(c, queue, ws, k - 1)
  {
  }

  /** AcceptedIsGenuine for a client that takes the whole of what it sent for an answer. */
  lemma SatisfiedIsGenuine(address: byte, s: Store, x: Exchange, w: Crossing)
    requires WellFormed(s) && TransferExchange(x) && Bounded(x) && x.address == address
    requires Crosses(address, s, x, w) && Satisfies(x, w)
    requires |Request(x)| <= Expected(x) || w.arrived == Request(x)
    ensures |w.before| == BUFFER_SIZE && w.arrived == Request(x) && |Request(x)| == s.link.size
    ensures Served(address, s, w).verdict == Verdict.NoError && Heard(x, w) == Served(address, s, w).reply
  {
    hide Request, Crosses, Served, WellFormed, Heard, ChecksumValid, Expected;
    AcceptedIsGenuine(address, s, x, w);
  }

  /** Whatever the line did, the frame that the server took was as long as the request and as its receive length. */
  lemma SatisfiedIsAligned(address: byte, s: Store, x: Exchange, w: Crossing)
    requires WellFormed(s) && TransferExchange(x) && Bounded(x) && x.address == address
    requires Crosses(address, s, x, w) && Satisfies(x, w)
    ensures |w.arrived| == |Request(x)| == s.link.size
  {
    hide Request, Crosses, Served, WellFormed, Heard, ChecksumValid, Expected;
    AcceptedIsGenuine(address, s, x, w);
  }

  lemma WentWell(c: ClientState, queue: seq<Exchange>, ws: seq<Crossing>, k: nat)
    requires 0 < k <= |queue| == |ws| && GoesWell(c, queue, ws, k)
    ensures Satisfies(queue[k - 1], ws[k - 1])
  {
    hide Step, ChecksumValid, Expected, Heard;
    assert StateAfter(c, queue, Responses(queue, ws), k).info.fault == NoFault;
    StepCounts(StateAfter(c, queue, Responses(queue, ws), k - 1), queue[k - 1], Heard(queue[k - 1], ws[k - 1]));
  }

  /** One exchange of a run, seen from both sides. */
  lemma RunNext(address: byte, s: Store, c: ClientState, queue: seq<Exchange>, ws: seq<Crossing>, k: nat)
    requires WellFormed(s) && |ws| == |queue| && Buffers(ws) && k < |queue|
    ensures Through(address, s, ws, k + 1) == Served(address, Through(address, s, ws, k), ws[k]).store
    ensures StateAfter(c, queue, Responses(queue, ws), k + 1)
            == Step(StateAfter(c, queue, Responses(queue, ws), k), queue[k], Heard(queue[k], ws[k]))
  {
    hide Served, Step, Heard, WellFormed;
  }

  /** All exchanges of a run but the last go well, and the last one too if no fault is reported in the end. */
  lemma RunGoesWell(c: ClientState, queue: seq<Exchange>, ws: seq<Crossing>)
    requires 0 < |queue| == |ws| && c.info.fault == NoFault
    ensures var k, d := Executed(c, queue, Responses(queue, ws)), RunQueue(c, queue, Responses(queue, ws));
            && 0 < k <= |queue| && GoesWell(c, queue, ws, k - 1)
            && d == StateAfter(c, queue, Responses(queue, ws), k)
            && (d.info.fault == NoFault ==> k == |queue| && GoesWell(c, queue, ws, k))
  {
    hide StateAfter, RunQueue, Executed, Responses;
    RunIsPrefix(c, queue, Responses(queue, ws));
  }

  /** As long as the client reports no fault, after each exchange exactly the records sent so far are in the file,
      as far as they consist of half words, and nothing else has changed. */
  lemma {:induction false} WritesArrive(address: byte, s: Store, index: nat, f: FileState, c: ClientState,
                                        ws: seq<Crossing>, k: nat)
    requires Matches(s, index, f) && k <= f.records && k <= s.files[index].records
    requires LineRun(address, s, WriteExchanges(address, f, s.recordSize, f.records), ws)
    requires GoesWell(c, WriteExchanges(address, f, s.recordSize, f.records), ws, k)
    ensures Through(address, s, ws, k) == WriteProgress(s, index, Landed(s, index, f.bytes), k)
    ensures k > 0 ==> ws[k - 1].arrived == Request(WriteExchanges(address, f, s.recordSize, f.records)[k - 1])
  {
    hide Request, Crosses, Slice, WriteProgress, Landed, Served, WellFormed, StateAfter, Satisfies, GoesWell, Responses;
    if k == 0 {
      NothingSpliced(s, index, Landed(s, index, f.bytes));
    } else {
      var queue := WriteExchanges(address, f, s.recordSize, f.records);
      GoesWellBefore(c, queue, ws, k);
      WritesArrive(address, s, index, f, c, ws, k - 1);
      WentWell(c, queue, ws, k);
      WriteExchangesAt(address, f, s.recordSize, f.records, k - 1);
      RequestIsValid(queue[k - 1]);
      SatisfiedIsGenuine(address, Through(address, s, ws, k - 1), queue[k - 1], ws[k - 1]);
      WriteServed(address, s, index, f, k - 1, Through(address, s, ws, k - 1), queue[k - 1], ws[k - 1]);
    }
  }

  /** An exchange that does not get through leaves the server alone. */
  lemma CrossingEffect(address: byte, t: Store, x: Exchange, w: Crossing)
    requires WellFormed(t) && TransferExchange(x) && Crosses(address, t, x, w)
    ensures w.arrived == Request(x) || Served(address, t, w).store == t
  {
    hide Request, Serve, WellFormed;
    if w.arrived != Request(x) {
      DamagedRequest(address, t, x, w.before, w.arrived);
    }
  }

  /** However the line behaves, the run ends with exactly a prefix of the records written: those of all exchanges
      that were run, or of all but the last; of all of them if no fault was reported. */
  lemma WriteRun(address: byte, s: Store, index: nat, f: FileState, c: ClientState, ws: seq<Crossing>)
    requires Matches(s, index, f) && f.records <= s.files[index].records && c.info.fault == NoFault
    requires LineRun(address, s, WriteExchanges(address, f, s.recordSize, f.records), ws)
    ensures var queue := WriteExchanges(address, f, s.recordSize, f.records);
            var k := Executed(c, queue, Responses(queue, ws));
            && 0 < k
            && (Through(address, s, ws, k) == WriteProgress(s, index, Landed(s, index, f.bytes), k)
                || Through(address, s, ws, k) == WriteProgress(s, index, Landed(s, index, f.bytes), k - 1))
            && (RunQueue(c, queue, Responses(queue, ws)).info.fault == NoFault ==>
                  k == f.records && Through(address, s, ws, k) == WriteProgress(s, index, Landed(s, index, f.bytes), k))
  {
    hide Request, Crosses, Slice, WriteProgress, Landed, Served, WellFormed, StateAfter, RunQueue, Executed, GoesWell,
         Responses;
    var queue := WriteExchanges(address, f, s.recordSize, f.records);
    RunGoesWell(c, queue, ws);
    var k := Executed(c, queue, Responses(queue, ws));
    if RunQueue(c, queue, Responses(queue, ws)).info.fault == NoFault {
      WritesArrive(address, s, index, f, c, ws, k);
    } else {
      WritesArrive(address, s, index, f, c, ws, k - 1);
      WriteExchangesAt(address, f, s.recordSize, f.records, k - 1);
      var t, x, w := Through(address, s, ws, k - 1), queue[k - 1], ws[k - 1];
      CrossingEffect(address, t, x, w);
      if w.arrived == Request(x) {
        WriteServed(address, s, index, f, k - 1, t, x, w);
      }
    }
  }

  /** A file with more records than the server's cannot be written without a fault: after the server's last record
      the receive length is back at its default and no longer fits the next request. */
  lemma WriteOverrun(address: byte, s: Store, index: nat, f: FileState, c: ClientState, ws: seq<Crossing>)
    requires Matches(s, index, f) && f.records > s.files[index].records && c.info.fault == NoFault
    requires LineRun(address, s, WriteExchanges(address, f, s.recordSize, f.records), ws)
    ensures var queue := WriteExchanges(address, f, s.recordSize, f.records);
            RunQueue(c, queue, Responses(queue, ws)).info.fault != NoFault
  {
    hide Request, Crosses, Slice, WriteProgress, Landed, Served, StateAfter, RunQueue, Executed, Responses, Satisfies,
         LineRun, Through;
    var queue, n := WriteExchanges(address, f, s.recordSize, f.records), s.files[index].records;
    RunShape(address, s, queue, ws, n);
    RunGoesWell(c, queue, ws);
    WriteExchangesAt(address, f, s.recordSize, f.records, n);
    RequestIsValid(queue[n]);
    WriteProgressEnds(s, index, f);
    if RunQueue(c, queue, Responses(queue, ws)).info.fault == NoFault {
      WritesArrive(address, s, index, f, c, ws, n);
      WentWell(c, queue, ws, n + 1);
      SatisfiedIsGenuine(address, Through(address, s, ws, n), queue[n], ws[n]);
    }
  }

  lemma RunShape(address: byte, s: Store, queue: seq<Exchange>, ws: seq<Crossing>, k: nat)
    requires WellFormed(s) && LineRun(address, s, queue, ws) && k < |queue|
    ensures |ws| == |queue| && Buffers(ws)
    ensures Crosses(address, Through(address, s, ws, k), queue[k], ws[k])
  {
    hide Crosses, WellFormed, Through;
  }

  /** During a write transfer the receive length fits the next request; after as many records as the server's file has,
      and only then, the server is idle again. */
  lemma WriteProgressEnds(s: Store, index: nat, f: FileState)
    requires Matches(s, index, f)
    ensures forall k :: 0 <= k < s.files[index].records ==>
              WriteProgress(s, index, Landed(s, index, f.bytes), k).link.size == READ_REQUEST_SIZE + s.recordSize
    ensures WriteProgress(s, index, Landed(s, index, f.bytes), s.files[index].records).link.size == DEFAULT_SIZE
    ensures forall k :: 0 <= k <= s.files[index].records ==>
              (k == s.files[index].records <==>
                 WriteProgress(s, index, Landed(s, index, f.bytes), k).counter == 0
                     && WriteProgress(s, index, Landed(s, index, f.bytes), k).link.size == DEFAULT_SIZE)
  {
    forall k | 0 <= k <= s.files[index].records
      ensures Spliced(s, index, Landed(s, index, f.bytes), k).link == s.link
              && |Spliced(s, index, Landed(s, index, f.bytes), k).files| == FILE_COUNT
      ensures Spliced(s, index, Landed(s, index, f.bytes), k).files[index].records == s.files[index].records
    {
      SplicedTables(s, index, Landed(s, index, f.bytes), k);
    }
    hide Spliced, WellFormed, Landed;
  }

  lemma NothingSpliced(s: Store, index: nat, bytes: seq<byte>)
    requires ReadyForWrites(s, index)
    ensures WriteProgress(s, index, bytes, 0) == s
  {
    assert bytes[..0] + s.files[index].bytes[0..] == s.files[index].bytes;
  }

  // ---------- A line that delivers everything ----------

  ghost predicate Delivered(address: byte, s: Store, x: Exchange, w: Crossing)
    requires WellFormed(s)
  {
    |w.before| == BUFFER_SIZE && w.arrived == Request(x) && w.carried == Served(address, s, w).reply
  }

  ghost predicate PerfectRun(address: byte, s: Store, queue: seq<Exchange>, ws: seq<Crossing>)
    requires WellFormed(s)
  {
    && |ws| == |queue| && Buffers(ws)
    && forall j :: 0 <= j < |queue| ==> Delivered(address, Through(address, s, ws, j), queue[j], ws[j])
  }

  lemma PerfectRunIsLineRun(address: byte, s: Store, queue: seq<Exchange>, ws: seq<Crossing>)
    requires WellFormed(s) && PerfectRun(address, s, queue, ws)
    ensures LineRun(address, s, queue, ws)
  {
    hide Request, Serve, WellFormed;
    forall j | 0 <= j < |queue| ensures Crosses(address, Through(address, s, ws, j), queue[j], ws[j]) {
      assert Delivered(address, Through(address, s, ws, j), queue[j], ws[j]);
    }
  }

  /** A valid response of the expected length lets a write task go on. */
  lemma AcceptedGoesOn(c: ClientState, x: Exchange, response: seq<byte>)
    requires ChecksumValid(response) && |response| == Expected(x)
    ensures !c.info.task.ReadFileTask? ==> Step(c, x, response).info.fault == c.info.fault
    ensures Step(c, x, response).info.task == c.info.task
  {
    hide Load, Loadable, Pdu, ChecksumValid, Expected;
  }

  lemma DeliveredArrives(address: byte, s: Store, x: Exchange, w: Crossing)
    requires WellFormed(s) && Delivered(address, s, x, w)
    ensures |w.before| == BUFFER_SIZE && w.arrived == Request(x)
  {
  }

  lemma PerfectArrives(address: byte, s: Store, queue: seq<Exchange>, ws: seq<Crossing>, k: nat)
    requires WellFormed(s) && PerfectRun(address, s, queue, ws) && k < |queue|
    ensures |ws| == |queue| && ws[k].arrived == Request(queue[k])
  {
    hide WellFormed, Served, Request, Through;
    assert Delivered(address, Through(address, s, ws, k), queue[k], ws[k]);
  }

  lemma DeliveredIsHeard(address: byte, s: Store, x: Exchange, w: Crossing)
    requires WellFormed(s) && TransferExchange(x) && Bounded(x) && x.address == address && |Request(x)| == s.link.size
    requires Delivered(address, s, x, w) && Served(address, s, w).verdict == Verdict.NoError
    ensures Heard(x, w) == Served(address, s, w).reply
    ensures ChecksumValid(Heard(x, w)) && |Heard(x, w)| == Expected(x)
  {
    hide Request, Serve, ChecksumValid, WellFormed;
    IntactRequest(address, s, x, w.before);
  }

  /** On a line that delivers everything, every write is performed and answered as the client expects. */
  lemma {:induction false} WritesServed(address: byte, s: Store, index: nat, f: FileState, ws: seq<Crossing>, k: nat)
    requires Matches(s, index, f) && k <= f.records && k <= s.files[index].records
    requires PerfectRun(address, s, WriteExchanges(address, f, s.recordSize, f.records), ws)
    ensures Through(address, s, ws, k) == WriteProgress(s, index, Landed(s, index, f.bytes), k)
    ensures k > 0 ==> Satisfies(WriteExchanges(address, f, s.recordSize, f.records)[k - 1], ws[k - 1])
  {
    hide Request, Slice, WriteProgress, Landed, ChecksumValid, Served, Delivered, WellFormed, Heard;
    if k == 0 {
      NothingSpliced(s, index, Landed(s, index, f.bytes));
    } else {
      WritesServed(address, s, index, f, ws, k - 1);
      var queue := WriteExchanges(address, f, s.recordSize, f.records);
      WriteExchangesAt(address, f, s.recordSize, f.records, k - 1);
      var t, x, w := Through(address, s, ws, k - 1), queue[k - 1], ws[k - 1];
      RequestIsValid(x);
      DeliveredArrives(address, t, x, w);
      WriteServed(address, s, index, f, k - 1, t, x, w);
      DeliveredIsHeard(address, t, x, w);
    }
  }

  lemma {:induction false} ClientGoesOn(c: ClientState, queue: seq<Exchange>, ws: seq<Crossing>, k: nat)
    requires k <= |queue| == |ws| && !c.info.task.ReadFileTask?
    requires forall j :: 0 <= j < k ==> Satisfies(queue[j], ws[j])
    ensures StateAfter(c, queue, Responses(queue, ws), k).info.fault == c.info.fault
    ensures StateAfter(c, queue, Responses(queue, ws), k).info.task == c.info.task
  {
    hide Step, ChecksumValid, Heard, Expected;
    if k > 0 {
      ClientGoesOn(c, queue, ws, k - 1);
      AcceptedGoesOn(StateAfter(c, queue, Responses(queue, ws), k - 1), queue[k - 1], Heard(queue[k - 1], ws[k - 1]));
    }
  }

  /** On a line that delivers everything, a write transfer ends without a fault. */
  lemma WritesSucceed(address: byte, s: Store, index: nat, f: FileState, c: ClientState, ws: seq<Crossing>)
    requires Matches(s, index, f) && f.records <= s.files[index].records && c.info.fault == NoFault
             && !c.info.task.ReadFileTask?
    requires PerfectRun(address, s, WriteExchanges(address, f, s.recordSize, f.records), ws)
    ensures var queue := WriteExchanges(address, f, s.recordSize, f.records);
            RunQueue(c, queue, Responses(queue, ws)).info.fault == NoFault
  {
    var queue := WriteExchanges(address, f, s.recordSize, f.records);
    hide WriteExchanges, RunQueue, StateAfter, WellFormed, PerfectRun, Through;
    forall j | 0 <= j < |queue| ensures Satisfies(queue[j], ws[j]) {
      WritesServed(address, s, index, f, ws, j + 1);
    }
    forall j | 0 <= j <= |queue| ensures StateAfter(c, queue, Responses(queue, ws), j).info.fault == NoFault {
      ClientGoesOn(c, queue, ws, j);
    }
    WholeRun(c, queue, Responses(queue, ws));
  }

  lemma {:induction false} ThroughPrefix(address: byte, s: Store, ws: seq<Crossing>, w: Crossing, j: nat)
    requires WellFormed(s) && Buffers(ws) && |w.before| == BUFFER_SIZE && j <= |ws|
    ensures Buffers(ws + [w])
    ensures Through(address, s, ws + [w], j) == Through(address, s, ws, j)
  {
    hide Serve, WellFormed;
    if j > 0 { ThroughPrefix(address, s, ws, w, j - 1); }
  }

  /** The exchange as it happens on a line that delivers everything. */
  ghost function Delivery(address: byte, s: Store, x: Exchange, before: seq<byte>): (w: Crossing)
    requires WellFormed(s) && |before| == BUFFER_SIZE
    ensures Delivered(address, s, x, w)
  {
    Crossing(before, Request(x), Serve(address, s, before, Request(x)).reply)
  }

  /** Every queue has such a run. */
  lemma {:induction false} PerfectRunFor(address: byte, s: Store, queue: seq<Exchange>, before: seq<byte>)
    returns (ws: seq<Crossing>)
    requires WellFormed(s) && |before| == BUFFER_SIZE
    ensures PerfectRun(address, s, queue, ws)
    decreases |queue|
  {
    hide WellFormed, Request, Serve, Delivered, Through;
    ws := [];
    if queue != [] {
      var n := |queue| - 1;
      var us := PerfectRunFor(address, s, queue[..n], before);
      var w := Delivery(address, Through(address, s, us, n), queue[n], before);
      DeliveredArrives(address, Through(address, s, us, n), queue[n], w);
      ws := us + [w];
      forall j | 0 <= j < |queue|
        ensures Buffers(ws) && Delivered(address, Through(address, s, ws, j), queue[j], ws[j])
      {
        ThroughPrefix(address, s, us, w, j);
        if j < n { assert Delivered(address, Through(address, s, us, j), queue[..n][j], us[j]); }
      }
    }
  }
}
