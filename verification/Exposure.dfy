/** Read transfers whose records may be short: for which file and record sizes they are safe on every line. */
module Exposure {
  import opened Bytes
  import opened Frame
  import opened Resources
  import opened Records
  import opened Server
  import opened Node
  import opened ClientFile
  import opened Client
  import opened Queue
  import opened Line
  import opened Steps
  import opened Transfer
  import opened Reading
  import opened Limits

  // ---------- When the client reads outside a response ----------

  /** Record k cannot make the client read outside its response: it is long, or the file has no room for more than
      it brings. */
  predicate StaysInside(f: FileState, k: nat) {
    WordsOf(f, k) >= 3 || f.fileSize <= k * f.recordSize + 2 * WordsOf(f, k)
  }

  /** The file while k records have been taken, whatever they contain. */
  ghost predicate Taking(g: FileState, f: FileState, k: nat) {
    g.counter == k && g.recordSize == f.recordSize && g.fileSize == f.fileSize <= |g.bytes|
  }

  /** The answer to an intact read request, from a server in any state. */
  lemma ReadAnswerShape(address: byte, t: Store, x: Exchange, w: Crossing)
    requires WellFormed(t) && x.ReadRecord? && x.address == address && Crosses(address, t, x, w) && Satisfies(x, w)
    requires w.arrived == Request(x)
    ensures |Heard(x, w)| >= MIN_FRAME && 2 * x.words < 0x100
    ensures var message := Pdu(Heard(x, w)); |message| == 4 + 2 * x.words && Value(message[2]) == 2 * x.words
  {
    hide Request, Crosses, Served, Heard, ChecksumValid, RecordAnswer, Sealed, Value, Pdu, ReadPdu, WellFormed, Record;
    RequestIsValid(x);
    AcceptedIsGenuine(address, t, x, w);
    var service := FileService(x.file, x.record, x.words);
    ServedRead(address, t, x, w);
    ReadOutcome(t, service);
    RecordSizeLimit(t);
    var bytes := Record(t, x.file - 1, x.record)[..2 * x.words];
    ReplyPdu(address, bytes);
    PduCarries(bytes);
  }

  lemma RecordSizeLimit(t: Store)
    requires WellFormed(t)
    ensures t.recordSize <= 241
  {
  }

  lemma ServedRead(address: byte, t: Store, x: Exchange, w: Crossing)
    requires WellFormed(t) && x.ReadRecord? && x.address == address && |w.before| == BUFFER_SIZE
             && w.arrived == Request(x)
    requires t.link.size == READ_REQUEST_SIZE && Served(address, t, w).verdict == Verdict.NoError
    ensures var answer := RecordRead(t, FileService(x.file, x.record, x.words)).1;
            answer.Data? && Served(address, t, w).reply == Sealed([address, READ_FILE] + answer.payload)
  {
    hide Request, Serve, RecordRead, WellFormed, Sealed;
    ServeReadRecord(address, t, x.file, x.record, x.words, w.before);
  }

  /** In a step that stays inside, no line makes the client read outside the response. */
  lemma StepDefined(address: byte, t: Store, x: Exchange, w: Crossing, d: ClientState, f: FileState, k: nat)
    requires WellFormed(t) && x.ReadRecord? && x.address == address && Crosses(address, t, x, w)
    requires x.words == WordsOf(f, k) && StaysInside(f, k) && Taking(d.file, f, k)
    ensures CallbackDefined(Begun(d, x), Heard(x, w))
  {
    hide Request, Crosses, Served, Heard, ChecksumValid, Value, Pdu, WellFormed, WordsOf;
    RequestIsValid(x);
    if Satisfies(x, w) {
      AcceptedIsGenuine(address, t, x, w);
      if w.arrived == Request(x) {
        ReadAnswerShape(address, t, x, w);
      }
      PduLength(Heard(x, w));
    }
  }

  lemma PduLength(frame: seq<byte>)
    requires ChecksumValid(frame)
    ensures |frame| >= MIN_FRAME && |Pdu(frame)| == |frame| - 3
  {
  }

  /** A step without a fault in which nothing is read outside the response takes one record. */
  lemma StepTakes(d: ClientState, x: Exchange, response: seq<byte>, f: FileState, k: nat)
    requires d.info.task.ReadFileTask? && Taking(d.file, f, k) && k < 0xFFFF
    requires CallbackDefined(Begun(d, x), response) && Step(d, x, response).info.fault == NoFault
    ensures var e := Step(d, x, response); Taking(e.file, f, k + 1) && e.info.task.ReadFileTask?
  {
    hide ChecksumValid, Expected, Pdu, Value;
  }

  /** A transfer all of whose records stay inside is defined on every line, whether or not it ends without a fault. */
  lemma ReadRunDefined(address: byte, s: Store, index: nat, f: FileState, c: ClientState, ws: seq<Crossing>)
    requires ReadSession(address, s, index, f, c, ws)
    requires forall k :: 0 <= k < f.records ==> StaysInside(f, k)
    ensures |ws| == f.records
    ensures RunDefined(c, ReadQueue(address, index, f), Responses(ReadQueue(address, index, f), ws))
  {
    hide ReadSession, ReadState, Step, StateAfter, Executed, ReadQueue, CallbackDefined, WellFormed, Through, LineRun,
         StaysInside, Taking, RunDefined;
    ReadSessionShape(address, s, index, f, c, ws);
    var queue := ReadQueue(address, index, f);
    var responses := Responses(queue, ws);
    RunIsPrefix(c, queue, responses);
    forall j | 0 <= j < Executed(c, queue, responses)
      ensures CallbackDefined(Begun(StateAfter(c, queue, responses, j), queue[j]), responses[j])
    {
      StepsDefined(address, s, index, f, c, ws, j);
    }
    RunDefinedBySteps(c, queue, responses);
  }

  lemma {:induction false} StepsDefined(address: byte, s: Store, index: nat, f: FileState, c: ClientState,
                                        ws: seq<Crossing>, k: nat)
    requires ReadSession(address, s, index, f, c, ws) && k < f.records
    requires forall j :: 0 <= j <= k ==> StaysInside(f, j)
    requires |ws| == f.records
    requires forall j :: 0 < j <= k ==>
               StateAfter(c, ReadQueue(address, index, f), Responses(ReadQueue(address, index, f), ws), j).info.fault
                   == NoFault
    ensures var queue := ReadQueue(address, index, f); var d := StateAfter(c, queue, Responses(queue, ws), k);
            && CallbackDefined(Begun(d, queue[k]), Heard(queue[k], ws[k]))
            && Taking(d.file, f, k) && d.info.task.ReadFileTask?
    decreases k
  {
    hide Reads, Step, ReadQueue, CallbackDefined, WellFormed, Through, LineRun, StaysInside, Taking, Crosses, WordsOf,
         Heard, Responses, StateAfter;
    ReadSessionShape(address, s, index, f, c, ws);
    var queue := ReadQueue(address, index, f);
    NothingTaken(s, index, f, c, queue, ws);
    if k > 0 {
      StepsDefined(address, s, index, f, c, ws, k - 1);
      RunNext(address, s, c, queue, ws, k - 1);
      StepTakes(StateAfter(c, queue, Responses(queue, ws), k - 1), queue[k - 1], Heard(queue[k - 1], ws[k - 1]), f,
          k - 1);
    }
    RunShape(address, s, queue, ws, k);
    QueuedRead(address, s, index, f, k);
    StepDefined(address, Through(address, s, ws, k), queue[k], ws[k], StateAfter(c, queue, Responses(queue, ws), k), f,
        k);
  }

  lemma NothingTaken(s: Store, index: nat, f: FileState, c: ClientState, queue: seq<Exchange>, ws: seq<Crossing>)
    requires Reads(s, index, f) && Reader(c, f) && |queue| == |ws|
    ensures var d := StateAfter(c, queue, Responses(queue, ws), 0); Taking(d.file, f, 0) && d.info.task.ReadFileTask?
  {
    hide WellFormed;
  }

  lemma QueuedRead(address: byte, s: Store, index: nat, f: FileState, k: nat)
    requires Reads(s, index, f) && k < f.records && index < FILE_COUNT
    ensures WordsOf(f, k) <= 120 && ReadQueue(address, index, f)[k] == ReadRecord(address, index + 1, k, WordsOf(f, k))
  {
    hide Reads, WordsOf;
    PortionFits(s, index, f, k);
    ReadExchangesAt(address, index + 1, f, f.records, k);
  }

  // ---------- Building runs crossing by crossing ----------

  /** The first k exchanges cross the line; what the others look like is open. */
  ghost predicate LineTo(address: byte, s: Store, queue: seq<Exchange>, ws: seq<Crossing>, k: nat)
    requires WellFormed(s)
  {
    && |ws| == |queue| && Buffers(ws) && k <= |queue|
    && forall j :: 0 <= j < k ==> Crosses(address, Through(address, s, ws, j), queue[j], ws[j])
  }

  lemma {:induction false} ThroughAgrees(address: byte, s: Store, ws: seq<Crossing>, vs: seq<Crossing>, j: nat)
    requires WellFormed(s) && Buffers(ws) && Buffers(vs) && j <= |ws| == |vs| && ws[..j] == vs[..j]
    ensures Through(address, s, ws, j) == Through(address, s, vs, j)
  {
    hide Serve, WellFormed;
    if j > 0 {
      assert ws[j - 1] == ws[..j][j - 1] == vs[j - 1];
      assert ws[..j - 1] == ws[..j][..j - 1] == vs[..j - 1];
      ThroughAgrees(address, s, ws, vs, j - 1);
    }
  }

  lemma {:induction false} StatesAgree(c: ClientState, queue: seq<Exchange>, ws: seq<Crossing>, vs: seq<Crossing>,
                                       j: nat)
    requires j <= |queue| == |ws| == |vs| && ws[..j] == vs[..j]
    ensures StateAfter(c, queue, Responses(queue, ws), j) == StateAfter(c, queue, Responses(queue, vs), j)
  {
    hide Step, Heard;
    if j > 0 {
      assert ws[j - 1] == ws[..j][j - 1] == vs[j - 1];
      assert ws[..j - 1] == ws[..j][..j - 1] == vs[..j - 1];
      StatesAgree(c, queue, ws, vs, j - 1);
    }
  }

  lemma LineExtends(address: byte, s: Store, queue: seq<Exchange>, ws: seq<Crossing>, w: Crossing, k: nat)
    requires WellFormed(s) && LineTo(address, s, queue, ws, k) && k < |queue|
    requires |w.before| == BUFFER_SIZE && Crosses(address, Through(address, s, ws, k), queue[k], w)
    ensures LineTo(address, s, queue, ws[k := w], k + 1)
    ensures forall j :: 0 <= j <= k ==> Through(address, s, ws[k := w], j) == Through(address, s, ws, j)
  {
    hide Crosses, WellFormed, Through;
    var vs := ws[k := w];
    forall j | 0 <= j <= k ensures Through(address, s, vs, j) == Through(address, s, ws, j) {
      assert vs[..j] == ws[..j];
      ThroughAgrees(address, s, vs, ws, j);
    }
  }

  /** Every beginning of a run can be completed by delivering the rest. */
  lemma {:induction false} LineCompletes(address: byte, s: Store, queue: seq<Exchange>, ws: seq<Crossing>, k: nat)
    returns (vs: seq<Crossing>)
    requires WellFormed(s) && LineTo(address, s, queue, ws, k)
    ensures LineRun(address, s, queue, vs) && |vs| == |ws| && vs[..k] == ws[..k]
    decreases |queue| - k
  {
    hide WellFormed, Crosses, Through, Serve, Request;
    if k == |queue| {
      vs := ws;
    } else {
      var t := Through(address, s, ws, k);
      var w := Delivery(address, t, queue[k], seq(BUFFER_SIZE, _ => 0));
      DeliveredCrosses(address, t, queue[k], w);
      LineExtends(address, s, queue, ws, w, k);
      vs := LineCompletes(address, s, queue, ws[k := w], k + 1);
      assert vs[..k] == vs[..k + 1][..k] == ws[k := w][..k + 1][..k] == ws[..k];
    }
  }

  lemma DeliveredCrosses(address: byte, s: Store, x: Exchange, w: Crossing)
    requires WellFormed(s) && Delivered(address, s, x, w)
    ensures |w.before| == BUFFER_SIZE && w.arrived == Request(x) && Crosses(address, s, x, w)
  {
    hide Serve, Request;
  }

  // ---------- Read transfers crossing by crossing ----------

  /** The first k exchanges report no fault and read nothing outside their responses. */
  ghost predicate FineTo(c: ClientState, queue: seq<Exchange>, ws: seq<Crossing>, k: nat) {
    && k <= |queue| == |ws|
    && (forall j :: 0 <= j <= k ==> StateAfter(c, queue, Responses(queue, ws), j).info.fault == NoFault)
    && (forall j :: 0 <= j < k ==>
          CallbackDefined(Begun(StateAfter(c, queue, Responses(queue, ws), j), queue[j]), Heard(queue[j], ws[j])))
  }

  /** The first k exchanges of a read transfer crossed the line without a fault; the server counted m of them,
      and the client holds k records of `content`. */
  ghost predicate ReadTo(address: byte, s: Store, index: nat, f: FileState, c: ClientState, ws: seq<Crossing>,
                         m: nat, content: seq<byte>, k: nat) {
    && Reads(s, index, f) && Reader(c, f)
    && LineTo(address, s, ReadQueue(address, index, f), ws, k)
    && FineTo(c, ReadQueue(address, index, f), ws, k)
    && ReadStateAt(address, s, index, f, c, ws, m, content, k)
  }

  lemma ReadToStart(address: byte, s: Store, index: nat, f: FileState, c: ClientState, content: seq<byte>)
    returns (ws: seq<Crossing>)
    requires Reads(s, index, f) && Reader(c, f)
    ensures ReadTo(address, s, index, f, c, ws, 0, content, 0) && |ws| == f.records
  {
    ws := seq(f.records, _ => Crossing(seq(BUFFER_SIZE, _ => 0), [], []));
    NothingRead(s, index, f);
    assert Assembled(f, content, 0) == f.bytes;
  }

  /** What a transfer that has come this far is, whichever exchange comes next. */
  lemma ReadToNext(address: byte, s: Store, index: nat, f: FileState, c: ClientState, ws: seq<Crossing>,
                   m: nat, content: seq<byte>, k: nat, w: Crossing)
    requires ReadTo(address, s, index, f, c, ws, m, content, k) && k < f.records
    requires WellFormed(s) && Buffers(ws) && |w.before| == BUFFER_SIZE && k <= |ws|
    requires Crosses(address, Through(address, s, ws, k), ReadQueue(address, index, f)[k], w)
    ensures var queue, vs := ReadQueue(address, index, f), ws[k := w];
            && LineTo(address, s, queue, vs, k + 1) && FineTo(c, queue, vs, k)
            && ReadStateAt(address, s, index, f, c, vs, m, content, k)
            && Through(address, s, vs, k) == Through(address, s, ws, k)
  {
    hide Reads, Crosses, WellFormed, Through, ReadQueue, CallbackDefined, Counted, ReadProgress, StateAfter, Responses,
         Heard, Reader;
    ReadsShape(s, index, f);
    var queue, vs := ReadQueue(address, index, f), ws[k := w];
    LineExtends(address, s, queue, ws, w, k);
    forall j | 0 <= j <= k
      ensures StateAfter(c, queue, Responses(queue, vs), j) == StateAfter(c, queue, Responses(queue, ws), j)
    {
      assert vs[..j] == ws[..j];
      StatesAgree(c, queue, vs, ws, j);
    }
  }

  /** One exchange more: it is defined, reports no fault, and leads to the next state. */
  lemma FineNext(c: ClientState, queue: seq<Exchange>, ws: seq<Crossing>, k: nat)
    requires FineTo(c, queue, ws, k) && k < |queue|
    requires var d := StateAfter(c, queue, Responses(queue, ws), k);
             CallbackDefined(Begun(d, queue[k]), Heard(queue[k], ws[k]))
    requires StateAfter(c, queue, Responses(queue, ws), k + 1).info.fault == NoFault
    ensures FineTo(c, queue, ws, k + 1)
  {
    hide CallbackDefined, StateAfter, Responses, Heard;
  }

  lemma ReadToShape(address: byte, s: Store, index: nat, f: FileState, c: ClientState, ws: seq<Crossing>,
                    m: nat, content: seq<byte>, k: nat)
    requires ReadTo(address, s, index, f, c, ws, m, content, k)
    ensures WellFormed(s) && index < FILE_COUNT && Buffers(ws) && k <= |ws| == f.records && Reads(s, index, f)
            && Reader(c, f)
    ensures Through(address, s, ws, k) == Counted(s, index, m)
    ensures var d := StateAfter(c, ReadQueue(address, index, f), Responses(ReadQueue(address, index, f), ws), k);
            d.file == ReadProgress(f, content, k) && d.info.task.ReadFileTask? && d.info.fault == NoFault
  {
    hide CallbackDefined, Crosses, Counted, ReadProgress, Through, StateAfter, Responses, Heard;
  }

  /** A delivered exchange brings one more record, and the server counts it. */
  lemma ReadToDelivered(address: byte, s: Store, index: nat, f: FileState, c: ClientState, ws: seq<Crossing>,
                        m: nat, content: seq<byte>, k: nat) returns (vs: seq<Crossing>)
    requires ReadTo(address, s, index, f, c, ws, m, content, k) && k < f.records <= s.files[index].records
             && m < s.files[index].records
    requires Supplies(content, f, k, Portion(s, index, f, k))
    ensures ReadTo(address, s, index, f, c, vs, m + 1, content, k + 1)
    ensures |vs| == |ws| == f.records && k < |ws| && vs == ws[k := vs[k]] && index < FILE_COUNT
    ensures |vs[k].carried| <= Expected(ReadQueue(address, index, f)[k])
  {
    hide Reads, Crosses, WellFormed, Through, ReadQueue, CallbackDefined, Counted, StateAfter, Responses, Heard,
         Delivered, Served, Request, Supplies, Portion, Satisfies, LineTo, FineTo, ReadStateAt, WordsOf, Expected;
    ReadToShape(address, s, index, f, c, ws, m, content, k);
    var queue, t := ReadQueue(address, index, f), Through(address, s, ws, k);
    QueuedRead(address, s, index, f, k);
    var w := Delivery(address, t, queue[k], seq(BUFFER_SIZE, _ => 0));
    DeliveredCrosses(address, t, queue[k], w);
    DeliveredSatisfies(address, s, index, f, m, k, t, queue[k], w);
    ReadToNext(address, s, index, f, c, ws, m, content, k, w);
    vs := ws[k := w];
    ReadStateAtNext(address, s, index, f, c, vs, m, content, k);
    FineShape(c, queue, vs, k);
    FineNext(c, queue, vs, k);
  }

  lemma DeliveredSatisfies(address: byte, s: Store, index: nat, f: FileState, m: nat, k: nat, t: Store, x: Exchange,
                           w: Crossing)
    requires Reads(s, index, f) && k < f.records && k < s.files[index].records && m < s.files[index].records
    requires t == Counted(s, index, m) && WellFormed(t)
    requires WordsOf(f, k) < 0x1_0000 && x == ReadRecord(address, index + 1, k, WordsOf(f, k))
             && Delivered(address, t, x, w)
    ensures Satisfies(x, w) && |w.carried| <= Expected(x)
  {
    hide Reads, WellFormed, Counted, Heard, Served, Request, Portion, WordsOf, ChecksumValid, Expected, Sealed;
    RequestIsValid(x);
    DeliveredArrives(address, t, x, w);
    ReadServed(address, s, index, f, m, k, t, x, w);
    DeliveredIsHeard(address, t, x, w);
  }

  lemma FineShape(c: ClientState, queue: seq<Exchange>, ws: seq<Crossing>, k: nat)
    requires FineTo(c, queue, ws, k)
    ensures k <= |queue| == |ws| && StateAfter(c, queue, Responses(queue, ws), k).info.fault == NoFault
  {
    hide CallbackDefined, StateAfter, Responses, Heard;
  }

  /** A forged exchange of a short record brings any payload, and the server counts nothing. */
  lemma ReadToForged(address: byte, s: Store, index: nat, f: FileState, c: ClientState, ws: seq<Crossing>,
                     m: nat, content: seq<byte>, k: nat, payload: seq<byte>) returns (vs: seq<Crossing>)
    requires ReadTo(address, s, index, f, c, ws, m, content, k) && k < f.records <= s.files[index].records
             && m < s.files[index].records
    requires WordsOf(f, k) <= 2 && |payload| == 2 * WordsOf(f, k) && Supplies(content, f, k, payload)
    ensures ReadTo(address, s, index, f, c, vs, m, content, k + 1)
    ensures |vs| == |ws| == f.records && k < |ws| && vs == ws[k := vs[k]] && index < FILE_COUNT
  {
    hide Reads, Crosses, WellFormed, Through, ReadQueue, CallbackDefined, Counted, ReadProgress, StateAfter, Responses,
         Heard, Served, Request, Supplies, LineTo, FineTo, WordsOf, Step, Pdu, ReadPdu, ChecksumValid, Expected;
    ReadToShape(address, s, index, f, c, ws, m, content, k);
    var queue, t := ReadQueue(address, index, f), Through(address, s, ws, k);
    QueuedRead(address, s, index, f, k);
    PortionFits(s, index, f, k);
    CountedLinkSize(s, index, f, m);
    var w := ShortReadIsForged(address, t, index + 1, k, WordsOf(f, k), payload, seq(BUFFER_SIZE, _ => 0));
    CrossesShape(address, t, queue[k], w);
    ReadToNext(address, s, index, f, c, ws, m, content, k, w);
    vs := ws[k := w];
    RunNext(address, s, c, queue, vs, k);
    PduLength(Heard(queue[k], w));
    ReadTaken(f, content, k, payload, StateAfter(c, queue, Responses(queue, vs), k), queue[k], Heard(queue[k], w));
    FineShape(c, queue, vs, k);
    FineNext(c, queue, vs, k);
  }

  lemma CountedLinkSize(s: Store, index: nat, f: FileState, m: nat)
    requires Reads(s, index, f) && m < s.files[index].records
    ensures Counted(s, index, m).link.size == READ_REQUEST_SIZE
  {
  }

  lemma CrossesShape(address: byte, s: Store, x: Exchange, w: Crossing)
    requires WellFormed(s) && Crosses(address, s, x, w)
    ensures |w.before| == BUFFER_SIZE
  {
  }

  /** Content in which record p begins with `payload` and all other records are as the server's. */
  ghost predicate Replaced(s: Store, index: nat, f: FileState, content: seq<byte>, p: nat, payload: seq<byte>) {
    && Reads(s, index, f) && f.records <= s.files[index].records
    && (forall j :: 0 <= j < f.records && j != p ==> Supplies(content, f, j, Portion(s, index, f, j)))
    && Supplies(content, f, p, payload)
  }

  /** The server's file with the head of record p replaced. */
  ghost function WithRecord(s: Store, index: nat, p: nat, payload: seq<byte>): seq<byte> {
    if index < |s.files| && p * s.recordSize + |payload| <= |s.files[index].bytes|
    then Overwrite(s.files[index].bytes, p * s.recordSize, payload)
    else []
  }

  lemma OverwriteElsewhere(bytes: seq<byte>, size: nat, p: nat, payload: seq<byte>, j: nat, n: nat)
    requires j != p && |payload| <= size && n <= size && p * size + size <= |bytes| && j * size + size <= |bytes|
    ensures Overwrite(bytes, p * size, payload)[j * size..j * size + n] == bytes[j * size..j * size + n]
  {
    if j < p { SlotInside(j, p, size); } else { SlotInside(p, j, size); }
  }

  lemma SuppliesElsewhere(s: Store, index: nat, f: FileState, p: nat, payload: seq<byte>, j: nat)
    requires Reads(s, index, f) && p < f.records <= s.files[index].records && |payload| == 2 * WordsOf(f, p)
    requires j < f.records && j != p
    ensures Supplies(WithRecord(s, index, p, payload), f, j, Portion(s, index, f, j))
  {
    RecordRoom(s, index, f, p);
    RecordRoom(s, index, f, j);
    var bytes := Portion(s, index, f, j);
    OverwriteElsewhere(s.files[index].bytes, s.recordSize, p, payload, j, |bytes|);
    hide Reads, WordsOf, Portion, Overwrite;
  }

  lemma SuppliesPayload(s: Store, index: nat, f: FileState, p: nat, payload: seq<byte>)
    requires Reads(s, index, f) && p < f.records <= s.files[index].records && |payload| == 2 * WordsOf(f, p)
    ensures Supplies(WithRecord(s, index, p, payload), f, p, payload)
  {
    hide Reads, WordsOf, Overwrite;
    RecordRoom(s, index, f, p);
  }

  lemma ReplacedBy(s: Store, index: nat, f: FileState, p: nat, payload: seq<byte>)
    requires Reads(s, index, f) && p < f.records <= s.files[index].records && |payload| == 2 * WordsOf(f, p)
    ensures Replaced(s, index, f, WithRecord(s, index, p, payload), p, payload)
  {
    hide Reads, WordsOf, Portion, Overwrite, Supplies, WithRecord;
    SuppliesPayload(s, index, f, p, payload);
    forall j | 0 <= j < f.records && j != p
        ensures Supplies(WithRecord(s, index, p, payload), f, j, Portion(s, index, f, j)) {
      SuppliesElsewhere(s, index, f, p, payload, j);
    }
  }

  lemma RecordRoom(s: Store, index: nat, f: FileState, k: nat)
    requires Reads(s, index, f) && k < f.records <= s.files[index].records
    ensures index < |s.files| && f.recordSize == s.recordSize
    ensures 2 * WordsOf(f, k) <= s.recordSize && k * s.recordSize + s.recordSize <= |s.files[index].bytes|
  {
    PortionFits(s, index, f, k);
    SlotInside(k, s.files[index].records, s.recordSize);
    hide WordsOf;
  }

  /** Of the first k exchanges, only exchange p may leave bytes that the client has not read. */
  ghost predicate Drained(queue: seq<Exchange>, ws: seq<Crossing>, k: nat, p: nat) {
    && k <= |queue| == |ws|
    && forall j :: 0 <= j < k && j != p ==> |ws[j].carried| <= Expected(queue[j])
  }

  /** The first k exchanges of a transfer in which only exchange p is forged. */
  lemma {:induction false} ForgedTo(address: byte, s: Store, index: nat, f: FileState, c: ClientState,
                                    content: seq<byte>, p: nat, payload: seq<byte>, k: nat) returns (ws: seq<Crossing>)
    requires Replaced(s, index, f, content, p, payload) && Reader(c, f) && k <= f.records
    requires p < k ==> WordsOf(f, p) <= 2 && |payload| == 2 * WordsOf(f, p)
    ensures ReadTo(address, s, index, f, c, ws, if k <= p then k else k - 1, content, k)
    ensures index < FILE_COUNT && Drained(ReadQueue(address, index, f), ws, k, p)
    decreases k
  {
    hide Reads, Reader, ReadTo, Supplies, Portion, WordsOf, Expected, ReadQueue;
    ReadsShape(s, index, f);
    if k == 0 {
      ws := ReadToStart(address, s, index, f, c, content);
    } else {
      var vs := ForgedTo(address, s, index, f, c, content, p, payload, k - 1);
      if k - 1 == p {
        ws := ReadToForged(address, s, index, f, c, vs, k - 1, content, k - 1, payload);
      } else {
        ws := ReadToDelivered(address, s, index, f, c, vs, if k - 1 <= p then k - 1 else k - 2, content, k - 1);
      }
    }
  }

  /** A whole transfer that crossed the line without a fault, in which nothing was read outside a response, and
      which left `content` in the client's file and m reads counted by the server. */
  ghost predicate EndsWith(address: byte, s: Store, index: nat, f: FileState, c: ClientState, ws: seq<Crossing>, m: nat,
                           content: seq<byte>) {
    && ReadSession(address, s, index, f, c, ws) && WellFormed(s) && index < FILE_COUNT && |ws| == f.records
       && Buffers(ws)
    && var queue := ReadQueue(address, index, f); var d := RunQueue(c, queue, Responses(queue, ws));
       && RunDefined(c, queue, Responses(queue, ws)) && d.info.fault == NoFault
       && d.file == ReadProgress(f, content, f.records)
       && Through(address, s, ws, f.records) == Counted(s, index, m)
  }

  /** One short record can be forged: the transfer ends well, with the forged record in the client's file and the
      server one read behind. Only the forged response is longer than what the client reads of it; the rest is taken
      to be discarded. */
  lemma ForgedRun(address: byte, s: Store, index: nat, f: FileState, c: ClientState, p: nat, payload: seq<byte>)
    returns (ws: seq<Crossing>)
    requires Reads(s, index, f) && Reader(c, f) && p < f.records <= s.files[index].records
    requires WordsOf(f, p) <= 2 && |payload| == 2 * WordsOf(f, p)
    ensures EndsWith(address, s, index, f, c, ws, f.records - 1, WithRecord(s, index, p, payload))
    ensures index < FILE_COUNT && Drained(ReadQueue(address, index, f), ws, f.records, p)
  {
    hide Reads, Reader, Supplies, Portion, WordsOf, Replaced, WithRecord, ReadStateAt, FineTo, Crosses, Through,
         ReadQueue, RunQueue, RunDefined, Responses, Counted, ReadProgress, StateAfter, WellFormed;
    var content := WithRecord(s, index, p, payload);
    ReplacedBy(s, index, f, p, payload);
    ws := ForgedTo(address, s, index, f, c, content, p, payload, f.records);
    ReadToShape(address, s, index, f, c, ws, f.records - 1, content, f.records);
    FineRun(c, ReadQueue(address, index, f), ws);
  }

  lemma FineRun(c: ClientState, queue: seq<Exchange>, ws: seq<Crossing>)
    requires |queue| == |ws| && FineTo(c, queue, ws, |queue|)
    ensures RunDefined(c, queue, Responses(queue, ws))
    ensures RunQueue(c, queue, Responses(queue, ws)) == StateAfter(c, queue, Responses(queue, ws), |queue|)
    ensures RunQueue(c, queue, Responses(queue, ws)).info.fault == NoFault
  {
    hide CallbackDefined, StateAfter, RunDefined, RunQueue, Executed, Heard;
    WholeRun(c, queue, Responses(queue, ws));
    RunDefinedBySteps(c, queue, Responses(queue, ws));
  }

  /** A transfer in which one record does not stay inside: on some line the client reads outside a response. */
  lemma OverreadRun(address: byte, s: Store, index: nat, f: FileState, c: ClientState, p: nat)
    returns (ws: seq<Crossing>)
    requires Reads(s, index, f) && Reader(c, f) && p < f.records <= s.files[index].records && !StaysInside(f, p)
    ensures ReadSession(address, s, index, f, c, ws) && |ws| == f.records
    ensures !RunDefined(c, ReadQueue(address, index, f), Responses(ReadQueue(address, index, f), ws))
  {
    hide Reads, Supplies, Portion, WordsOf, ReadStateAt, Crosses, Through, ReadQueue, RunDefined, Heard, Responses,
         Counted, ReadProgress, StateAfter, WellFormed, CallbackDefined, Request, Satisfies, Served, LineTo, FineTo,
         Replaced;
    ReadsShape(s, index, f);
    FileCount(s);
    var content := s.files[index].bytes;
    ServersOwn(s, index, f, p);
    RecordRoom(s, index, f, p);
    var us := ForgedTo(address, s, index, f, c, content, p, Portion(s, index, f, p), p);
    ReadToShape(address, s, index, f, c, us, p, content, p);
    var queue, t, d := ReadQueue(address, index, f), Through(address, s, us, p),
        StateAfter(c, ReadQueue(address, index, f), Responses(ReadQueue(address, index, f), us), p);
    QueuedRead(address, s, index, f, p);
    CountedLinkSize(s, index, f, p);
    ProgressTaking(s, index, f, content, p);
    var w := ShortReadOverreads(address, t, index + 1, p, WordsOf(f, p), 2 * WordsOf(f, p) + 1,
        seq(BUFFER_SIZE, _ => 0), d);
    CrossesShape(address, t, queue[p], w);
    ReadToNext(address, s, index, f, c, us, p, content, p, w);
    var vs := us[p := w];
    ws := LineCompletes(address, s, queue, vs, p + 1);
    OverreadStays(c, queue, us, vs, ws, p);
  }

  lemma FileCount(s: Store)
    requires WellFormed(s)
    ensures |s.files| == FILE_COUNT
  {
  }

  lemma ServersOwn(s: Store, index: nat, f: FileState, p: nat)
    requires Reads(s, index, f) && p < f.records <= s.files[index].records
    ensures Replaced(s, index, f, s.files[index].bytes, p, Portion(s, index, f, p))
  {
    hide WordsOf, Portion, Supplies;
    forall j | 0 <= j < f.records ensures Supplies(s.files[index].bytes, f, j, Portion(s, index, f, j)) {
      PortionSupplies(s, index, f, j);
    }
  }

  lemma ProgressTaking(s: Store, index: nat, f: FileState, content: seq<byte>, k: nat)
    requires Reads(s, index, f) && k < f.records && |content| >= k * f.recordSize
    ensures Taking(ReadProgress(f, content, k), f, k)
  {
    hide WordsOf, WellFormed, Assembled;
    PortionFits(s, index, f, k);
  }

  lemma OverreadStays(c: ClientState, queue: seq<Exchange>, us: seq<Crossing>, vs: seq<Crossing>, ws: seq<Crossing>,
                      p: nat)
    requires p < |queue| == |us| == |vs| == |ws| && us[..p] == vs[..p] && vs[..p + 1] == ws[..p + 1]
             && FineTo(c, queue, us, p)
    requires !CallbackDefined(Begun(StateAfter(c, queue, Responses(queue, us), p), queue[p]), Heard(queue[p], vs[p]))
    ensures !RunDefined(c, queue, Responses(queue, ws))
  {
    hide CallbackDefined, StateAfter, RunDefined, Executed, Heard;
    var responses := Responses(queue, ws);
    assert ws[p] == ws[..p + 1][p] == vs[p];
    assert ws[..p] == ws[..p + 1][..p] == vs[..p] == us[..p];
    forall j | 0 <= j <= p ensures StateAfter(c, queue, responses, j) == StateAfter(c, queue, Responses(queue, us), j) {
      assert ws[..j] == ws[..p][..j] == us[..j];
      StatesAgree(c, queue, ws, us, j);
    }
    RunIsPrefix(c, queue, responses);
    RunDefinedBySteps(c, queue, responses);
    assert responses[p] == Heard(queue[p], vs[p]);
  }
}
