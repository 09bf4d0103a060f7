/** The record store as an array of records, and the transfer counter over runs of operations. */
module Records {
  import opened Bytes
  import opened Resources

  // ---------- Records ----------

  ghost predicate HasRecord(s: Store, index: nat, record: nat) {
    WellFormed(s) && index < FILE_COUNT && record < s.files[index].records
  }

  ghost function Record(s: Store, index: nat, record: nat): (r: seq<byte>)
    requires HasRecord(s, index, record)
    ensures |r| == s.recordSize
  {
    SlotInside(record, s.files[index].records, s.recordSize);
    Slice(s.files[index].bytes, s.recordSize, record)
  }

  lemma OverwriteSlot(bytes: seq<byte>, size: nat, record: nat, data: seq<byte>, other: nat)
    requires |data| <= size && record * size + size <= |bytes| && other * size + size <= |bytes|
    ensures Slice(Overwrite(bytes, record * size, data), size, other) ==
            if other == record then data + Slice(bytes, size, record)[|data|..] else Slice(bytes, size, other)
  {
    if other < record { SlotInside(other, record, size); }
    if record < other { SlotInside(record, other, size); }
  }

  /** The requests the store can serve. */
  ghost predicate Serves(s: Store, service: FileService) {
    && 1 <= service.file <= FILE_COUNT
    && HasRecord(s, service.file - 1, service.record)
    && service.record <= MAX_RECORDS
    && 2 * service.words <= s.recordSize
  }

  /** The file after `bytes` went to the head of a record. */
  ghost function WithRecordHead(f: File, size: nat, record: nat, bytes: seq<byte>): (g: File)
    requires HasRoom(f, size) && record < f.records && |bytes| <= size
    ensures HasRoom(g, size)
  {
    SlotInside(record, f.records, size);
    f.(bytes := Overwrite(f.bytes, record * size, bytes))
  }

  lemma AccessOutcome(s: Store, service: FileService)
    requires WellFormed(s)
    ensures Access(s, service) ==
            if Serves(s, service) then Slot(service.file - 1, service.record * s.recordSize, 2 * service.words)
                else NoAccess
  {
  }

  /** Which writes to a RAM file are accepted, and what they leave. */
  lemma WriteOutcome(s: Store, service: FileService, data: seq<byte>)
    requires WellFormed(s) && s.recordSize <= |data|
    requires 1 <= service.file <= FILE_COUNT && !s.files[service.file - 1].attributes.flash
    ensures var i, (t, ok) := service.file - 1, RecordWrite(s, service, data);
            && (ok <==> Serves(s, service) && s.files[i].attributes.write)
            && (!ok ==> t == s)
            && (ok ==> t == CountOperation(s.(files := s.files[i :=
                         WithRecordHead(s.files[i], s.recordSize, service.record, data[..2 * service.words])]), i))
  {
    AccessOutcome(s, service);
    hide Access, Overwrite, CountOperation;
  }

  /** Writes to a flash file: the driver decides, and where it fails the transfer is reset. */
  lemma FlashOutcome(s: Store, service: FileService, data: seq<byte>)
    requires WellFormed(s) && s.recordSize <= |data|
    requires 1 <= service.file <= FILE_COUNT && s.files[service.file - 1].attributes.flash
    ensures var i, (t, ok) := service.file - 1, RecordWrite(s, service, data);
            && (ok <==> Serves(s, service) && s.files[i].attributes.write && s.flash == Driver(true))
            && t.files == s.files && t.registers == s.registers
            && (!ok && Serves(s, service) && s.files[i].attributes.write
               ==> t.counter == 0 && t.link.size == DEFAULT_SIZE)
            && (!ok && !(Serves(s, service) && s.files[i].attributes.write) ==> t == s)
  {
    AccessOutcome(s, service);
    hide Access, Overwrite;
  }

  /** A write that is accepted replaces the head of one record of a RAM file and touches no other record. */
  lemma WriteReplacesOneRecord(s: Store, service: FileService, data: seq<byte>, index: nat, record: nat)
    requires WellFormed(s) && s.recordSize <= |data|
    requires RecordWrite(s, service, data).1 && !s.files[service.file - 1].attributes.flash
    requires HasRecord(s, index, record)
    ensures var t := RecordWrite(s, service, data).0;
            && HasRecord(t, index, record)
            && Record(t, index, record) ==
               if index == service.file - 1 && record == service.record
               then data[..2 * service.words] + Record(s, index, record)[2 * service.words..]
               else Record(s, index, record)
  {
    WriteOutcome(s, service, data);
    hide RecordWrite, Slice, Overwrite;
    SlotInside(service.record, s.files[service.file - 1].records, s.recordSize);
    SlotInside(record, s.files[index].records, s.recordSize);
    if index == service.file - 1 {
      OverwriteSlot(s.files[index].bytes, s.recordSize, service.record, data[..2 * service.words], record);
    }
  }

  /** A read answers with the head of the record. */
  lemma ReadOutcome(s: Store, service: FileService)
    requires WellFormed(s)
    ensures var i, (t, answer) := service.file - 1, RecordRead(s, service);
            if Serves(s, service) && s.files[i].attributes.read
            then t == CountOperation(s, i)
                && answer == Data(RecordAnswer(Record(s, i, service.record)[..2 * service.words]))
            else t == s && answer == Refused
  {
    AccessOutcome(s, service);
    hide Access, CountOperation, RecordAnswer;
    if Serves(s, service) {
      var start := service.record * s.recordSize;
      SlotInside(service.record, s.files[service.file - 1].records, s.recordSize);
      assert s.files[service.file - 1].bytes[start..start + s.recordSize][..2 * service.words]
          == s.files[service.file - 1].bytes[start..start + 2 * service.words];
    }
  }

  /** Reading back what was written. */
  lemma ReadAfterWrite(s: Store, service: FileService, data: seq<byte>)
    requires WellFormed(s) && s.recordSize <= |data|
    requires RecordWrite(s, service, data).1 && !s.files[service.file - 1].attributes.flash
    requires s.files[service.file - 1].attributes.read
    ensures var t := RecordWrite(s, service, data).0;
            WellFormed(t) && RecordRead(t, service).1 == Data(RecordAnswer(data[..2 * service.words]))
  {
    var t, i := RecordWrite(s, service, data).0, service.file - 1;
    WriteOutcome(s, service, data);
    WriteReplacesOneRecord(s, service, data, i, service.record);
    hide RecordWrite, RecordRead, Record, RecordAnswer;
    ReadOutcome(t, service);
    assert Record(t, i, service.record)[..2 * service.words] == data[..2 * service.words];
  }

  // ---------- The transfer counter ----------

  datatype Operation = WriteOp(service: FileService, data: seq<byte>) | ReadOp(service: FileService)

  ghost function Apply(s: Store, op: Operation): (r: (Store, bool))
    requires WellFormed(s)
  {
    match op
    case WriteOp(service, data) => if s.recordSize <= |data| then RecordWrite(s, service, data) else (s, false)
    case ReadOp(service) => var (t, answer) := RecordRead(s, service); (t, answer.Data?)
  }

  /** What any operation keeps, and that an accepted one counts. */
  ghost predicate Kept(s: Store, t: Store, service: FileService, ok: bool)
    requires WellFormed(s)
  {
    && WellFormed(t) && t.recordSize == s.recordSize && t.registers == s.registers
    && (forall i :: 0 <= i < FILE_COUNT ==> SameShape(s.files[i], t.files[i]))
    && (ok ==> Serves(s, service))
    && (ok ==> var u := CountOperation(s, service.file - 1);
               t.counter == u.counter && t.completions == u.completions && t.link == u.link)
    && (!ok ==> t.files == s.files && t.completions == s.completions && t.counter in {s.counter, 0})
  }

  ghost predicate SameShape(f: File, g: File) {
    f.records == g.records && f.attributes == g.attributes && f.notifies == g.notifies && |f.bytes| == |g.bytes|
  }

  lemma WriteKeeps(s: Store, service: FileService, data: seq<byte>)
    requires WellFormed(s) && s.recordSize <= |data|
    ensures var (t, ok) := RecordWrite(s, service, data); Kept(s, t, service, ok)
  {
    AccessOutcome(s, service);
    hide Access, Overwrite;
  }

  lemma ReadKeeps(s: Store, service: FileService)
    requires WellFormed(s)
    ensures var (t, answer) := RecordRead(s, service); Kept(s, t, service, answer.Data?)
  {
    AccessOutcome(s, service);
    hide Access, RecordAnswer;
  }

  lemma ApplyKeeps(s: Store, op: Operation)
    requires WellFormed(s)
    ensures var (t, ok) := Apply(s, op); Kept(s, t, op.service, ok)
  {
    hide RecordWrite, RecordRead;
    match op {
      case WriteOp(service, data) => if s.recordSize <= |data| { WriteKeeps(s, service, data); }
      case ReadOp(service) => ReadKeeps(s, service);
    }
  }

  ghost function Run(s: Store, ops: seq<Operation>): (t: Store)
    requires WellFormed(s)
    ensures WellFormed(t) && forall i :: 0 <= i < FILE_COUNT ==> SameShape(s.files[i], t.files[i])
  {
    if |ops| == 0 then s
    else
      var before := Run(s, ops[..|ops| - 1]);
      ApplyKeeps(before, ops[|ops| - 1]);
      Apply(before, ops[|ops| - 1]).0
  }

  /** Every operation of the run is accepted and goes to the one file. */
  ghost predicate AllServed(s: Store, ops: seq<Operation>, index: nat)
    requires WellFormed(s)
  {
    |ops| == 0 || (
      var n := |ops| - 1;
      AllServed(s, ops[..n], index) && ops[n].service.file == index + 1 && Apply(Run(s, ops[..n]), ops[n]).1)
  }

  lemma DivModNext(k: nat, n: nat)
    requires n > 0
    ensures k % n + 1 == n ==> (k + 1) % n == 0 && (k + 1) / n == k / n + 1
    ensures k % n + 1 < n ==> (k + 1) % n == k % n + 1 && (k + 1) / n == k / n
  {
    var q, r := k / n, k % n;
    assert k + 1 == q * n + (r + 1);
    if r + 1 == n {
      assert k + 1 == (q + 1) * n;
      DivModUnique(k + 1, n, q + 1, 0);
    } else {
      DivModUnique(k + 1, n, q, r + 1);
    }
  }

  lemma DivModUnique(k: nat, n: nat, q: nat, r: nat)
    requires k == q * n + r && r < n
    ensures k / n == q && k % n == r
  {
    assert k == (k / n) * n + k % n;
    assert (k / n - q) * n == r - k % n;
    BetweenMultiples(k / n - q, n);
  }

  lemma BetweenMultiples(x: int, n: int)
    requires 0 < n && -n < x * n < n
    ensures x == 0
  {
    if x >= 1 { AtLeastOnce(x, n); }
    if x <= -1 { AtLeastOnce(-x, n); }
  }

  lemma AtLeastOnce(x: int, n: int)
    requires x >= 1 && n >= 0
    ensures x * n >= n
  {
  }

  /** k operations on a file of N records: the counter is at k mod N, the callback has fired once per N. */
  ghost predicate CountedRounds(s: Store, t: Store, k: nat, index: nat)
    requires index < |s.files| && s.files[index].records > 0
  {
    var n := s.files[index].records;
    && t.counter == k % n
    && t.completions == s.completions + seq(if s.files[index].notifies then k / n else 0, _ => index)
  }

  lemma CountRound(s: Store, t: Store, k: nat, index: nat)
    requires index < |s.files| && s.files[index].records > 0 && CountedRounds(s, t, k, index)
    requires index < |t.files| && t.files[index].records == s.files[index].records
    requires t.files[index].notifies == s.files[index].notifies
    ensures CountedRounds(s, CountOperation(t, index), k + 1, index)
  {
    DivModNext(k, s.files[index].records);
  }

  /** From a counter of zero, k operations on one file of N records leave the counter at k mod N
      and have fired the file's callback once per N operations. */
  lemma {:induction false} CounterCycles(s: Store, ops: seq<Operation>, index: nat)
    requires WellFormed(s) && s.counter == 0 && index < FILE_COUNT && s.files[index].records > 0
    requires AllServed(s, ops, index)
    ensures CountedRounds(s, Run(s, ops), |ops|, index)
    decreases |ops|
  {
    hide Apply;
    if |ops| > 0 {
      var k := |ops| - 1;
      CounterCycles(s, ops[..k], index);
      ApplyKeeps(Run(s, ops[..k]), ops[k]);
      CountRound(s, Run(s, ops[..k]), k, index);
    }
  }

  /** The file of the last accepted operation, or FILE_COUNT if there is none. */
  ghost function LastServed(s: Store, ops: seq<Operation>): nat
    requires WellFormed(s)
  {
    if |ops| == 0 then FILE_COUNT
    else
      var n := |ops| - 1;
      if Apply(Run(s, ops[..n]), ops[n]).1 then ops[n].service.file - 1 else LastServed(s, ops[..n])
  }

  /** The counter is below the record count of file `last`; it is zero if there is no such file. */
  ghost predicate CounterBelow(s: Store, last: nat) {
    && s.counter < 0xFFFF
    && if last < |s.files| then s.counter < s.files[last].records else s.counter == 0
  }

  lemma KeptBelow(s: Store, t: Store, service: FileService, ok: bool, last: nat)
    requires WellFormed(s) && Kept(s, t, service, ok) && CounterBelow(s, last)
    ensures CounterBelow(t, if ok then service.file - 1 else last)
  {
  }

  /** However the files are mixed and whatever is refused, the counter stays below the record count of the
      file last served; in particular it never reaches the 16-bit limit. */
  lemma {:induction false} CounterBelowLastServed(s: Store, ops: seq<Operation>)
    requires WellFormed(s) && s.counter == 0
    ensures CounterBelow(Run(s, ops), LastServed(s, ops))
    decreases |ops|
  {
    hide Apply, Kept, HasRoom, SameShape;
    if |ops| > 0 {
      var k := |ops| - 1;
      CounterBelowLastServed(s, ops[..k]);
      ApplyKeeps(Run(s, ops[..k]), ops[k]);
      KeptBelow(Run(s, ops[..k]), Run(s, ops), ops[k].service, Apply(Run(s, ops[..k]), ops[k]).1,
          LastServed(s, ops[..k]));
    }
  }
}
