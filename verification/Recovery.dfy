/** What a transfer leaves behind for the next one: whether a file task can be confirmed again. */
module Recovery {
  import opened Bytes
  import Server
  import opened Resources
  import opened ClientFile
  import opened Client
  import opened Queue
  import opened Line
  import opened Transfer
  import opened Reading
  import opened Session
  import opened Tasks
  import opened RoundTrip

  /** On some line, with some register base, the prepare writes of a file task are confirmed. */
  ghost predicate CanPrepare(address: byte, t: Store, records: half, command: half, c: ClientState)
    requires WellFormed(t)
  {
    exists base: half, w1: Crossing, w2: Crossing ::
      AddressesInBounds(base) && Prepares(address, t, base, records, command, w1, w2)
      && PrepareConfirmed(c, address, base, records, command, w1, w2)
  }

  /** A server can be prepared exactly if it waits for eight bytes. Otherwise no file task is confirmed, on any
      line: the two register writes that would change the receive length are as long as it is not. */
  lemma CanPrepareExactly(address: byte, t: Store, records: half, command: half, c: ClientState)
    requires WellFormed(t) && TransferRegisters(t.registers) && command in {READ_PREPARE, WRITE_PREPARE}
    ensures CanPrepare(address, t, records, command, c) <==> t.link.size == DEFAULT_SIZE
  {
    hide WellFormed, TransferRegisters, Prepares, PrepareConfirmed, PreparesPerfectly, PreparedStore, Prepared;
    if t.link.size == DEFAULT_SIZE {
      var w1, w2 := PreparesFor(address, t, records, command, seq(Server.BUFFER_SIZE, _ => 0));
      PrepareSucceeds(address, t, records, command, w1, w2, c);
      assert AddressesInBounds(HOLDING_OFFSET);
    } else if CanPrepare(address, t, records, command, c) {
      var base, w1, w2 :| AddressesInBounds(base) && Prepares(address, t, base, records, command, w1, w2)
                          && PrepareConfirmed(c, address, base, records, command, w1, w2);
      PrepareLockstep(address, t, base, records, command, w1, w2, c);
    }
  }

  /** However a write transfer ends, m of its records have arrived, and the next file task can be confirmed exactly
      if that is all the server's file has. A transfer that stops in between leaves a node that no file task reaches
      any more. */
  lemma AfterWrite(address: byte, s: Store, index: nat, f: FileState, c: ClientState, ws: seq<Crossing>,
                   records: half, command: half, d: ClientState) returns (m: nat)
    requires Matches(s, index, f) && f.records <= s.files[index].records && c.info.fault == NoFault
    requires LineRun(address, s, WriteExchanges(address, f, s.recordSize, f.records), ws)
    requires TransferRegisters(s.registers) && command in {READ_PREPARE, WRITE_PREPARE}
    ensures var queue := WriteExchanges(address, f, s.recordSize, f.records);
            var k := Executed(c, queue, Responses(queue, ws)); var t := Through(address, s, ws, k);
            && k - 1 <= m <= k
            && t == WriteProgress(s, index, Landed(s, index, f.bytes), m)
            && (CanPrepare(address, t, records, command, d) <==> m == s.files[index].records)
  {
    hide WellFormed, TransferRegisters, RunQueue, Executed, Responses, WriteExchanges, LineRun, Through, CanPrepare,
         Landed, WriteProgress, Crosses;
    WriteRun(address, s, index, f, c, ws);
    var queue := WriteExchanges(address, f, s.recordSize, f.records);
    RunShape(address, s, queue, ws, 0);
    var k := Executed(c, queue, Responses(queue, ws));
    var t := Through(address, s, ws, k);
    m := if t == WriteProgress(s, index, Landed(s, index, f.bytes), k) then k else k - 1;
    AfterRecords(address, s, index, f, m, t, records, command, d);
  }

  lemma AfterRecords(address: byte, s: Store, index: nat, f: FileState, m: nat, t: Store, records: half, command: half,
                     d: ClientState)
    requires Matches(s, index, f) && m <= s.files[index].records
             && t == WriteProgress(s, index, Landed(s, index, f.bytes), m)
    requires WellFormed(t) && TransferRegisters(s.registers) && command in {READ_PREPARE, WRITE_PREPARE}
    ensures CanPrepare(address, t, records, command, d) <==> m == s.files[index].records
  {
    hide WellFormed, TransferRegisters, CanPrepare, Landed, WriteProgress, Matches;
    WriteProgressEnds(s, index, f);
    ProgressRegisters(s, index, Landed(s, index, f.bytes), m);
    CanPrepareExactly(address, t, records, command, d);
  }

  lemma ProgressRegisters(s: Store, index: nat, bytes: seq<byte>, m: nat)
    ensures WriteProgress(s, index, bytes, m).registers == s.registers
  {
  }

  /** The same for a read transfer of long records: m reads have been counted. */
  lemma AfterRead(address: byte, s: Store, index: nat, f: FileState, c: ClientState, ws: seq<Crossing>,
                  records: half, command: half, d: ClientState) returns (m: nat)
    requires ReadSession(address, s, index, f, c, ws) && f.records <= s.files[index].records && LongTo(f, f.records)
    requires TransferRegisters(s.registers) && command in {READ_PREPARE, WRITE_PREPARE}
    ensures |ws| == f.records && WellFormed(s) && Buffers(ws) && index < FILE_COUNT
    ensures var queue := ReadQueue(address, index, f);
            var k := Executed(c, queue, Responses(queue, ws)); var t := Through(address, s, ws, k);
            && k - 1 <= m <= k
            && t == Counted(s, index, m)
            && (CanPrepare(address, t, records, command, d) <==> m == s.files[index].records)
  {
    hide WellFormed, TransferRegisters, RunQueue, Executed, Responses, ReadQueue, ReadProgress, LineRun, Through,
         CanPrepare, Counted, Reader, LongTo, StateAfter;
    ReadRun(address, s, index, f, c, ws);
    var queue := ReadQueue(address, index, f);
    var k := Executed(c, queue, Responses(queue, ws));
    var t := Through(address, s, ws, k);
    m := if t == Counted(s, index, k) then k else k - 1;
    CountedTables(s, index, m);
    CountedSize(s, index, m);
    CanPrepareExactly(address, t, records, command, d);
  }

  lemma CountedSize(s: Store, index: nat, m: nat)
    requires ReadyForReads(s, index) && m <= s.files[index].records
    ensures Counted(s, index, m).link.size == DEFAULT_SIZE <==> m == s.files[index].records
  {
  }
}
