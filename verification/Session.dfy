/** Whole file transfers: the two prepare writes of taskWriteFile and taskReadFile, then the record exchanges. */
module Session {
  import opened Bytes
  import opened Frame
  import opened Resources
  import opened Server
  import opened Node
  import opened Client
  import opened Queue
  import opened Line
  import opened Steps
  import opened Transfer
  import opened Wire

  /** The register table of a server node as ServerLogic::init leaves it, whatever values were written since. */
  predicate TransferRegisters(registers: seq<Register>) {
    && |registers| == REGISTER_COUNT
    && !registers[RECORD_SIZE_REGISTER].attributes.write && !registers[STATUS_REGISTER].attributes.write
    && registers[CONTROL_REGISTER].attributes.write && registers[CONTROL_REGISTER].action == Control
    && registers[RECORD_COUNTER_REGISTER].attributes.write
       && registers[RECORD_COUNTER_REGISTER].action == SetRecordCounter
  }

  /** The table that init leaves: register 0 gives the record size and can only be read, registers 1 and 2 are the
      control and the record counter register and can only be written, the last one is as it was. */
  lemma InitialRegisters(registers: seq<Register>, recordSize: half)
    requires |registers| == REGISTER_COUNT
    ensures var table := WithInitialRegisters(registers, recordSize);
            && |table| == 4 && table[3] == registers[3]
            && (forall i :: 0 <= i < 3 ==>
                  && (table[i].attributes.read <==> i == 0) && (table[i].attributes.write <==> i != 0)
                  && !table[i].attributes.flash)
            && table[0].value == recordSize && table[0].action == NoAction
            && table[1].value == 0 && table[1].action == Control
            && table[2].value == 0 && table[2].action == SetRecordCounter
            && (TransferRegisters(table) <==> !registers[3].attributes.write)
  {
  }

  /** A server that waits for a register request. */
  ghost predicate Listening(s: Store) {
    WellFormed(s) && TransferRegisters(s.registers) && s.link.size == DEFAULT_SIZE
  }

  /** A server between transfers. */
  ghost predicate Idle(s: Store) {
    Listening(s) && s.counter == 0
  }

  /** The address a task uses for a register, when it counts registers from `base`. The source counts from zero. */
  function Address(base: half, register: nat): half {
    (base + register) % 0x1_0000
  }

  function CounterWrite(address: byte, base: half, records: half): Exchange {
    WriteRegister(address, Address(base, RECORD_COUNTER_REGISTER), records)
  }

  function ControlWrite(address: byte, base: half, command: half): Exchange {
    WriteRegister(address, Address(base, CONTROL_REGISTER), command)
  }

  /** The prepare writes on the line: register 2 takes the number of records, register 1 the command. */
  lemma PrepareBytes(address: byte, base: half, records: half, command: half)
    ensures var r := Request(CounterWrite(address, base, records));
            |r| == 8 && r[0] == address && r[1] == 0x06 && Word(r, 2) == (base + 2) % 0x1_0000 && Word(r, 4) == records
    ensures var r := Request(ControlWrite(address, base, command));
            |r| == 8 && r[0] == address && r[1] == 0x06 && Word(r, 2) == (base + 1) % 0x1_0000 && Word(r, 4) == command
  {
    hide Request, Word;
    RequestBytes(CounterWrite(address, base, records));
    RequestBytes(ControlWrite(address, base, command));
  }

  /** A listening server after both prepare writes. */
  function PreparedStore(s: Store, records: half, command: half): Store
    requires |s.registers| == REGISTER_COUNT
  {
    var r := s.registers;
    s.(registers := r[RECORD_COUNTER_REGISTER := r[RECORD_COUNTER_REGISTER].(value := records)]
                     [CONTROL_REGISTER := r[CONTROL_REGISTER].(value := command)],
       link := Act(Control, command, s.recordSize, s.link.(recordCounter := records)))
  }

  /** What it takes for a register write to be confirmed to the client. */
  lemma ConfirmedWrite(address: byte, s: Store, register: half, value: half, w: Crossing)
    requires WellFormed(s) && RegisterWriteInBounds(register)
    requires Crosses(address, s, WriteRegister(address, register, value), w)
             && Satisfies(WriteRegister(address, register, value), w)
    ensures s.link.size == DEFAULT_SIZE && |w.before| == BUFFER_SIZE
    ensures RegisterWrite(s, register, value).1 && Served(address, s, w).store == RegisterWrite(s, register, value).0
  {
    hide Request, Crosses, Satisfies, Served, WellFormed, RegisterWrite;
    var x := WriteRegister(address, register, value);
    RequestIsValid(x);
    SatisfiedIsGenuine(address, s, x, w);
    ServedRegisterWrite(address, s, register, value, w);
  }

  lemma ServedRegisterWrite(address: byte, s: Store, register: half, value: half, w: Crossing)
    requires WellFormed(s) && |w.before| == BUFFER_SIZE && s.link.size == DEFAULT_SIZE
             && RegisterWriteInBounds(register)
    requires w.arrived == Request(WriteRegister(address, register, value))
    ensures Served(address, s, w).store == RegisterWrite(s, register, value).0
    ensures Served(address, s, w).verdict == Verdict.NoError <==> RegisterWrite(s, register, value).1
  {
    hide Request, WellFormed, RegisterWrite, Serve;
    ServeWriteRegister(address, s, register, value, w.before);
  }

  /** Which pairs of addresses take the two prepare writes. */
  lemma PrepareRegisters(s: Store, base: half, records: half, command: half)
    requires Listening(s) && command in {READ_PREPARE, WRITE_PREPARE}
    requires RegisterWrite(s, Address(base, RECORD_COUNTER_REGISTER), records).1
    requires var t := RegisterWrite(s, Address(base, RECORD_COUNTER_REGISTER), records).0;
             WellFormed(t) && t.link.size == DEFAULT_SIZE
                 && RegisterWrite(t, Address(base, CONTROL_REGISTER), command).1
    ensures base == HOLDING_OFFSET
  {
  }

  lemma PrepareEffect(s: Store, records: half, command: half)
    requires Listening(s) && command in {READ_PREPARE, WRITE_PREPARE}
    ensures var (t, ok) := RegisterWrite(s, HOLDING_OFFSET + RECORD_COUNTER_REGISTER, records);
            && ok && WellFormed(t) && t.link.size == DEFAULT_SIZE
            && RegisterWrite(t, HOLDING_OFFSET + CONTROL_REGISTER, command)
               == (PreparedStore(s, records, command), true)
    ensures WellFormed(PreparedStore(s, records, command))
    ensures PreparedStore(s, records, command).link.size ==
            if command == READ_PREPARE then READ_REQUEST_SIZE else READ_REQUEST_SIZE + s.recordSize
  {
  }

  // ---------- The prepare phase ----------

  /** The source stays inside its register table for both addresses. */
  predicate AddressesInBounds(base: half) {
    RegisterWriteInBounds(Address(base, RECORD_COUNTER_REGISTER))
        && RegisterWriteInBounds(Address(base, CONTROL_REGISTER))
  }

  /** taskWriteRegister reports no error. */
  ghost predicate Confirmed(c: ClientState, x: Exchange, w: Crossing) {
    RunQueue(c.(info := Fresh(WriteRegisterTask, 1)), [x], [Heard(x, w)]).info.fault == NoFault
  }

  lemma ConfirmedIff(c: ClientState, x: Exchange, w: Crossing)
    ensures Confirmed(c, x, w) <==> Satisfies(x, w)
  {
    hide Heard, Expected, ChecksumValid, Step;
    var d := c.(info := Fresh(WriteRegisterTask, 1));
    assert RunQueue(d, [x], [Heard(x, w)]) == Step(d, x, Heard(x, w));
    StepCounts(d, x, Heard(x, w));
    if Satisfies(x, w) { AcceptedGoesOn(d, x, Heard(x, w)); }
  }

  ghost function AfterCounter(address: byte, s: Store, w: Crossing): (t: Store)
    requires WellFormed(s) && |w.before| == BUFFER_SIZE
    ensures WellFormed(t)
  {
    ServeKeeps(address, s, w.before, w.arrived);
    Served(address, s, w).store
  }

  ghost function Prepared(address: byte, s: Store, w1: Crossing, w2: Crossing): (t: Store)
    requires WellFormed(s) && |w1.before| == BUFFER_SIZE && |w2.before| == BUFFER_SIZE
    ensures WellFormed(t)
  {
    AfterCounter(address, AfterCounter(address, s, w1), w2)
  }

  /** The server after the prepare writes and k record exchanges; total, so that it can be talked about freely. */
  ghost function ServerAfter(address: byte, s: Store, w1: Crossing, w2: Crossing, ws: seq<Crossing>, k: nat): Store {
    if WellFormed(s) && |w1.before| == BUFFER_SIZE && |w2.before| == BUFFER_SIZE && Buffers(ws) && k <= |ws|
    then Through(address, Prepared(address, s, w1, w2), ws, k)
    else s
  }

  /** Both prepare writes cross the line. */
  ghost predicate Prepares(address: byte, s: Store, base: half, records: half, command: half, w1: Crossing,
                           w2: Crossing)
    requires WellFormed(s)
  {
    && |w1.before| == BUFFER_SIZE && |w2.before| == BUFFER_SIZE
    && Crosses(address, s, CounterWrite(address, base, records), w1)
    && Crosses(address, AfterCounter(address, s, w1), ControlWrite(address, base, command), w2)
  }

  ghost predicate PrepareConfirmed(c: ClientState, address: byte, base: half, records: half, command: half,
                                   w1: Crossing, w2: Crossing) {
    Confirmed(c, CounterWrite(address, base, records), w1) && Confirmed(c, ControlWrite(address, base, command), w2)
  }

  /** The prepare phase is confirmed only for the register base the server expects, and leaves exactly the prepared
      store. */
  lemma PrepareOutcome(address: byte, s: Store, base: half, records: half, command: half, w1: Crossing, w2: Crossing,
                       c: ClientState)
    requires Listening(s) && command in {READ_PREPARE, WRITE_PREPARE} && AddressesInBounds(base)
    requires Prepares(address, s, base, records, command, w1, w2)
    requires PrepareConfirmed(c, address, base, records, command, w1, w2)
    ensures base == HOLDING_OFFSET
    ensures Prepared(address, s, w1, w2) == PreparedStore(s, records, command)
  {
    hide Confirmed, Crosses, Served, RegisterWrite, WellFormed, TransferRegisters, PreparedStore;
    var t := AfterCounter(address, s, w1);
    ConfirmedIff(c, CounterWrite(address, base, records), w1);
    ConfirmedIff(c, ControlWrite(address, base, command), w2);
    ConfirmedWrite(address, s, Address(base, RECORD_COUNTER_REGISTER), records, w1);
    ConfirmedWrite(address, t, Address(base, CONTROL_REGISTER), command, w2);
    PrepareRegisters(s, base, records, command);
    PrepareEffect(s, records, command);
  }

  /** The tasks of the source count registers from zero: their prepare phase is never confirmed, on any line. */
  lemma BareIndexIsRefused(address: byte, s: Store, records: half, command: half, w1: Crossing, w2: Crossing,
                           c: ClientState)
    requires Listening(s) && command in {READ_PREPARE, WRITE_PREPARE}
    requires Prepares(address, s, 0, records, command, w1, w2)
    ensures !PrepareConfirmed(c, address, 0, records, command, w1, w2)
  {
    hide Listening, Prepares, PrepareConfirmed;
    if PrepareConfirmed(c, address, 0, records, command, w1, w2) {
      PrepareOutcome(address, s, 0, records, command, w1, w2, c);
    }
  }

  lemma DeliveredWrite(address: byte, s: Store, register: half, value: half, w: Crossing)
    requires WellFormed(s) && s.link.size == DEFAULT_SIZE && RegisterWriteInBounds(register)
             && RegisterWrite(s, register, value).1
    requires Delivered(address, s, WriteRegister(address, register, value), w)
    ensures Satisfies(WriteRegister(address, register, value), w)
    ensures Served(address, s, w).store == RegisterWrite(s, register, value).0
  {
    hide Request, WellFormed, RegisterWrite, Served, Heard, ChecksumValid, Expected;
    var x := WriteRegister(address, register, value);
    RequestIsValid(x);
    ServedRegisterWrite(address, s, register, value, w);
    DeliveredIsHeard(address, s, x, w);
  }

  ghost predicate PreparesPerfectly(address: byte, s: Store, base: half, records: half, command: half, w1: Crossing,
                                    w2: Crossing)
    requires WellFormed(s)
  {
    && |w1.before| == BUFFER_SIZE && |w2.before| == BUFFER_SIZE
    && Delivered(address, s, CounterWrite(address, base, records), w1)
    && Delivered(address, AfterCounter(address, s, w1), ControlWrite(address, base, command), w2)
  }

  lemma PrepareSucceeds(address: byte, s: Store, records: half, command: half, w1: Crossing, w2: Crossing,
                        c: ClientState)
    requires Listening(s) && command in {READ_PREPARE, WRITE_PREPARE}
    requires PreparesPerfectly(address, s, HOLDING_OFFSET, records, command, w1, w2)
    ensures Prepares(address, s, HOLDING_OFFSET, records, command, w1, w2)
    ensures PrepareConfirmed(c, address, HOLDING_OFFSET, records, command, w1, w2)
    ensures Prepared(address, s, w1, w2) == PreparedStore(s, records, command)
  {
    hide Confirmed, Served, RegisterWrite, WellFormed, TransferRegisters, PreparedStore, Request, Satisfies;
    var t := AfterCounter(address, s, w1);
    PrepareEffect(s, records, command);
    DeliveredWrite(address, s, HOLDING_OFFSET + RECORD_COUNTER_REGISTER, records, w1);
    DeliveredWrite(address, t, HOLDING_OFFSET + CONTROL_REGISTER, command, w2);
    ConfirmedIff(c, CounterWrite(address, HOLDING_OFFSET, records), w1);
    ConfirmedIff(c, ControlWrite(address, HOLDING_OFFSET, command), w2);
  }
}
