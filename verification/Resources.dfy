/** The server's registers, files and receive length: core/server/inc/resources.hpp,
    core/server/src/resources.cpp and the register callbacks of core/server/src/init.cpp. */
module Resources {
  import opened Bytes

  const REGISTER_COUNT := 4
  const FILE_COUNT := 2
  const HOLDING_OFFSET := 0x9C40
  const MAX_RECORDS := 10000
  const DEFAULT_SIZE := 8
  const READ_REQUEST_SIZE := 12

  const READ_PREPARE := 1
  const WRITE_PREPARE := 2

  const RECORD_SIZE_REGISTER := 0
  const CONTROL_REGISTER := 1
  const RECORD_COUNTER_REGISTER := 2
  const STATUS_REGISTER := 3

  datatype Attributes = Attributes(read: bool, write: bool, flash: bool)

  /** The callback of a register; the two actions are ServerLogic::control and setRecordCounter. */
  datatype Action = NoAction | Control | SetRecordCounter

  datatype Register = Register(attributes: Attributes, value: half, action: Action)

  /** The fields of BufferControl, apart from the constant record size. */
  datatype Link = Link(extended: bool, recordCounter: half, size: nat)

  /** A file as the server sees it: its memory, its record count, and whether a callback is installed. */
  datatype File = File(attributes: Attributes, bytes: seq<byte>, records: half, notifies: bool)

  /** The platform routine behind flash files: not installed, or installed and returning a status. */
  datatype Flash = NoDriver | Driver(status: bool)

  /** `completions` lists, in order, the files whose callback has fired. */
  datatype Store = Store(
    recordSize: nat, registers: seq<Register>, files: seq<File>,
    counter: half, link: Link, flash: Flash, completions: seq<nat>)

  datatype FileService = FileService(file: half, record: half, words: half)

  datatype Slot = NoAccess | Slot(index: nat, start: nat, length: nat)

  datatype Answer = Refused | Data(payload: seq<byte>)

  ghost predicate HasRoom(f: File, recordSize: nat) {
    f.records * recordSize <= |f.bytes|
  }

  /** The server's standing conditions: the frame buffer of 253 bytes holds the longest request,
      and every file has memory for all of its records. */
  ghost predicate WellFormed(s: Store) {
    && 12 + s.recordSize <= 253
    && |s.registers| == REGISTER_COUNT
    && |s.files| == FILE_COUNT
    && HasRoom(s.files[0], s.recordSize) && HasRoom(s.files[1], s.recordSize)
    && DEFAULT_SIZE <= s.link.size <= 253
  }

  const NO_ATTRIBUTES := Attributes(false, false, false)
  const DEFAULT_REGISTER := Register(NO_ATTRIBUTES, 0, NoAction)

  /** The register table ServerLogic::init leaves behind. */
  function WithInitialRegisters(registers: seq<Register>, recordSize: half): seq<Register>
    requires |registers| == REGISTER_COUNT
  {
    [Register(Attributes(true, false, false), recordSize, NoAction),
     Register(Attributes(false, true, false), 0, Control),
     Register(Attributes(false, true, false), 0, SetRecordCounter),
     registers[3]]
  }

  // ---------- BufferControl ----------

  function WithBufferSize(link: Link, size: nat): Link {
    if size < DEFAULT_SIZE then link
    else link.(extended := link.extended || size > DEFAULT_SIZE, size := size)
  }

  /** The effect of a register's callback on the receive length. */
  function Act(action: Action, value: half, recordSize: nat, link: Link): Link {
    match action
    case NoAction => link
    case SetRecordCounter => link.(recordCounter := value)
    case Control =>
      if value == READ_PREPARE then WithBufferSize(link, READ_REQUEST_SIZE)
      else if value == WRITE_PREPARE then WithBufferSize(link, READ_REQUEST_SIZE + recordSize)
      else link
  }

  // ---------- Records ----------

  function Access(s: Store, service: FileService): (slot: Slot)
    requires WellFormed(s)
    ensures slot.Slot? ==>
              && slot.index < FILE_COUNT && service.record < s.files[slot.index].records
              && slot.length <= s.recordSize
              && slot.start + slot.length <= |s.files[slot.index].bytes|
  {
    if service.words > s.recordSize / 2 || service.file == 0 || service.file > FILE_COUNT
       || service.record > MAX_RECORDS then NoAccess
    else
      var index := service.file - 1;
      if service.record > s.files[index].records as int - 1 then NoAccess
      else
        SlotInside(service.record, s.files[index].records, s.recordSize);
        Slot(index, service.record * s.recordSize, service.words * 2)
  }

  lemma SlotInside(record: nat, records: nat, size: nat)
    requires record < records
    ensures record * size + size <= records * size
  {
    assert (record + 1) * size <= records * size;
  }

  function AfterReset(s: Store): Store {
    s.(counter := 0, link := WithBufferSize(s.link, DEFAULT_SIZE))
  }

  /** fileOperationProcess: count the operation; the last one of the file resets the transfer and notifies. */
  function CountOperation(s: Store, index: nat): Store
    requires index < |s.files|
  {
    var counter := (s.counter + 1) % 0x1_0000;
    if counter >= s.files[index].records then
      AfterReset(s).(completions := if s.files[index].notifies then s.completions + [index] else s.completions)
    else
      s.(counter := counter)
  }

  /** `data` is what lies in the frame buffer from the payload on; the record takes as much as it needs. */
  function RecordWrite(s: Store, service: FileService, data: seq<byte>): (r: (Store, bool))
    requires WellFormed(s) && s.recordSize <= |data|
  {
    var slot := Access(s, service);
    if slot.NoAccess? then (s, false)
    else
      var f := s.files[slot.index];
      if !f.attributes.write then (s, false)
      else if f.attributes.flash then
        if s.flash == Driver(true) then (CountOperation(s, slot.index), true)
        else (AfterReset(s), false)
      else
        var bytes := Overwrite(f.bytes, slot.start, data[..slot.length]);
        (CountOperation(s.(files := s.files[slot.index := f.(bytes := bytes)]), slot.index), true)
  }

  /** Two length fields, the reference type, the bytes. */
  function RecordAnswer(bytes: seq<byte>): seq<byte> {
    [ToByte(|bytes| + 1), ToByte(|bytes|), 6] + bytes
  }

  function RecordRead(s: Store, service: FileService): (r: (Store, Answer))
    requires WellFormed(s)
  {
    var slot := Access(s, service);
    if slot.NoAccess? || !s.files[slot.index].attributes.read then (s, Refused)
    else
      var bytes := s.files[slot.index].bytes[slot.start..slot.start + slot.length];
      (CountOperation(s, slot.index), Data(RecordAnswer(bytes)))
  }

  // ---------- Registers ----------

  /** The write guard lets offset 4 through although there are four registers. */
  predicate RegisterWriteInBounds(address: half) {
    address != HOLDING_OFFSET + REGISTER_COUNT
  }

  function RegisterWrite(s: Store, address: half, value: half): (r: (Store, bool))
    requires WellFormed(s)
  {
    if address < HOLDING_OFFSET || address - HOLDING_OFFSET >= REGISTER_COUNT then (s, false)
    else
      var offset := address - HOLDING_OFFSET;
      var r := s.registers[offset];
      if !r.attributes.write then (s, false)
      else (s.(registers := s.registers[offset := r.(value := value)],
               link := Act(r.action, value, s.recordSize, s.link)), true)
  }

  /** The read guard wraps for more than four registers, and the loop then runs past the table
      unless a register it may not read stops it. */
  ghost predicate RegisterReadInBounds(registers: seq<Register>, address: half, quantity: half) {
    address < HOLDING_OFFSET || quantity <= REGISTER_COUNT
    || exists i :: address - HOLDING_OFFSET <= i < |registers| && !registers[i].attributes.read
  }

  function Values(registers: seq<Register>): (r: seq<byte>)
    ensures |r| == 2 * |registers|
  {
    if |registers| == 0 then []
    else Values(registers[..|registers| - 1]) + BeBytes(registers[|registers| - 1].value)
  }

  /** The byte count and the values. */
  function RegisterAnswer(registers: seq<Register>): seq<byte> {
    [ToByte(2 * |registers|)] + Values(registers)
  }

  /** The frame buffer after the byte count and the first i values. */
  ghost function AnswerSoFar(before: seq<byte>, at: nat, registers: seq<Register>, offset: nat, quantity: half,
                             i: nat): (r: seq<byte>)
    requires offset + i <= |registers| && at + 1 + 2 * i <= |before|
    ensures |r| == |before| && r[..at] == before[..at]
  {
    Overwrite(before, at, [ToByte(2 * quantity)] + Values(registers[offset..offset + i]))
  }

  lemma AnswerBegins(before: seq<byte>, at: nat, registers: seq<Register>, offset: nat, quantity: half)
    requires offset <= |registers| && at + 1 <= |before|
    ensures AnswerSoFar(before, at, registers, offset, quantity, 0) == Overwrite(before, at, [ToByte(2 * quantity)])
  {
  }

  lemma AnswerGrows(before: seq<byte>, at: nat, registers: seq<Register>, offset: nat, quantity: half, i: nat)
    requires offset + i < |registers| && at + 3 + 2 * i <= |before|
    ensures Overwrite(AnswerSoFar(before, at, registers, offset, quantity, i), at + 1 + 2 * i,
            BeBytes(registers[offset + i].value))
            == AnswerSoFar(before, at, registers, offset, quantity, i + 1)
  {
    hide Overwrite, ToByte, BeBytes;
    var head, rest, word := [ToByte(2 * quantity)], registers[offset..offset + i], BeBytes(registers[offset + i].value);
    OverwriteTwice(before, at, head + Values(rest), word);
    assert registers[offset..offset + i + 1][..i] == rest;
    assert head + Values(rest) + word == head + Values(registers[offset..offset + i + 1]);
  }

  lemma AnswerEnds(before: seq<byte>, at: nat, registers: seq<Register>, offset: nat, quantity: half)
    requires offset + quantity <= |registers| && at + 1 + 2 * quantity <= |before|
    ensures var after := AnswerSoFar(before, at, registers, offset, quantity, quantity);
            && after == Overwrite(before, at, RegisterAnswer(registers[offset..offset + quantity]))
            && after[at] == ToByte(2 * quantity)
  {
  }

  function RegisterRead(s: Store, address: half, quantity: half): Answer
    requires WellFormed(s)
  {
    var offset := address - HOLDING_OFFSET;
    if offset < 0 || offset + quantity > REGISTER_COUNT
       || exists i | offset <= i < offset + quantity :: !s.registers[i].attributes.read then Refused
    else Data(RegisterAnswer(s.registers[offset..offset + quantity]))
  }

  // ---------- The objects of the server ----------

  /** How an answer shows in the frame buffer: it lies at `at`, and a refusal leaves the bytes before `at`. */
  ghost predicate Written(answer: Answer, ok: bool, size: nat, before: seq<byte>, at: nat, after: seq<byte>) {
    && ok == answer.Data?
    && |after| == |before|
    && at <= |before|
    && after[..at] == before[..at]
    && (ok ==> at + size <= |before| && size == |answer.payload| && after == Overwrite(before, at, answer.payload))
  }

  class BufferControl {
    const recordSize: nat
    var extended: bool
    var recordCounter: half
    var size: nat

    constructor (recordSize: nat)
      ensures this.recordSize == recordSize && State() == Link(false, 0, DEFAULT_SIZE)
    {
      this.recordSize := recordSize;
      extended, recordCounter, size := false, 0, DEFAULT_SIZE;
    }

    ghost function State(): Link
      reads this
    {
      Link(extended, recordCounter, size)
    }

    method SetBufferSize(newSize: nat)
      modifies this
      ensures State() == WithBufferSize(old(State()), newSize)
    {
      if newSize < DEFAULT_SIZE {
        return;
      } else if newSize > DEFAULT_SIZE {
        extended := true;
      }
      size := newSize;
    }

    method SetRecordCounter(counter: half)
      modifies this
      ensures State() == old(State()).(recordCounter := counter)
    {
      recordCounter := counter;
    }
  }

  /** A file as the integrator registers it: the memory is shared, not copied. */
  datatype FileInfo = FileInfo(attributes: Attributes, data: array<byte>, records: half, notifies: bool)

  class ServerResources {
    const recordSize: nat
    const control: BufferControl
    var flash: Flash
    var counter: half
    var registers: seq<Register>
    var files: seq<FileInfo>
    var completions: seq<nat>

    /** The counter starts with whatever the memory held: it has no initialiser. Any record size is taken; the node
        can serve it if the frame buffer holds its longest request. */
    constructor (recordSize: nat, control: BufferControl, uninitialised: half)
      requires recordSize < 0x100
      ensures 12 + recordSize <= 253 && control.recordSize == recordSize && DEFAULT_SIZE <= control.size <= 253
              ==> Valid()
      ensures this.recordSize == recordSize && this.control == control
      ensures |files| == FILE_COUNT && fresh(Memories())
      ensures registers == seq(REGISTER_COUNT, _ => DEFAULT_REGISTER)
      ensures flash.NoDriver? && counter == uninitialised && completions == []
      ensures forall f | f in files :: f.attributes == NO_ATTRIBUTES && f.records == 0 && !f.notifies
    {
      this.recordSize, this.control := recordSize, control;
      flash, counter, completions := NoDriver, uninitialised, [];
      registers := seq(REGISTER_COUNT, _ => DEFAULT_REGISTER);
      var a, b := new byte[0], new byte[0];
      files := [FileInfo(NO_ATTRIBUTES, a, 0, false), FileInfo(NO_ATTRIBUTES, b, 0, false)];
    }

    /** Any file is taken; the resources stay valid if it has memory of its own for all of its records. */
    method SetFile(file: FileInfo, index: half) returns (ok: bool)
      requires |files| == FILE_COUNT
      modifies this`files
      ensures ok == (index < FILE_COUNT)
      ensures files == if ok then old(files)[index := file] else old(files)
      ensures (&& old(Valid())
               && file.records * recordSize <= file.data.Length
               && forall i | 0 <= i < FILE_COUNT && i != index :: old(files)[i].data != file.data)
              ==> Valid()
    {
      if index >= |files| {
        return false;
      }
      files := files[index := file];
      return true;
    }

    method SetRegister(register: Register, index: half) returns (ok: bool)
      requires Valid()
      modifies this`registers
      ensures Valid() && ok == (index < REGISTER_COUNT)
      ensures registers == if ok then old(registers)[index := register] else old(registers)
    {
      if index >= |registers| {
        return false;
      }
      registers := registers[index := register];
      return true;
    }

    /** ServerLogic::init */
    method Init()
      requires Valid()
      modifies this`registers
      ensures Valid() && registers == WithInitialRegisters(old(registers), recordSize)
    {
      var _ := SetRegister(Register(Attributes(true, false, false), recordSize, NoAction), RECORD_SIZE_REGISTER);
      var _ := SetRegister(Register(Attributes(false, true, false), 0, Control), CONTROL_REGISTER);
      var _ := SetRegister(Register(Attributes(false, true, false), 0, SetRecordCounter), RECORD_COUNTER_REGISTER);
    }

    ghost function Memories(): set<object>
      reads this
    {
      if |files| == FILE_COUNT then {files[0].data, files[1].data} else {}
    }

    ghost function FileState(f: FileInfo): File
      reads f.data
    {
      File(f.attributes, f.data[..], f.records, f.notifies)
    }

    ghost function State(): Store
      requires |files| == FILE_COUNT
      reads this, control, Memories()
    {
      Store(recordSize, registers, [FileState(files[0]), FileState(files[1])],
            counter, control.State(), flash, completions)
    }

    ghost predicate Valid()
      reads this, control, Memories()
    {
      && |files| == FILE_COUNT
      && WellFormed(State())
      && control.recordSize == recordSize
      && files[0].data != files[1].data
    }

    /** getAccessToRecord */
    method GetAccessToRecord(service: FileService) returns (slot: Slot)
      requires Valid()
      ensures slot == Access(State(), service)
    {
      if service.words > recordSize / 2 || service.file == 0 || service.file > |files| || service.record > MAX_RECORDS {
        return NoAccess;
      }
      var index := service.file - 1;
      if service.record > files[index].records as int - 1 {
        return NoAccess;
      }
      return Slot(index, service.record * recordSize, service.words * 2);
    }

    method ResetFileOperation()
      requires Valid()
      modifies this`counter, control
      ensures Valid() && State() == AfterReset(old(State()))
    {
      counter := 0;
      control.SetBufferSize(DEFAULT_SIZE);
    }

    method FileOperationProcess(index: nat) returns (ok: bool)
      requires Valid()
      modifies this`counter, this`completions, control
      ensures Valid() && ok == (index < FILE_COUNT)
      ensures State() == if ok then CountOperation(old(State()), index) else AfterReset(old(State()))
    {
      if index > |files| - 1 {
        ResetFileOperation();
        return false;
      }
      counter := (counter + 1) % 0x1_0000;
      if counter >= files[index].records {
        ResetFileOperation();
        if files[index].notifies {
          completions := completions + [index];
        }
      }
      return true;
    }

    method WriteRegister(address: half, value: half) returns (ok: bool)
      requires Valid() && RegisterWriteInBounds(address)
      modifies this`registers, control
      ensures Valid() && (State(), ok) == RegisterWrite(old(State()), address, value)
    {
      if address < HOLDING_OFFSET {
        return false;
      }
      var offset := address - HOLDING_OFFSET;
      if offset > |registers| {
        return false;
      }
      if !registers[offset].attributes.write {
        return false;
      }
      registers := registers[offset := registers[offset].(value := value)];
      match registers[offset].action {
        case NoAction =>
        case Control => ControlCallback(registers[offset]);
        case SetRecordCounter => control.SetRecordCounter(registers[offset].value);
      }
      return true;
    }

    /** ServerLogic::control */
    method ControlCallback(info: Register)
      modifies control
      ensures control.State() == Act(Control, info.value, control.recordSize, old(control.State()))
    {
      if info.value == READ_PREPARE {
        control.SetBufferSize(READ_REQUEST_SIZE);
      } else if info.value == WRITE_PREPARE {
        control.SetBufferSize(READ_REQUEST_SIZE + control.recordSize);
      }
    }

    /** The answer goes into the frame buffer from `at` on. */
    method ReadRegister(address: half, quantity: half, data: array<byte>, at: nat) returns (ok: bool, size: nat)
      requires Valid() && data !in Memories() && at + 9 <= data.Length
      requires RegisterReadInBounds(registers, address, quantity)
      modifies data
      ensures Valid() && State() == old(State())
      ensures Written(RegisterRead(State(), address, quantity), ok, size, old(data[..]), at, data[..])
    {
      hide ToByte, Value, BeBytes, Overwrite, Values;
      size := 0;
      if address < HOLDING_OFFSET {
        return false, size;
      }
      var offset := address - HOLDING_OFFSET;
      if quantity <= |registers| && offset > |registers| - quantity {
        return false, size;
      }
      ok := FillRegisters(offset, quantity, data, at);
      if ok {
        ValueOfToByte(2 * quantity);
        size := Value(data[at]) + 1;
      }
    }

    /** Byte count and loop over the registers */
    method FillRegisters(offset: nat, quantity: half, data: array<byte>, at: nat) returns (ok: bool)
      requires |registers| == REGISTER_COUNT && at + 9 <= data.Length
      requires || offset + quantity <= |registers|
               || exists i :: offset <= i < |registers| && !registers[i].attributes.read
      modifies data
      ensures ok <==> && offset + quantity <= |registers|
                      && forall i :: offset <= i < offset + quantity ==> registers[i].attributes.read
      ensures ok ==> data[..] == Overwrite(old(data[..]), at, RegisterAnswer(registers[offset..offset + quantity]))
      ensures ok ==> data[at] == ToByte(2 * quantity)
      ensures data[..at] == old(data[..at])
    {
      hide ToByte, Value, BeBytes, Overwrite, AnswerSoFar;
      ghost var before := data[..];
      assert offset <= |registers|;
      Put(data, at, [ToByte(2 * quantity)]);
      AnswerBegins(before, at, registers, offset, quantity);
      var counter := 1;
      for i := 0 to quantity
        invariant offset + i <= |registers| && counter == 1 + 2 * i
        invariant forall k :: offset <= k < offset + i ==> registers[k].attributes.read
        invariant data[..] == AnswerSoFar(before, at, registers, offset, quantity, i)
      {
        if !registers[offset + i].attributes.read {
          return false;
        }
        Put(data, at + counter, BeBytes(registers[offset + i].value));
        AnswerGrows(before, at, registers, offset, quantity, i);
        counter := counter + 2;
      }
      AnswerEnds(before, at, registers, offset, quantity);
      ok := true;
    }

    /** The payload starts at `at` in the frame buffer. */
    method WriteFile(service: FileService, data: array<byte>, at: nat) returns (ok: bool)
      requires Valid() && data !in Memories() && at + recordSize <= data.Length
      modifies this`counter, this`completions, control, Memories()
      ensures Valid() && data[..] == old(data[..])
      ensures (State(), ok) == RecordWrite(old(State()), service, data[at..])
    {
      var slot := GetAccessToRecord(service);
      if slot.NoAccess? || !files[slot.index].attributes.write {
        return false;
      }
      if files[slot.index].attributes.flash {
        if flash != Driver(true) {
          ResetFileOperation();
          return false;
        }
      } else {
        CopyIn(slot, data, at);
      }
      ok := FileOperationProcess(slot.index);
    }

    /** memcpy into the record */
    method CopyIn(slot: Slot, data: array<byte>, at: nat)
      requires Valid() && data !in Memories() && at + recordSize <= data.Length
      requires slot.Slot? && slot.index < FILE_COUNT && slot.length <= recordSize
      requires slot.start + slot.length <= files[slot.index].data.Length
      modifies files[slot.index].data
      ensures Valid()
      ensures State() == var s := old(State()); var f := s.files[slot.index];
                         s.(files := s.files[slot.index := f.(bytes := Overwrite(f.bytes, slot.start,
                             data[at..][..slot.length]))])
    {
      Memcpy(files[slot.index].data, slot.start, data, at, slot.length);
      assert data[at..][..slot.length] == data[at..at + slot.length];
    }

    /** The answer goes into the frame buffer from `at` on. */
    method ReadFile(service: FileService, data: array<byte>, at: nat) returns (ok: bool, size: nat)
      requires Valid() && data !in Memories() && at + 3 + recordSize <= data.Length
      modifies data, this`counter, this`completions, control
      ensures Valid() && State() == RecordRead(old(State()), service).0
      ensures Written(RecordRead(old(State()), service).1, ok, size, old(data[..]), at, data[..])
    {
      hide ToByte, CountOperation;
      size := 0;
      var slot := GetAccessToRecord(service);
      if slot.NoAccess? || !files[slot.index].attributes.read {
        return false, size;
      }
      CopyOut(slot, data, at);
      size := slot.length + 3;
      ok := FileOperationProcess(slot.index);
    }

    /** Length fields, reference type and memcpy out of the record */
    method CopyOut(slot: Slot, data: array<byte>, at: nat)
      requires Valid() && data !in Memories() && at + 3 + recordSize <= data.Length
      requires slot.Slot? && slot.index < FILE_COUNT && slot.length <= recordSize
      requires slot.start + slot.length <= files[slot.index].data.Length
      modifies data
      ensures State() == old(State())
      ensures data[..] == Overwrite(old(data[..]), at,
                                    RecordAnswer(State().files[slot.index].bytes[slot.start..slot.start + slot.length]))
    {
      hide ToByte, Overwrite;
      ghost var before := data[..];
      var header := [ToByte(slot.length + 1), ToByte(slot.length), 6];
      Put(data, at, header);
      Memcpy(data, at + 3, files[slot.index].data, slot.start, slot.length);
      OverwriteTwice(before, at, header, files[slot.index].data[slot.start..slot.start + slot.length]);
    }
  }
}
