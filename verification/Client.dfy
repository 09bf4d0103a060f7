/** The client's exchange queue: core/client/inc/client.hpp and core/client/src/client.cpp. */
module Client {
  import opened Bytes
  import opened Frame
  import opened ClientFile
  import opened Chunks

  datatype Task = NoTask | ReadRegistersTask | WriteRegisterTask | ReadFileTask | WriteFileTask | PingTask

  /** The error codes a response can lead to. */
  datatype Fault = NoFault | CrcFault | TimeoutFault | ServerFault | InternalFault

  /** TaskInfo */
  datatype Info = Info(task: Task, expected: nat, fault: Fault, exchanges: nat, counter: nat, done: bool)

  function Fresh(task: Task, exchanges: nat): Info {
    Info(task, 0, NoFault, exchanges, 0, false)
  }

  /** One entry of the exchange queue: the closure with the values it captured. */
  datatype Exchange =
    | PingServer(address: byte)
    | WriteRegister(address: byte, register: half, value: half)
    | ReadRegisters(address: byte, register: half, quantity: half)
    | ReadRecord(address: byte, file: half, record: half, words: half)
    | WriteRecord(address: byte, file: half, record: half, data: seq<byte>)

  /** The bytes an exchange puts on the line. */
  function Request(x: Exchange): seq<byte> {
    match x
    case PingServer(address) => Message(Rtu, address, UNDEFINED_FUNCTION, [0, 0, 0, 0])
    case WriteRegister(address, register, value) => Message(Rtu, address, WRITE_REGISTER, RegisterBody(register, value))
    case ReadRegisters(address, register, quantity) =>
        Message(Rtu, address, READ_REGISTERS, RegisterBody(register, quantity))
    case ReadRecord(address, file, record, words) =>
        Message(Rtu, address, READ_FILE, ReadRecordBody(file, record, words))
    case WriteRecord(address, file, record, data) =>
        Message(Rtu, address, WRITE_FILE, WriteRecordBody(file, record, data))
  }

  /** getExpectedLength */
  function ExpectedLength(task: Task, extra: nat): nat {
    match task
    case NoTask => 0
    case PingTask => RequiredLength(Rtu) + 2
    case WriteRegisterTask => RequiredLength(Rtu) + 5
    case ReadRegistersTask => RequiredLength(Rtu) + 2 + extra
    case WriteFileTask => RequiredLength(Rtu) + 9 + extra
    case ReadFileTask => RequiredLength(Rtu) + 4 + extra
  }

  function Expected(x: Exchange): nat {
    match x
    case PingServer(_) => ExpectedLength(PingTask, 0)
    case WriteRegister(_, _, _) => ExpectedLength(WriteRegisterTask, 0)
    case ReadRegisters(_, _, quantity) => ExpectedLength(ReadRegistersTask, 2 * quantity)
    case ReadRecord(_, _, _, words) => ExpectedLength(ReadFileTask, 2 * words)
    case WriteRecord(_, _, _, data) => ExpectedLength(WriteFileTask, |data|) % 0x1_0000
  }

  datatype ClientState = ClientState(info: Info, available: bool, file: FileState)

  function Begun(c: ClientState, x: Exchange): ClientState {
    c.(info := c.info.(expected := Expected(x)))
  }

  /** Whether the response gets as far as its content. */
  predicate Accepted(c: ClientState, response: seq<byte>) {
    ChecksumValid(response) && |response| == c.info.expected
  }

  /** The source reads nothing outside the response. */
  predicate CallbackDefined(c: ClientState, response: seq<byte>) {
    && c.file.fileSize <= |c.file.bytes|
    && (c.info.task.ReadFileTask? && Accepted(c, response) ==> Loadable(c.file, Pdu(response)))
  }

  /** exchangeCallback. Where the source would read outside the response, the value is of no meaning. */
  function AfterResponse(c: ClientState, response: seq<byte>): ClientState {
    var info := c.info.(counter := c.info.counter + 1);
    if !ChecksumValid(response) then
      c.(info := info.(fault := if response == [] then TimeoutFault else CrcFault, done := true),
         available := c.available && response != [])
    else
      var d := c.(info := info.(done := info.done || info.counter == info.exchanges));
      if |response| != info.expected then d.(info := d.info.(fault := ServerFault))
      else if info.task.PingTask? then d.(available := true)
      else if info.task.ReadFileTask? && CallbackDefined(c, response) then
        var (f, ok) := Load(c.file, Pdu(response));
        d.(file := f, info := d.info.(fault := if ok then d.info.fault else InternalFault))
      else d
  }

  function Step(c: ClientState, x: Exchange, response: seq<byte>): ClientState {
    AfterResponse(Begun(c, x), response)
  }

  /** The inner loop of clientThread: run the queued exchanges in order until one reports an error. */
  function RunQueue(c: ClientState, queue: seq<Exchange>, responses: seq<seq<byte>>): ClientState
    requires |responses| >= |queue|
    decreases |queue|
  {
    if |queue| == 0 then c
    else
      var d := Step(c, queue[0], responses[0]);
      if d.info.fault != NoFault then d else RunQueue(d, queue[1..], responses[1..])
  }

  /** How many exchanges that loop runs. */
  function Executed(c: ClientState, queue: seq<Exchange>, responses: seq<seq<byte>>): (k: nat)
    requires |responses| >= |queue|
    ensures k <= |queue| && (|queue| > 0 ==> k > 0)
    decreases |queue|
  {
    if |queue| == 0 then 0
    else
      var d := Step(c, queue[0], responses[0]);
      if d.info.fault != NoFault then 1 else 1 + Executed(d, queue[1..], responses[1..])
  }

  predicate RunDefined(c: ClientState, queue: seq<Exchange>, responses: seq<seq<byte>>)
    requires |responses| >= |queue|
    decreases |queue|
  {
    |queue| == 0 || (
      && CallbackDefined(Begun(c, queue[0]), responses[0])
      && var d := Step(c, queue[0], responses[0]);
         d.info.fault != NoFault || RunDefined(d, queue[1..], responses[1..]))
  }

  // ---------- The record loops ----------

  /** What taskReadFile queues for the first n records. */
  function ReadExchanges(address: byte, file: half, f: FileState, n: nat): (q: seq<Exchange>)
    requires n <= f.records
    ensures |q| == n
  {
    if n == 0 then []
    else ReadExchanges(address, file, f, n - 1)
         + [ReadRecord(address, file, n - 1, (ActualRecordLength(f, n - 1) / 2) % 0x1_0000)]
  }

  /** What taskWriteFile queues for the first n records, sliced with the server's record size. */
  function WriteExchanges(address: byte, f: FileState, size: nat, n: nat): (q: seq<Exchange>)
    requires n <= f.records && n * size <= |f.bytes|
    ensures |q| == n
  {
    if n == 0 then []
    else
      NextMultiple(n - 1, size);
      WriteExchanges(address, f, size, n - 1) + [WriteRecord(address, f.id, n - 1, Slice(f.bytes, size, n - 1))]
  }

  lemma WriteExchangesNext(start: seq<Exchange>, address: byte, f: FileState, size: nat, i: nat)
    requires i < f.records && f.records * size <= |f.bytes| && i * size <= |f.bytes|
    ensures i * size + size == (i + 1) * size <= |f.bytes|
    ensures start + WriteExchanges(address, f, size, i) + [WriteRecord(address, f.id, i, Slice(f.bytes, size, i))]
            == start + WriteExchanges(address, f, size, i + 1)
  {
    NextMultiple(i, size);
    TimesMonotone(i + 1, f.records, size);
  }

  class TaskInfo {
    var task: Task
    var expected: nat
    var fault: Fault
    var exchanges: nat
    var counter: nat
    var done: bool
    var index: int
    var printable: bool

    constructor ()
      ensures State() == Fresh(NoTask, 0) && index == -1 && !printable
    {
      task, expected, fault, exchanges, counter, done := NoTask, 0, NoFault, 0, 0, false;
      index, printable := -1, false;
    }

    ghost function State(): Info
      reads this
    {
      Info(task, expected, fault, exchanges, counter, done)
    }

    method Reset(newTask: Task, newExchanges: nat, newIndex: int, newPrintable: bool)
      modifies this
      ensures State() == Fresh(newTask, newExchanges) && index == newIndex && printable == newPrintable
    {
      task := newTask;
      exchanges := newExchanges;
      index := newIndex;
      printable := newPrintable;
      counter := 0;
      done := false;
      expected := 0;
      fault := NoFault;
    }
  }

  class ModbusClient {
    const info: TaskInfo
    const file: File
    const message: ModbusMessage
    var available: bool
    var requestData: seq<byte>
    var responseData: seq<byte>
    var queue: seq<Exchange>

    constructor ()
      ensures Valid() && queue == [] && State() == ClientState(Fresh(NoTask, 0), false, file.State())
    {
      var i := new TaskInfo();
      var f := new File();
      var m := new ModbusMessage(Rtu);
      info, file, message := i, f, m;
      available, requestData, responseData, queue := false, [], [], [];
    }

    ghost function State(): ClientState
      reads this, info, file, file.data
    {
      ClientState(info.State(), available, file.State())
    }

    ghost predicate Valid()
      reads this, message, file, file.data
    {
      message.mode.Rtu? && file.Valid()
    }

    method GetExpectedLength(task: Task, extra: nat) returns (length: nat)
      requires Valid()
      ensures length == ExpectedLength(task, extra)
    {
      var required := message.GetRequiredLength();
      match task {
        case NoTask => length := 0;
        case PingTask => length := required + 2;
        case WriteRegisterTask => length := required + 5;
        case ReadRegistersTask => length := required + 2 + extra;
        case WriteFileTask => length := required + 9 + extra;
        case ReadFileTask => length := required + 4 + extra;
      }
    }

    /** Run the closure of an exchange: build the request and note the length to expect. */
    method Begin(x: Exchange)
      requires Valid()
      modifies this`requestData, info
      ensures Valid() && State() == Begun(old(State()), x) && requestData == Request(x)
    {
      hide Message, RegisterBody, ReadRecordBody, WriteRecordBody, ExpectedLength;
      match x {
        case PingServer(address) =>
          requestData := message.MsgCustom(UNDEFINED_FUNCTION, [0, 0, 0, 0], address);
          info.expected := GetExpectedLength(PingTask, 0);
        case WriteRegister(address, register, value) =>
          requestData := message.MsgWriteRegister(register, value, address);
          info.expected := GetExpectedLength(WriteRegisterTask, 0);
        case ReadRegisters(address, register, quantity) =>
          requestData := message.MsgReadRegisters(register, quantity, address);
          info.expected := GetExpectedLength(ReadRegistersTask, 2 * quantity);
        case ReadRecord(address, id, record, words) =>
          requestData := message.MsgReadFileRecord(id, record, words, address);
          info.expected := GetExpectedLength(ReadFileTask, 2 * words);
        case WriteRecord(address, id, record, data) =>
          requestData := message.MsgWriteFileRecord(id, record, data, address);
          var length := GetExpectedLength(WriteFileTask, |data|);
          info.expected := length % 0x1_0000;
      }
    }

    method ExchangeCallback()
      requires Valid() && CallbackDefined(State(), responseData)
      modifies this`available, info, file, file.data
      ensures Valid() && file.data == old(file.data)
      ensures State() == AfterResponse(old(State()), responseData)
    {
      hide ChecksumValid, Load, Loadable, Pdu;
      info.counter := info.counter + 1;
      var valid := message.IsChecksumValid(responseData);
      if valid {
        ChecksumNeedsLength(responseData);
        var ok, pdu := message.ExtractData(responseData);
        if |responseData| != info.expected || !ok {
          info.fault := ServerFault;
        } else {
          match info.task {
            case PingTask => available := true;
            case ReadFileTask =>
              var loaded := file.LoadRecordFromMessage(pdu);
              if !loaded {
                info.fault := InternalFault;
              }
            case _ =>
          }
        }
        if info.counter == info.exchanges {
          info.done := true;
        }
      } else {
        if |responseData| == 0 {
          available := false;
          info.fault := TimeoutFault;
        } else {
          info.fault := CrcFault;
        }
        info.done := true;
      }
    }

    /** Process the queue of one task. The k-th exchange that is run gets the k-th response;
        `sent` lists the requests that went out. */
    method ProcessQueue(responses: seq<seq<byte>>) returns (sent: seq<seq<byte>>)
      requires Valid() && |responses| >= |queue|
      requires RunDefined(State(), queue, responses) && info.fault == NoFault
      modifies this, info, file, file.data
      ensures Valid() && queue == []
      ensures State() == RunQueue(old(State()), old(queue), responses)
      ensures |sent| == Executed(old(State()), old(queue), responses)
      ensures forall k :: 0 <= k < |sent| ==> sent[k] == Request(old(queue)[k])
    {
      hide Step, CallbackDefined, Request, InProgress, RunQueue, RunDefined, Executed;
      sent := [];
      ghost var c, q := State(), queue;
      ProgressStarts(c, q, responses);
      while queue != []
        invariant Valid() && file.data == old(file.data)
        invariant InProgress(c, q, responses, sent, State(), queue)
        decreases |queue|
      {
        ProgressGoesOn(c, q, responses, sent, State(), queue);
        RunExchange(queue[0], responses[|sent|]);
        sent := sent + [requestData];
        if info.fault != NoFault {
          queue := [];
        } else {
          queue := queue[1..];
        }
      }
      ProgressEnds(c, q, responses, sent, State());
    }

    /** One exchange: send, receive, evaluate. */
    method RunExchange(x: Exchange, response: seq<byte>)
      requires Valid() && CallbackDefined(Begun(State(), x), response)
      modifies this`requestData, this`responseData, this`available, info, file, file.data
      ensures Valid() && file.data == old(file.data)
      ensures State() == Step(old(State()), x, response) && requestData == Request(x)
    {
      hide AfterResponse, CallbackDefined, Begun, Request;
      Begin(x);
      responseData := response;
      ExchangeCallback();
    }

    /** The record loop of taskReadFile. */
    method QueueReads(address: byte, id: half, index: int, printable: bool)
      requires Valid() && (file.recordSize > 0 || file.records == 0)
      modifies this`queue, info
      ensures Valid() && State() == old(State()).(info := Fresh(ReadFileTask, file.records))
      ensures info.index == index && info.printable == printable
      ensures queue == old(queue) + ReadExchanges(address, id, file.State(), file.records)
    {
      hide ActualRecordLength;
      info.Reset(ReadFileTask, file.records, index, printable);
      ghost var start, f := queue, file.State();
      for i := 0 to file.records
        invariant info.State() == Fresh(ReadFileTask, file.records) && info.index == index
                  && info.printable == printable
        invariant queue == start + ReadExchanges(address, id, f, i)
      {
        var length := file.GetActualRecordLength(i);
        var x := ReadRecord(address, id, i, (length / 2) % 0x1_0000);
        assert start + ReadExchanges(address, id, f, i) + [x] == start + (ReadExchanges(address, id, f, i) + [x]);
        queue := queue + [x];
      }
    }

    method CopyRecord(i: nat, size: nat) returns (record: seq<byte>)
      requires Valid() && i * size + size <= |file.State().bytes|
      ensures record == Slice(file.State().bytes, size, i)
    {
      record := if file.data != null then file.data[i * size..i * size + size] else [];
    }

    /** The record loop of taskWriteFile. */
    method QueueWrites(address: byte, size: nat, index: int, printable: bool)
      requires Valid() && file.records * size <= |file.State().bytes|
      modifies this`queue, info
      ensures Valid() && State() == old(State()).(info := Fresh(WriteFileTask, file.records))
      ensures info.index == index && info.printable == printable
      ensures queue == old(queue) + WriteExchanges(address, file.State(), size, file.records)
    {
      hide WriteExchanges, Slice;
      info.Reset(WriteFileTask, file.records, index, printable);
      ghost var start, f := queue, file.State();
      for i := 0 to file.records
        invariant info.State() == Fresh(WriteFileTask, file.records) && info.index == index
                  && info.printable == printable
        invariant i * size <= |f.bytes|
        invariant queue == start + WriteExchanges(address, f, size, i)
      {
        WriteExchangesNext(start, address, f, size, i);
        var data := CopyRecord(i, size);
        var x := WriteRecord(address, file.id, i, data);
        assert x == WriteRecord(address, f.id, i, Slice(f.bytes, size, i));
        queue := queue + [x];
      }
    }
  }

  /** Where the loop over the queue stands: what is left of the run is the run from here. */
  ghost predicate InProgress(c: ClientState, queue: seq<Exchange>, responses: seq<seq<byte>>,
                             sent: seq<seq<byte>>, d: ClientState, rest: seq<Exchange>) {
    && |sent| <= |queue| <= |responses| && (rest == queue[|sent|..] || rest == [])
    && RunDefined(d, rest, responses[|sent|..])
    && RunQueue(d, rest, responses[|sent|..]) == RunQueue(c, queue, responses)
    && |sent| + Executed(d, rest, responses[|sent|..]) == Executed(c, queue, responses)
    && forall k :: 0 <= k < |sent| ==> sent[k] == Request(queue[k])
  }

  lemma ProgressStarts(c: ClientState, queue: seq<Exchange>, responses: seq<seq<byte>>)
    requires |queue| <= |responses| && RunDefined(c, queue, responses)
    ensures InProgress(c, queue, responses, [], c, queue)
  {
    hide RunQueue, RunDefined, Executed;
    assert responses[0..] == responses && queue[0..] == queue;
  }

  lemma ProgressGoesOn(c: ClientState, queue: seq<Exchange>, responses: seq<seq<byte>>, sent: seq<seq<byte>>,
                       d: ClientState, rest: seq<Exchange>)
    requires InProgress(c, queue, responses, sent, d, rest) && rest != []
    ensures |sent| < |responses| && CallbackDefined(Begun(d, rest[0]), responses[|sent|])
    ensures var e := Step(d, rest[0], responses[|sent|]);
            InProgress(c, queue, responses, sent + [Request(rest[0])], e,
                       if e.info.fault != NoFault then [] else rest[1..])
  {
    hide Step, CallbackDefined, Begun, Request;
    assert responses[|sent|..][1..] == responses[|sent| + 1..];
    assert queue[|sent|..][1..] == queue[|sent| + 1..];
  }

  lemma ProgressEnds(c: ClientState, queue: seq<Exchange>, responses: seq<seq<byte>>, sent: seq<seq<byte>>,
                     d: ClientState)
    requires InProgress(c, queue, responses, sent, d, [])
    ensures d == RunQueue(c, queue, responses) && |sent| == Executed(c, queue, responses)
    ensures |sent| <= |queue| && forall k :: 0 <= k < |sent| ==> sent[k] == Request(queue[k])
  {
    hide Step, Request;
  }

  lemma ChecksumNeedsLength(frame: seq<byte>)
    requires ChecksumValid(frame)
    ensures |frame| >= MIN_FRAME
  {
  }
}
