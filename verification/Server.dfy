/** One request: core/server/src/server.cpp, and its place in core/server/inc/node.hpp. */
module Server {
  import opened Bytes
  import opened Crc
  import opened Frame
  import opened Resources

  const BUFFER_SIZE := 253

  datatype Verdict = NoError | AddressNotRecognized | BadCrc | FunctionException

  /** What one request leaves: the resources, the bytes to send, the verdict. */
  datatype Outcome = Outcome(store: Store, reply: seq<byte>, verdict: Verdict)

  function ExceptionReply(address: byte, func: byte, code: byte): seq<byte> {
    Sealed([address, func | 0x80, code])
  }

  function ServiceAt(buffer: seq<byte>): FileService
    requires |buffer| == BUFFER_SIZE
  {
    FileService(Be(buffer[4], buffer[5]), Be(buffer[6], buffer[7]), Be(buffer[8], buffer[9]))
  }

  predicate ReferenceOk(buffer: seq<byte>)
    requires |buffer| == BUFFER_SIZE
  {
    buffer[3] == FILE_REFERENCE && 7 <= Value(buffer[2]) <= 245
  }

  /** What a function code makes of the frame buffer: an echo, data to seal, or an exception code. */
  datatype Response = Echo | Reply(payload: seq<byte>) | Exception(code: byte)

  function Perform(s: Store, buffer: seq<byte>): (r: (Store, Response))
    requires WellFormed(s) && |buffer| == BUFFER_SIZE
  {
    match buffer[1]
    case 0x06 =>
      var (t, ok) := RegisterWrite(s, Be(buffer[2], buffer[3]), Be(buffer[4], buffer[5]));
      (t, if ok then Echo else Exception(4))
    case 0x03 =>
      var answer := RegisterRead(s, Be(buffer[2], buffer[3]), Be(buffer[4], buffer[5]));
      (s, if answer.Data? then Reply(answer.payload) else Exception(2))
    case 0x15 =>
      if !ReferenceOk(buffer) then (s, Exception(3)) else
      var (t, ok) := RecordWrite(s, ServiceAt(buffer), buffer[10..]);
      (t, if ok then Echo else Exception(2))
    case 0x14 =>
      if !ReferenceOk(buffer) then (s, Exception(3)) else
      var (t, answer) := RecordRead(s, ServiceAt(buffer));
      (t, if answer.Data? then Reply(answer.payload) else Exception(2))
    case _ => (s, Exception(1))
  }

  /** An intact request for this node. */
  function Answered(address: byte, s: Store, buffer: seq<byte>, length: nat): Outcome
    requires WellFormed(s) && |buffer| == BUFFER_SIZE && DEFAULT_SIZE <= length <= BUFFER_SIZE
  {
    var (t, response) := Perform(s, buffer);
    match response
    case Echo => Outcome(t, buffer[..length], NoError)
    case Reply(payload) => Outcome(t, Sealed([address, buffer[1]] + payload), NoError)
    case Exception(code) => Outcome(t, ExceptionReply(address, buffer[1], code), FunctionException)
  }

  /** serverTask on a buffer whose first `length` bytes were just received. */
  function TaskOutcome(address: byte, s: Store, buffer: seq<byte>, length: nat): Outcome
    requires WellFormed(s) && |buffer| == BUFFER_SIZE && DEFAULT_SIZE <= length <= BUFFER_SIZE
  {
    if buffer[0] != address then Outcome(s, buffer[..length], AddressNotRecognized)
    else if Le(buffer[length - 2], buffer[length - 1]) != Checksum(buffer[..length - 2]) then
      Outcome(s, ExceptionReply(address, buffer[1], 3), BadCrc)
    else Answered(address, s, buffer, length)
  }

  /** The register accesses of a request stay inside the table; requests of other kinds have none. */
  ghost predicate AccessInBounds(registers: seq<Register>, buffer: seq<byte>)
    requires |buffer| == BUFFER_SIZE
  {
    && (buffer[1] == WRITE_REGISTER ==> RegisterWriteInBounds(Be(buffer[2], buffer[3])))
    && (buffer[1] == READ_REGISTERS ==>
          RegisterReadInBounds(registers, Be(buffer[2], buffer[3]), Be(buffer[4], buffer[5])))
  }

  /** The frames for which the source stays inside its table: only an intact request for this node gets that far. */
  ghost predicate InBounds(address: byte, s: Store, buffer: seq<byte>, length: nat)
    requires |buffer| == BUFFER_SIZE && DEFAULT_SIZE <= length <= BUFFER_SIZE
  {
    buffer[0] == address && Le(buffer[length - 2], buffer[length - 1]) == Checksum(buffer[..length - 2]) ==>
      AccessInBounds(s.registers, buffer)
  }

  /** How a response shows in the frame buffer before it is sealed. */
  ghost predicate Prepared(response: Response, exception: byte, generated: nat, before: seq<byte>, after: seq<byte>) {
    && |before| == |after| == BUFFER_SIZE
    && after[..2] == before[..2]
    && match response
       case Echo => exception == 0 && generated == 0 && after == before
       case Reply(payload) =>
         exception == 0 && generated == |payload| > 0 && 4 + generated <= BUFFER_SIZE
             && after == Overwrite(before, 2, payload)
       case Exception(code) => exception == code != 0
  }

  class ModbusServer {
    const address: byte
    const resources: ServerResources
    var txLength: nat

    constructor (address: byte, resources: ServerResources)
      ensures this.address == address && this.resources == resources && txLength == 0
    {
      this.address, this.resources, txLength := address, resources, 0;
    }

    ghost predicate Valid(data: array<byte>)
      reads resources, resources.control, resources.Memories()
    {
      resources.Valid() && data !in resources.Memories() && data.Length == BUFFER_SIZE
    }

    method ServerTask(data: array<byte>, length: nat) returns (verdict: Verdict)
      requires Valid(data) && DEFAULT_SIZE <= length <= BUFFER_SIZE
      requires InBounds(address, resources.State(), data[..], length)
      modifies this`txLength, data, resources, resources.control, resources.Memories()
      ensures Valid(data) && txLength <= BUFFER_SIZE
      ensures resources.files == old(resources.files)
      ensures Outcome(resources.State(), data[..txLength], verdict)
              == TaskOutcome(address, old(resources.State()), old(data[..]), length)
    {
      hide Answered, Checksum, Le, ExceptionReply, WellFormed, Be;
      txLength := length;
      if data[0] != address {
        return AddressNotRecognized;
      }
      var actual := Crc16(data[..], length - CRC_SIZE);
      var received := Le(data[length - CRC_SIZE], data[length - 1]);
      if received != actual {
        GenerateException(data, 3);
        return BadCrc;
      }
      verdict := AnswerRequest(data, length);
    }

    /** Perform an intact request and prepare the reply. */
    method AnswerRequest(data: array<byte>, length: nat) returns (verdict: Verdict)
      requires Valid(data) && DEFAULT_SIZE <= length <= BUFFER_SIZE && txLength == length && data[0] == address
      requires AccessInBounds(resources.registers, data[..])
      modifies this`txLength, data, resources, resources.control, resources.Memories()
      ensures Valid(data) && txLength <= BUFFER_SIZE
      ensures resources.files == old(resources.files)
      ensures Outcome(resources.State(), data[..txLength], verdict)
              == Answered(address, old(resources.State()), old(data[..]), length)
    {
      hide Perform, ExceptionReply, WellFormed, Overwrite, Sealed, Be;
      ghost var func, response := data[1], Perform(resources.State(), data[..]).1;
      var exception, generated := PerformRequest(data);
      if exception != 0 {
        GenerateException(data, exception);
        return FunctionException;
      }
      if generated != 0 {
        assert data[..2 + generated] == data[..2] + data[2..2 + generated] == [address, func] + response.payload;
        InsertCrc(data, 2 + generated);
        txLength := 2 + generated + CRC_SIZE;
      }
      return NoError;
    }

    /** The switch over the function code; no exception is code 0. */
    method PerformRequest(data: array<byte>) returns (exception: byte, generated: nat)
      requires Valid(data)
      requires AccessInBounds(resources.registers, data[..])
      modifies data, resources, resources.control, resources.Memories()
      ensures Valid(data) && resources.files == old(resources.files)
      ensures resources.State() == Perform(old(resources.State()), old(data[..])).0
      ensures Prepared(Perform(old(resources.State()), old(data[..])).1, exception, generated, old(data[..]), data[..])
    {
      hide RecordRead, RecordWrite, RegisterRead, RegisterWrite, Be, Value, Overwrite;
      exception, generated := 0, 0;
      match data[1] {
        case 0x06 => exception := WriteRegister(data);
        case 0x03 => exception, generated := ReadRegister(data);
        case 0x15 => exception := WriteFile(data);
        case 0x14 => exception, generated := ReadFile(data);
        case _ => exception := 1;
      }
    }

    method WriteRegister(data: array<byte>) returns (exception: byte)
      requires Valid(data) && RegisterWriteInBounds(Be(data[2], data[3]))
      modifies resources`registers, resources.control
      ensures Valid(data) && resources.files == old(resources.files)
      ensures var (t, ok) := RegisterWrite(old(resources.State()), Be(data[2], data[3]), Be(data[4], data[5]));
              resources.State() == t && exception == if ok then 0 else 4
    {
      hide RegisterWrite, Be;
      var address, value := Be(data[2], data[3]), Be(data[4], data[5]);
      var ok := resources.WriteRegister(address, value);
      exception := if ok then 0 else 4;
    }

    method ReadRegister(data: array<byte>) returns (exception: byte, generated: nat)
      requires Valid(data) && RegisterReadInBounds(resources.registers, Be(data[2], data[3]), Be(data[4], data[5]))
      modifies data
      ensures Valid(data) && resources.State() == old(resources.State())
      ensures var answer := RegisterRead(old(resources.State()), old(Be(data[2], data[3])), old(Be(data[4], data[5])));
              Prepared(if answer.Data? then Reply(answer.payload) else Exception(2), exception, generated,
                  old(data[..]), data[..])
    {
      hide Be, Overwrite;
      var address, quantity := Be(data[2], data[3]), Be(data[4], data[5]);
      var ok, size := resources.ReadRegister(address, quantity, data, 2);
      if ok {
        return 0, size;
      }
      return 2, 0;
    }

    method WriteFile(data: array<byte>) returns (exception: byte)
      requires Valid(data)
      modifies resources`counter, resources`completions, resources.control, resources.Memories()
      ensures Valid(data) && data[..] == old(data[..]) && resources.files == old(resources.files)
      ensures var (t, ok) := RecordWrite(old(resources.State()), ServiceAt(data[..]), data[10..]);
              if ReferenceOk(data[..]) then resources.State() == t && exception == (if ok then 0 else 2)
              else resources.State() == old(resources.State()) && exception == 3
    {
      hide RecordWrite, Be, Value;
      if data[3] != FILE_REFERENCE || Value(data[2]) < 7 || Value(data[2]) > 245 {
        return 3;
      }
      var service := FileService(Be(data[4], data[5]), Be(data[6], data[7]), Be(data[8], data[9]));
      var ok := resources.WriteFile(service, data, 10);
      exception := if ok then 0 else 2;
    }

    method ReadFile(data: array<byte>) returns (exception: byte, generated: nat)
      requires Valid(data)
      modifies data, resources`counter, resources`completions, resources.control
      ensures Valid(data) && resources.files == old(resources.files)
      ensures var (t, answer) := RecordRead(old(resources.State()), old(ServiceAt(data[..])));
              if old(ReferenceOk(data[..])) then
                && resources.State() == t
                && Prepared(if answer.Data? then Reply(answer.payload) else Exception(2), exception, generated,
                   old(data[..]), data[..])
              else resources.State() == old(resources.State()) && exception == 3 && data[..] == old(data[..])
    {
      hide Be, Value, Overwrite;
      generated := 0;
      if data[3] != FILE_REFERENCE || Value(data[2]) < 7 || Value(data[2]) > 245 {
        return 3, generated;
      }
      var service := FileService(Be(data[4], data[5]), Be(data[6], data[7]), Be(data[8], data[9]));
      var ok, size := resources.ReadFile(service, data, 2);
      if ok {
        return 0, size;
      }
      return 2, 0;
    }

    method GenerateException(data: array<byte>, exception: byte)
      requires data.Length == BUFFER_SIZE
      modifies this`txLength, data
      ensures txLength == 5
      ensures data[..5] == ExceptionReply(old(data[0]), old(data[1]), exception)
    {
      hide Sealed;
      data[1] := data[1] | 0x80;
      data[2] := exception;
      assert data[..3] == [old(data[0]), old(data[1]) | 0x80, exception];
      InsertCrc(data, 3);
      txLength := 5;
    }

    /** crc16 over the first `end` bytes, inserted behind them low byte first. */
    method InsertCrc(data: array<byte>, end: nat)
      requires data.Length == BUFFER_SIZE && end + CRC_SIZE <= BUFFER_SIZE
      modifies data
      ensures data[..end + CRC_SIZE] == Sealed(old(data[..end]))
    {
      hide LowByte, HighByte, Checksum;
      ghost var body := data[..end];
      var crc := Crc16(data[..], end);
      assert data[..][..end] == body == Covered(body);
      data[end], data[end + 1] := LowByte(crc), HighByte(crc);
      assert data[..end] == body;
    }
  }
}
