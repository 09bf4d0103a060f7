/** The server node between two receptions: core/server/inc/node.hpp. */
module Node {
  import opened Bytes
  import opened Resources
  import opened Server

  /** The buffer after a reception: the new bytes in front, older ones behind. */
  function Received(before: seq<byte>, frame: seq<byte>): (buffer: seq<byte>)
    requires |before| == BUFFER_SIZE && |frame| <= BUFFER_SIZE
    ensures |buffer| == BUFFER_SIZE && buffer[..|frame|] == frame
  {
    frame + before[|frame|..]
  }

  /** One frame at the node. The reception completes only with as many bytes as it was armed for; otherwise nothing
      is processed and nothing is sent. What becomes of a frame of another length is up to the platform. */
  function Serve(address: byte, s: Store, before: seq<byte>, frame: seq<byte>): Outcome
    requires WellFormed(s) && |before| == BUFFER_SIZE
  {
    if |frame| != s.link.size then Outcome(s, [], NoError)
    else TaskOutcome(address, s, Received(before, frame), |frame|)
  }

  /** Processing the frame leaves the source inside its register table. */
  ghost predicate FrameInBounds(address: byte, s: Store, before: seq<byte>, frame: seq<byte>)
    requires WellFormed(s) && |before| == BUFFER_SIZE
  {
    |frame| == s.link.size ==> InBounds(address, s, Received(before, frame), |frame|)
  }

  class DataNode {
    const resources: ServerResources
    const control: BufferControl
    const server: ModbusServer
    const buffer: array<byte>
    var armed: nat
    var lastError: Verdict

    constructor (address: byte, recordSize: nat, uninitialised: half)
      requires recordSize < 0x100
      ensures 12 + recordSize <= BUFFER_SIZE ==> Valid()
      ensures server.address == address && resources.recordSize == recordSize
      ensures armed == 0 && control.State() == Link(false, 0, DEFAULT_SIZE) && resources.counter == uninitialised
    {
      var c := new BufferControl(recordSize);
      var r := new ServerResources(recordSize, c, uninitialised);
      var s := new ModbusServer(address, r);
      control, resources, server := c, r, s;
      buffer := new byte[BUFFER_SIZE];
      armed, lastError := 0, NoError;
    }

    ghost predicate Valid()
      reads this, server, resources, resources.control, resources.Memories()
    {
      && server.resources == resources && resources.control == control
      && server.Valid(buffer)
    }

    /** The pending reception waits for exactly the current buffer size. */
    ghost predicate Armed()
      reads this, server, resources, resources.control, resources.Memories()
    {
      Valid() && armed == control.size
    }

    method Start()
      requires Valid()
      modifies this`armed, resources`registers
      ensures Armed() && resources.registers == WithInitialRegisters(old(resources.registers), resources.recordSize)
    {
      resources.Init();
      armed := control.size;
    }

    /** A completed reception put `frame` into the buffer: process it, send the reply, then re-arm with the size
        the request may have changed. */
    method HandleReady(frame: seq<byte>) returns (sent: seq<byte>)
      requires Armed() && |frame| == armed
      requires InBounds(server.address, resources.State(), Received(buffer[..], frame), |frame|)
      modifies this`armed, this`lastError, server`txLength, buffer, resources, control, resources.Memories()
      ensures Armed() && resources.files == old(resources.files)
      ensures Outcome(resources.State(), sent, lastError)
              == Serve(server.address, old(resources.State()), old(buffer[..]), frame)
    {
      hide TaskOutcome;
      Deliver(frame);
      lastError := server.ServerTask(buffer, control.size);
      sent := buffer[..server.txLength];
      armed := control.size;
    }

    /** platformReadData */
    method Deliver(frame: seq<byte>)
      requires buffer.Length == BUFFER_SIZE && |frame| <= BUFFER_SIZE
      modifies buffer
      ensures buffer[..] == Received(old(buffer[..]), frame)
    {
      forall k | 0 <= k < |frame| {
        buffer[k] := frame[k];
      }
    }
  }
}
