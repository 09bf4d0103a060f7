# sm-utility: a verified model of the Modbus RTU file transfer

sm-utility moves files between a client and server nodes over a serial line. The client cuts a file into records and
drives a queue of request/response exchanges; the server decodes each frame in its 253-byte buffer, serves registers and
file records, and changes the number of bytes it waits for as a transfer starts and ends. This project models the four
parts as one system and proves what holds over whole transfers.

- **CRC** (`Bytes`, `Crc`, `Detection`): the table-driven loop refines the bit-serial procedure of section 6.2.2 of the
  MODBUS over Serial Line Specification V1.02; the register is a linear, injective map of the message bits, so nonzero
  bursts within 16 consecutive bits and odd numbers of bit flips are detected.
- **Frames** (`Frame`, `Requests`, `Wire`, `Replies`): the client's builders and the server's decoder are inverse; every reply passes
  the client's checksum; requests and replies number by number, and which request gets which reply.
- **Server** (`Resources`, `Bounds`, `Records`, `Server`, `Node`, `Runs`): registers and the guards of their accesses, files as
  shared arrays, the transfer counter, the receive length, the in-place processing of a frame, and what any run of frames keeps.
- **Client** (`ClientFile`, `Chunks`, `Client`, `Queue`, `Errors`): the file buffer, record arithmetic, the exchange queue, and which
  error an exchange, a task and a line with one fault end in.
- **The system** (`Line`, `Steps`, `Transfer`, `Reading`, `Image`, `Session`, `Tasks`, `RoundTrip`): one exchange over a line
  that may lose or detectably damage one of its two frames, then whole write and read tasks, then a write followed by a read.
- **Its limits** (`Limits`, `Exposure`, `Safety`, `Recovery`, `FirstTransfer`): inputs outside the guarantees, exactly which file
  and record sizes make a read task safe on every line, what a failed transfer leaves behind, and what an uninitialised
  counter does to the first one.

Code that works step by step is a class with the source's fields (`ModbusMessage`, `BufferControl`, `ServerResources`,
`ModbusServer`, `DataNode`, `File`, `TaskInfo`, `ModbusClient`); each method is proved equal to a specification function of
the state before, and the theorems are about those functions. The line is the nondeterministic part: a `Crossing` holds the
frame that reached the server and the frame that reached the client.

## The main results

1. *Writes are safe on every line.* If no exchange of a write task reports an error, the server's file starts with the content,
   padded with 0xFF to whole records, and nothing else changed; records of odd size keep their last byte
   (`Tasks.WriteTaskCopies`). If some exchange fails, exactly a prefix of the records has been written (`Transfer.WriteRun`).
2. *Reads are safe on every line exactly for some sizes.* A read task without an error left the server one count per record
   further and the client's file with exactly the bytes asked for, on every line, if and only if every record has six bytes or
   more (`Safety.FaithfulExactly`, from `Tasks.ReadTaskOutcome` and `Safety.ForgedTask`). The client reads outside a response on no
   line, if and only if no record leaves room in the file for more than it brings (`Safety.DefinedExactly`). Where it does not,
   the bytes in its file are right on every line, if and only if no record has one or two half words (`Safety.ContentExactly`).
   All three conditions are on file size and record size alone, for any record size and a server with enough records. On a line that delivers everything a read task of any record
   length is faithful (`Tasks.ReadTaskSucceeds`).
3. *What is written comes back*, as far as it is asked for (`RoundTrip.WriteThenRead`), and tasks without an error exist for every idle server and every
   content that fits (`RoundTrip.WriteTaskHappens`, `RoundTrip.ReadTaskHappens`, `RoundTrip.WriteThenReadHappens`), so none of
   this is vacuous.
4. *Lockstep.* In every task without an error, in which nothing is read outside a response, each request is exactly as long as
   the server waits for (`Tasks.WriteTaskLockstep`, `Tasks.ReadTaskLockstep`). After a write task, and after a read task of records of six bytes or more, the server is back at
   (8 bytes, counter 0) exactly if all of its file's records were transferred (`RoundTrip.WriteTaskLeavesIdle`,
   `Tasks.ReadTaskCopies`). However a transfer ends, a next file task can be confirmed, on any line at all, exactly in that case
   (`Recovery.AfterWrite`, `Recovery.AfterRead`): a transfer that stops in between leaves a node that no file task reaches.
5. *The CRC refines the standard and detects* (`Crc.TableStepIsAddByte`, `Crc.Crc16`, `Detection.BurstSurvives`,
   `Detection.CrcParity`, `Frame.DamageIsRejected`).
6. *Any run of frames* that stays inside the register table keeps the node sound (`Runs.RunIsSound`), and which frames leave the
   table is known exactly (`Runs.BoundsOfFrame`, `Bounds.ReadBoundsExactly`, `Bounds.WriteBoundsExactly`).
7. *The queue* runs a prefix of its exchanges and releases the caller under an exact condition (`Queue.QueueRun`).
8. *Every reply and every error is known exactly.* Which requests are performed, the bytes of the answers, and address, marked function
   code and exception code of every refusal (`Replies.AnswersExactly`, `Replies.RefusedExactly`); which of the four errors a
   response leads to, and which damage or refusal on the line leads to which error (`Errors.FaultExactly`,
   `Errors.ErrorOnTheLine`).

## Where the code does less than it seems to

Each item names the lemma about the code as it is.

- **File tasks count registers from zero.** The server accepts only addresses from 0x9C40 on, but `taskReadFile` and
  `taskWriteFile` pass the bare register index (core/client/src/client.cpp:274-282, 341-348). `Session.BareIndexIsRefused`: on no
  line are their prepare writes ever confirmed. `Session.PrepareOutcome`: they are confirmed only for the base 0x9C40. The task
  theorems therefore carry the base as a parameter.
- **Some files are not read completely.** For two or more whole records the last length is 0
  (core/client/src/file.cpp:185), and an odd tail loses a byte (core/client/src/client.cpp:250).
  `Image.ReadCopiesEveryContent`: a read copies every content exactly if the record size is even and the file fits one record, or
  its size is also even and not a multiple of the record size. `Tasks.ReadTaskCopies` says when a particular content is copied nevertheless.
- **Short read responses are not protected.** The client takes at most the expected number of bytes, and a node returns a frame for
  another address as it came. Where the expected response is shorter than the 12-byte request, a detectably damaged request can
  come back as an acceptable response, with any payload (`Limits.ShortReadIsForged`), or with a length byte that makes the client
  copy from outside the response (`Limits.ShortReadOverreads`). A single exchange is exposed exactly below three half words
  (`Limits.GenuineFromThreeWords`), a whole task exactly for the sizes of main result 2; `Safety.WrongContent` gives a task
  without an error and with wrong content for each size at which there is one.
- **A register write to another node is confirmed without being performed** (`Limits.ConfirmedAndPerformed`).
- **The caller may wait forever.** A valid response of the wrong length before the last exchange empties the queue but does not
  set `done` (`Queue.EarlyRefusalNeverCompletes`).
- **Record sizes.** Above 238 bytes every record write is refused (`Limits.LargeRecordIsRefused`). Of an odd record the last byte is
  not sent: a write task delivers the content exactly if those bytes were there already (`Tasks.ArrivedWhole`), and a read leaves
  zeros in their place (`Image.AskedAt`, `Tasks.ReadTaskCopies`).
- **Register guards.** The write guard lets offset 4 through (core/server/src/resources.cpp:94), and the read guard wraps for more
  than four registers (core/server/src/resources.cpp:120). Taken as they are, they let an access leave the table for exactly the
  requests that the model excludes (`Bounds.WriteBoundsExactly`, `Bounds.ReadBoundsExactly`). With the table that init leaves these
  are the intact requests under the node's address that write register 0x9C44, or read more than four registers from 0x9C44 or
  behind (`Runs.BoundsOfFrame`, `Runs.BoundsOfRequest`). The quantity guard can never be true (core/server/src/server.cpp:102), so
  that a read of no registers is answered (`Bounds.QuantityGuardNeverFires`).
- **The file counter has no initialiser** (core/server/inc/resources.hpp:138). The constructor takes its value as a parameter. From
  counter c0, a first write transfer to a file of n records ends without an error on a delivering line exactly if it has at most
  n - c0 records (c0 < n), one record (n <= c0 < 0xFFFF), or n records (0xFFFF, which wraps to zero)
  (`FirstTransfer.FirstWriteExactly`). The other transfer theorems start from an idle server, whose counter is 0.
- **Read response lengths.** For N half words the fields are 2N + 1 and 2N (core/server/src/resources.cpp:189-190,
  `Replies.ReadReply`), which differs from section 6.14 of the MODBUS Application Protocol Specification V1.1b3. Client and server
  agree with each other; conformance is not claimed.

## Model

| member | source | states |
|---|---|---|
| Bytes.LeIsHalves | core/common/common.hpp:57-68 | Little-endian extraction gives a value exactly if the two bytes are its low and high half, in this order |
| Bytes.BeRoundTrip | core/common/common.hpp:70-81 | Big-endian insertion followed by extraction returns every 16-bit value |
| Crc.ShiftsLinear | core/common/modbus.hpp:85-97 | Any number of reflected-CRC shifts is linear over XOR |
| Crc.ShiftsInjective | core/common/modbus.hpp:85-97 | No two registers become equal under shifting: a difference never disappears |
| Crc.TableEntryIsShifts | core/common/modbus.hpp:46-62 | Each of the 256 table entries is its index put through eight bit-serial shifts with polynomial 0xA001 |
| Crc.TableStepIsAddByte | core/common/modbus.hpp:91-93 | One pass of the loop equals adding the byte bit by bit |
| Crc.Crc16 | core/common/modbus.hpp:85-97 | For every string and length up to 65535 the loop computes the bit-serial checksum; Detection.ChecksumIsSeeded says what its seed 0xFFFF contributes |
| Detection.CrcIsFeed | core/common/modbus.hpp:85-97 | The byte-wise checksum is the shift register fed with the message bits, least significant first |
| Detection.CrcLinear | core/common/modbus.hpp:85-97 | XORing an error onto a message XORs the error's own checksum from zero onto the result |
| Detection.ChecksumIsSeeded | core/common/modbus.hpp:87 | For every message, the checksum is the one from zero XORed with 0xFFFF shifted past the whole message |
| Detection.LeadingZeroIsNoticed | core/common/modbus.hpp:87 | A zero byte put in front of any message changes its checksum |
| Detection.PublishedExample | core/common/modbus.hpp:85-97 | The bytes 02 07 have the checksum 0x1241, the example of section 6.2.2 of the MODBUS over Serial Line Specification V1.02 |
| Detection.TwoBytesClear | core/common/modbus.hpp:85-97 | Two bytes bring the register to zero exactly if they are its low and high half |
| Detection.BurstSurvives | core/common/modbus.hpp:85-97 | A nonzero error within 16 consecutive bits, in a string of any length, has a nonzero checksum from zero |
| Detection.CrcParity | core/common/modbus.hpp:85-97 | The checksum has an odd number of ones exactly if the message has |
| Detection.DetectableSurvives | core/common/modbus.hpp:85-97 | Bursts and odd numbers of flips both leave a nonzero checksum from zero |
| Frame.ModbusMessage.CreateMessage | core/client/src/message.cpp:128-143 | The buffer is address, function, data and checksum in RTU mode, function and data otherwise |
| Frame.ModbusMessage.MsgCustom | core/client/src/message.cpp:26-29 | Any function with any data becomes a message of the current mode |
| Frame.ModbusMessage.MsgWriteFileRecord | core/client/src/message.cpp:31-44 | The record write request with byte counter, reference type, ids, half-word count and data; Requests.WriteRequestDecodes gives its meaning |
| Frame.ModbusMessage.MsgReadFileRecord | core/client/src/message.cpp:46-56 | The record read request; Requests.ReadRequestDecodes gives its meaning |
| Frame.ModbusMessage.MsgWriteRegister | core/client/src/message.cpp:58-64 | The register write request; Requests.RegisterRequestDecodes gives its meaning |
| Frame.ModbusMessage.MsgReadRegisters | core/client/src/message.cpp:66-72 | The register read request; Requests.RegisterRequestDecodes gives its meaning |
| Frame.ModbusMessage.IsChecksumValid | core/client/src/message.cpp:74-96 | Accepts exactly the frames of five bytes or more whose last two bytes are the checksum of the rest, the length narrowed as in the source |
| Frame.ModbusMessage.ExtractData | core/client/src/message.cpp:98-110 | Succeeds exactly from five bytes on and then gives the bytes between address and checksum |
| Frame.MessageLength | core/client/src/message.cpp:112-126 | The required length is exactly what a message has around its function code and data, in either mode, and what extraction takes off |
| Frame.ChecksumValidIsResidue | core/client/src/message.cpp:82-86 | A frame of 5 to 65535 bytes is accepted exactly if the checksum over the whole frame is 0 |
| Frame.SealedIsValid | core/client/src/message.cpp:137-142 | Every frame that is built passes the receiver's check |
| Frame.DamageIsRejected | core/client/src/message.cpp:74-96 | No burst within 16 bits and no odd number of flips turns an accepted frame into another accepted one |
| Frame.ValidFrameIsEven | core/client/src/message.cpp:74-96 | Every accepted frame has an even number of ones |
| Frame.ExtractAfterCreate | core/client/src/message.cpp:98-143 | Extracting from a created RTU frame returns function and data, and they are the whole message without the RTU mode |
| Frame.ShortestFrame | core/client/src/message.cpp:74-79 | No frame of less than five bytes is accepted, and one of five bytes is |
| Frame.LongTailUnprotected | core/client/src/message.cpp:139 | Of a message of 65536 bytes or more the checksum protects only as many bytes as the narrowed length says |
| Wire.RequestBytes | core/client/src/message.cpp:26-72 | Every request of the client, number by number: address, function code, high byte before low byte, byte counter, reference type 6, payload |
| Wire.AwaitedBytes | core/client/src/client.cpp:487-509 | The client awaits five bytes after a ping, the length of the request after a write, 5 + 2N or 7 + 2N after a read of N registers or half words |
| Resources.BufferControl.SetBufferSize | core/server/inc/resources.hpp:27-38 | Sizes below 8 are ignored; larger ones than 8 set the extended flag; Runs.SettingsExactly says what any run of sizes leaves |
| Resources.BufferControl.SetRecordCounter | core/server/inc/resources.hpp:39 | Only the record counter changes |
| Resources.ServerResources.constructor | core/server/inc/resources.hpp:124-147 | Default registers and files, no flash driver, and a transfer counter of arbitrary value; valid if the frame buffer holds the longest request |
| Resources.ServerResources.SetFile | core/server/src/resources.cpp:16-24 | Replaces one file or refuses an index outside the table; the resources stay valid if the file has memory of its own for its records |
| Resources.ServerResources.SetRegister | core/server/src/resources.cpp:26-34 | Replaces one register or refuses an index outside the table |
| Resources.ServerResources.Init | core/server/src/init.cpp:13-32 | Record size readable, control and record counter writable with their callbacks, the status register as before |
| Resources.ServerResources.GetAccessToRecord | core/server/src/resources.cpp:36-62 | The slot of a record, or no access; Records.AccessOutcome says exactly when |
| Resources.Access | core/server/src/resources.cpp:36-62 | Whatever slot is granted lies inside the file's memory and is no longer than a record |
| Bounds.WriteBoundsExactly | core/server/src/resources.cpp:89-100 | With the source's guard, a register write indexes only the table exactly for the addresses that the model admits |
| Bounds.ReadBoundsExactly | core/server/src/resources.cpp:115-137 | With the source's guard, wrap of std::size_t included, and its loop, a register read indexes only the table exactly for the requests that the model admits |
| Bounds.WriteLeavesTable | core/server/src/resources.cpp:94 | A write leaves the table exactly at address 0x9C44 |
| Bounds.ReadLeavesTable | core/server/src/resources.cpp:120-137 | With the status register unreadable, a read leaves the table exactly for more than four registers from 0x9C44 or behind |
| Bounds.QuantityGuardNeverFires | core/server/src/server.cpp:102 | No quantity is refused; a read of no registers is answered with an empty list from 0x9C40 to 0x9C44 |
| Resources.ServerResources.ResetFileOperation | core/server/inc/resources.hpp:141-145 | Counter 0 and receive length 8, nothing else |
| Resources.ServerResources.FileOperationProcess | core/server/src/resources.cpp:64-85 | Counts one operation; at the file's record count resets and notifies; Records.CounterCycles gives its meaning over runs |
| Resources.ServerResources.WriteRegister | core/server/src/resources.cpp:87-111 | The whole new state and the result of a register write with its callback, inside the register table |
| Resources.ServerResources.ControlCallback | core/server/src/init.cpp:34-50 | Read prepare waits for 12 bytes, write prepare for 12 plus a record, other values change nothing |
| Resources.ServerResources.ReadRegister | core/server/src/resources.cpp:113-140 | State unchanged; the answer stands in the buffer behind the header, or the header survives a refusal |
| Resources.ServerResources.WriteFile | core/server/src/resources.cpp:142-176 | The whole new state, memory included, and the result of a record write; Records.WriteOutcome and FlashOutcome give its meaning |
| Resources.ServerResources.ReadFile | core/server/src/resources.cpp:178-195 | The whole new state and the answer of a record read, in the buffer; Records.ReadOutcome gives its meaning and Replies.ReadReply its bytes |
| Records.AccessOutcome | core/server/src/resources.cpp:36-62 | A record is accessible exactly if the file exists, has it, the number is within the limit and the length fits a record |
| Records.WriteOutcome | core/server/src/resources.cpp:142-176 | A RAM write succeeds exactly for a served record of a writable file; it then replaces the record's head and counts; otherwise nothing changes |
| Records.FlashOutcome | core/server/src/resources.cpp:154-170 | A flash write succeeds exactly if the driver also does, and a driver failure resets counter and receive length |
| Records.WriteReplacesOneRecord | core/server/src/resources.cpp:142-176 | After an accepted RAM write that record starts with the data and every other record of every file is as before |
| Records.ReadOutcome | core/server/src/resources.cpp:178-195 | A read succeeds exactly for a served record of a readable file, answers its head, and changes only the count |
| Records.ReadAfterWrite | core/server/src/resources.cpp:142-195 | Reading the record that was just written returns the written bytes |
| Records.ApplyKeeps | core/server/src/resources.cpp:64-85 | Any operation keeps sizes, attributes, record counts and registers; a refused one keeps all memory and callbacks |
| Records.CounterCycles | core/server/src/resources.cpp:64-85 | From 0, after k operations on a file of N records the counter is k mod N and its callback has fired k / N times |
| Records.CounterBelowLastServed | core/server/src/resources.cpp:64-85 | Under any mix of files and refusals the counter stays below the record count of the file last served and never wraps |
| Server.ModbusServer.ServerTask | core/server/src/server.cpp:16-79 | New state, bytes to send and verdict are those of TaskOutcome, for every frame within the register bounds; Requests gives their meaning |
| Server.ModbusServer.AnswerRequest | core/server/src/server.cpp:38-78 | An intact request is performed and its echo, sealed data or exception stands in the buffer |
| Server.ModbusServer.PerformRequest | core/server/src/server.cpp:38-63 | Each function code has its own effect and response; Replies.PerformsExactly says which requests are performed and which exception code the others get |
| Server.ModbusServer.WriteRegister | core/server/src/server.cpp:81-94 | Decodes address and value; exception 4 exactly if the write is refused |
| Server.ModbusServer.ReadRegister | core/server/src/server.cpp:96-117 | Decodes address and quantity; data in place or exception 2, state unchanged |
| Server.ModbusServer.WriteFile | core/server/src/server.cpp:119-141 | Exception 3 for a bad reference or counter without effect, otherwise the record write or exception 2; the request stays in the buffer |
| Server.ModbusServer.ReadFile | core/server/src/server.cpp:143-166 | Exception 3 for a bad reference or counter without effect, otherwise the record read in place or exception 2 |
| Server.ModbusServer.GenerateException | core/server/src/server.cpp:168-175 | Five bytes, sealed in place of the request; Replies.RefusedExactly says what they are for every refused frame |
| Node.DataNode.constructor | core/server/inc/node.hpp:28-31 | Receive length 8 and an arbitrary transfer counter; valid if the frame buffer holds the longest request |
| Node.DataNode.Start | core/server/inc/node.hpp:32-40 | The register table is initialised and the reception armed with the current length |
| Node.DataNode.HandleReady | core/server/inc/node.hpp:79-87 | A complete frame is processed, answered, and the reception re-armed with the length the request left |
| Requests.RegisterRequestDecodes | core/server/src/server.cpp:81-106 | A register request built by the client reaches the server's decoder with the same register and value or quantity, and a good checksum |
| Requests.ReadRequestDecodes | core/server/src/server.cpp:143-151 | A record read request decodes to the same file, record and half words, with an acceptable reference |
| Requests.WriteRequestDecodes | core/server/src/server.cpp:119-126 | A record write request decodes to the same file, record, half words and payload; its counter is acceptable exactly up to 238 bytes |
| Requests.RegisterAnswerDecodes | core/server/src/resources.cpp:113-140 | An accepted register read lists exactly the registers asked for, each of them readable |
| Requests.ExceptionReplyIsValid | core/server/src/server.cpp:168-175 | Every exception is five bytes that pass the client's check |
| Requests.PerformedLength | core/server/src/server.cpp:38-78 | Inside the register table, writes are echoed, and reads carry as much data as was asked for |
| Requests.RefusalKeeps | core/server/src/server.cpp:38-67 | Inside the register table, a request answered with an exception leaves files and registers unchanged |
| Requests.ReplyKinds | core/server/src/server.cpp:25-36 | A frame for another address is returned as it came, a damaged one gets exception 3, both without effect |
| Requests.AnswerShape | core/server/src/server.cpp:64-78 | Every reply to an intact request inside the register table passes the client's check; exceptions have five bytes and no effect on files or registers; writes are echoed byte for byte; reads have the length asked for |
| Replies.RegisterWriteOutcome | core/server/src/resources.cpp:87-111 | A register write succeeds exactly for a register from 0x9C40 to 0x9C43 that may be written; then that value changes, apart from the receive length nothing else |
| Replies.RecordOutcome | core/server/src/resources.cpp:142-195 | Which record writes and reads are accepted, and that a refusal changes nothing but where the platform routine failed: there counter 0 and receive length 8 |
| Replies.PerformsExactly | core/server/src/server.cpp:38-67 | Inside the register table, which requests are performed; of the others, the exception code by function, reference type and byte counter, and the state left |
| Replies.RefusedExactly | core/server/src/server.cpp:25-67 | For every frame inside the register bounds: the exact condition for each verdict; a refusal is address, function code with the highest bit set, exception code (3 for a bad checksum) and a fitting checksum |
| Replies.AnswersExactly | core/server/src/server.cpp:68-78 | A performed request is answered with the readable registers it names, the head of the record it names behind lengths 2N + 1 and 2N and type 6, or itself |
| Replies.ReadReply | core/server/src/resources.cpp:178-195 | An intact read of N half words is accepted exactly if the record may be read; its Pdu is 0x14, 2N + 1, 2N, 6 and the head of the record; otherwise it is the exception 2 |
| Replies.RegistersReply | core/server/src/resources.cpp:113-140 | An intact register read of any quantity inside the table is accepted exactly if all registers may be read, then with their values in as many bytes as the client expects; otherwise exception 2 |
| Replies.RegisterWritten | core/server/src/init.cpp:34-52 | An intact register write at a node of eight bytes: 1 in 0x9C41 makes it wait for 12, 2 for 12 plus a record, any other value for no other length; 0x9C42 sets the record counter; refusals are exception 4 |
| Replies.RecordReply | core/server/src/server.cpp:119-141 | An intact record write is accepted and echoed exactly up to 238 bytes, for a record that may be written, if no driver fails; exception 3 above 238 bytes, 2 otherwise |
| Replies.PingIsUnknown | core/server/src/server.cpp:59-62 | A ping gets exception 1 and changes nothing |
| Runs.SoundAtStart | core/server/src/init.cpp:13-32 | A node is sound when it starts |
| Runs.RunIsSound | core/server/inc/node.hpp:79-87 | Over any sequence of frames, which may be pieces of longer ones, none of which leaves the register table: the receive length is 8, 12 or 12 plus a record, the register table and all file layouts stay, and the record size register is the record size |
| Runs.BoundsOfFrame | core/server/src/resources.cpp:87-140 | On a sound node a frame makes the source leave its register table exactly if it is an intact request under the node's address, as long as awaited, that writes 0x9C44 or reads more than four registers from 0x9C44 or behind |
| Runs.BoundsOfRequest | core/client/src/message.cpp:58-72 | The same for the client's register requests: exactly which of them the node must not be sent |
| Runs.RecordSizeIsLearnt | core/client/src/client.cpp:406-431 | A sound node that waits for eight bytes answers a read of its first register with its record size, which survives narrowing to a byte |
| Runs.SettingsExactly | core/server/inc/resources.hpp:27-38 | Over any run of sizes: the flag is set exactly once a size above 8 was set, the length is the last size not below 8, the record counter stays |
| ClientFile.RecordsNeeded | core/client/src/file.cpp:168 | The least number of records that covers the file |
| ClientFile.CountIsNeeded | core/client/src/file.cpp:163-175 | In spite of the narrowing to 16 bits, the count is the true one exactly if that is at most 10000 |
| ClientFile.CountBeyondLimit | core/client/src/file.cpp:168-172 | The count is the narrowed number exactly if that is at most 10000, and 0 otherwise |
| ClientFile.ReadyToWrite | core/client/src/file.cpp:118-139 | A file set up for writing is ready, as taskWriteFile demands, exactly if its content is not empty, and has the new id then; without content nothing is left of an earlier file |
| ClientFile.NothingReadYet | core/client/src/file.cpp:41-72 | A file set up for reading is zeroed, not ready, at record 0, and has room for the size asked for and for one record |
| ClientFile.File.Flush | core/client/src/file.cpp:31-39 | Everything but the id returns to its initial value |
| ClientFile.File.SetupRead | core/client/src/file.cpp:41-72 | A fresh zeroed buffer of at least one record and the new parameters, or only the release of the old buffer |
| ClientFile.File.SetupWriteFromMemory | core/client/src/file.cpp:118-139 | Content and 0xFF padding in a fresh buffer, ready, or only the release of the old buffer; Chunks.WriteChunks and ClientFile.ReadyToWrite give its meaning |
| ClientFile.File.PaddedBuffer | core/client/src/file.cpp:129-131 | Filling the last record with 0xFF and copying over it pads the content and nothing else |
| ClientFile.File.LoadRecordFromMessage | core/client/src/file.cpp:141-161 | Copies the payload to the counter's record and counts, ready at the last one; refuses without effect what would run past the file |
| Chunks.WriteChunks | core/client/src/client.cpp:314-319 | The record slices of a prepared file join to the content followed by less than a record of 0xFF |
| Chunks.RecordAccounting | core/client/src/file.cpp:177-197 | Record lengths add up to the stored size exactly unless it is two or more whole records, then one record is missing; every record stays inside the buffer |
| Chunks.NoSuchRecord | core/client/src/file.cpp:177-197 | A record that the file does not have has length 0 |
| Client.TaskInfo.Reset | core/client/inc/client.hpp:62-72 | Every field that a run updates returns to its start value for the new task; server index and progress flag are the given ones |
| Client.ModbusClient.Begin | core/client/src/client.cpp:234-242 | The closure builds the exchange's request and notes the length to expect |
| Client.ModbusClient.ExchangeCallback | core/client/src/client.cpp:404-485 | The client's whole state after a response, for every response; Errors.FaultExactly and Queue.QueueRun give its meaning |
| Client.ModbusClient.ProcessQueue | core/client/src/client.cpp:364-402 | The queue ends empty, the state is that of the run, and exactly the executed prefix of requests was sent in order |
| Client.ModbusClient.QueueReads | core/client/src/client.cpp:244-253 | One read exchange per record, in order, behind what was queued |
| Client.ModbusClient.QueueWrites | core/client/src/client.cpp:309-320 | One write exchange per record slice, in order, behind what was queued |
| Queue.RunIsPrefix | core/client/src/client.cpp:372-397 | A run executes a prefix of its exchanges: all before the last went well, and it stops early only at an error |
| Queue.QueueRun | core/client/src/client.cpp:433-484 | The counter is the number of exchanges run, and the caller is released exactly if all were run or the last response failed its checksum |
| Queue.EarlyRefusalNeverCompletes | core/client/src/client.cpp:438-484 | Wherever before the last exchange the first error is a valid response of the wrong length, the queue stops there and the caller is never released |
| Queue.FaultFreeRun | core/client/src/client.cpp:433-484 | A run without error took every exchange, and every response was valid and of the expected length |
| Errors.FaultExactly | core/client/src/client.cpp:433-484 | Timeout exactly if nothing was heard, checksum error exactly for something that is no valid frame, server exception exactly for a valid frame of another length, internal error exactly for a record the file has no room for; only a timeout makes the server unavailable, only an answered ping available |
| Errors.RunFaultExactly | core/client/src/client.cpp:364-402 | The same for a whole task and the last exchange that was run |
| Errors.NothingAwaited | core/client/src/client.cpp:491-492 | A client without a task, or just reset, takes no response |
| Errors.ErrorOnTheLine | core/client/src/client.cpp:433-484 | With at most one frame lost or damaged and at least as many bytes awaited as sent: a loss or a node that waits for another length is a timeout; a damaged reply or request address is a checksum error; other damage to the request and refusals are server exceptions; all else goes well |
| Errors.ErrorOfIntact | core/client/src/client.cpp:433-484 | For an intact transfer request of any awaited length: a delivered refusal is a server exception, a lost reply a timeout and the only loss of availability, a damaged reply a checksum error |
| Line.IntactRequest | core/server/src/server.cpp:16-79 | An intact transfer request inside the register table gets a valid reply: of the length the client expects if it was performed, five bytes and no effect if not |
| Line.DamagedRequest | core/server/src/server.cpp:25-36 | A lost or detectably damaged request changes nothing on the server and comes back unchanged or as five bytes |
| Line.AcceptedIsGenuine | core/client/src/client.cpp:433-484 | If the client accepts a response while at most one frame is lost or damaged, the server took a frame of the length it waited for; an intact request was performed and answered with that response, a damaged one changed nothing; where the client waits for at least what it sent, the request was intact |
| Line.NothingIsLeft | core/client/src/client.cpp:539 | Where the client waits for at least what it sent, it reads all that arrives, so that no byte is left for a later exchange |
| Steps.ServeWriteRegister | core/server/src/server.cpp:81-94 | An intact register write inside the table has exactly the effect of the register write it names |
| Steps.ServeReadRecord | core/server/src/server.cpp:143-166 | An intact record read has exactly the effect and the answer of the record read it names |
| Steps.ServeWriteRecord | core/server/src/server.cpp:119-141 | An intact record write stores exactly the bytes it carries in the record it names |
| Transfer.WritesArrive | core/client/src/client.cpp:309-320 | After each k error-free exchanges over a faulty line the first k records are new and everything else is unchanged |
| Transfer.WriteRun | core/client/src/client.cpp:309-320 | However the line behaves, exactly a prefix of the records is written: all executed, or all but the last; all of them without an error |
| Transfer.WriteOverrun | core/client/src/client.cpp:309-320 | More records than the server's file has cannot be written without an error |
| Transfer.WriteProgressEnds | core/server/src/resources.cpp:64-85 | During a write transfer the receive length fits the next request, and only after the file's last record is the server back at 8 and 0 |
| Transfer.WritesSucceed | core/client/src/client.cpp:309-320 | On a line that delivers everything the write exchanges end without an error |
| Transfer.PerfectRunFor | core/client/src/client.cpp:364-402 | Every queue has a run on a line that delivers everything |
| Reading.ReadsArrive | core/client/src/client.cpp:244-253 | After each k error-free exchanges of records with three half words or more, the server has counted k reads and the client holds exactly what k responses bring |
| Exposure.ReadRunDefined | core/client/src/file.cpp:141-161 | If no record leaves room for more than it brings, the client reads nothing outside a response on any line, faults or not |
| Reading.ReadRun | core/client/src/client.cpp:244-253 | With records of three half words or more, however the line behaves, the client's file holds a prefix of the records, and the server has counted as many or one more |
| Reading.ReadOverrun | core/client/src/client.cpp:244-253 | With a record size of six or more, more records than the server's file has cannot be read without an error |
| Reading.ReadsSucceed | core/client/src/client.cpp:244-253 | On a line that delivers everything the read exchanges end without an error and have read all that was asked for, whatever the record lengths |
| Image.AskedAt | core/client/src/client.cpp:248-252 | Which bytes a read asks for: the whole half words of each full record and of the last one |
| Image.AllAskedFor | core/client/src/file.cpp:183-190 | Every byte is asked for exactly if the record size is even and the file fits one record, or its size is also even and not a multiple of the record size |
| Image.FinalImage | core/client/src/file.cpp:141-161 | A completed read leaves each byte that was asked for and zeros elsewhere; it is the server's prefix exactly if the others are zero there |
| Image.ReadCopiesEveryContent | core/client/src/client.cpp:248-252 | A completed read copies every content exactly under that size condition |
| Image.ReadyAtTheEnd | core/client/src/file.cpp:150-154 | The file becomes ready with the last record and not before |
| Session.InitialRegisters | core/server/src/init.cpp:13-32 | In the table that init leaves, register 0 has the record size and can only be read, 1 and 2 have their callbacks and can only be written, 3 is as before; transfers can use it exactly if 3 cannot be written |
| Session.PrepareBytes | core/client/src/client.cpp:274-286 | The prepare writes on the line: the record count to register base + 2, the command to base + 1, as 16-bit numbers |
| Session.ConfirmedIff | core/client/src/client.cpp:171-199 | A register write reports no error exactly if the response is valid and of the expected length |
| Session.PrepareOutcome | core/client/src/client.cpp:274-286 | Confirmed prepare writes used the register base 0x9C40 and left exactly the prepared server |
| Session.BareIndexIsRefused | core/client/src/client.cpp:274-286 | With registers counted from zero, as in the code, the prepare writes are never confirmed |
| Session.PrepareSucceeds | core/client/src/client.cpp:341-353 | With the base 0x9C40, on a line that delivers everything, they are confirmed and leave the prepared server |
| Tasks.WriteTaskOutcome | core/client/src/client.cpp:297-362 | A write task without an error used the right base, fitted the file and left exactly the written server |
| Tasks.WriteTaskCopies | core/client/src/client.cpp:297-362 | Over any faulty line and for any record size, a write task without an error copied the content with its 0xFF padding, all but the last bytes of odd records, and changed nothing else in the files; the server is at 8 and 0 again exactly if the file was filled |
| Tasks.ArrivedWhole | core/client/src/message.cpp:35 | The content is in the written file exactly if the bytes left out of odd records were there already, and always for even record sizes |
| Tasks.WriteTaskLockstep | core/server/inc/node.hpp:79-87 | Each request of such a task is exactly as long as the server waits for: 8, 8, then 12 plus a record |
| Tasks.WriteTaskSucceeds | core/client/src/client.cpp:297-362 | On a line that delivers everything, right base and enough records suffice for a write task without an error |
| Tasks.ReadTaskOutcome | core/client/src/client.cpp:232-295 | With records of six bytes or more, on any line, a read task without an error used the right base, fitted the file, left the prepared server as it was but for its count, and the client's file with what was asked for |
| Tasks.ReadTaskCopies | core/client/src/client.cpp:232-295 | With records of six bytes or more, on any line, a read task without an error left a ready file with the server's bytes as far as asked for; it is the whole prefix under the exact condition on sizes and content; the server's files are unchanged |
| Tasks.LongRecordsExactly | core/client/src/client.cpp:250 | The condition on file and record size says exactly that the client asks for three half words or more in every exchange |
| Tasks.ReadTaskLockstep | core/server/inc/node.hpp:79-87 | Each request of a read task without an error that reads nothing outside a response, damaged or not and of any record length, is exactly as long as the server waits for: 8, 8, then 12 |
| Tasks.ReadTaskSucceeds | core/client/src/client.cpp:232-295 | On a line that delivers everything, right base and enough records suffice for a read task that has no error and brings all that was asked for, whatever the record lengths |
| RoundTrip.WriteTaskHappens | core/client/src/client.cpp:297-362 | For every idle server and fitting file there is a write task without an error |
| RoundTrip.ReadTaskHappens | core/client/src/client.cpp:232-295 | For every idle server and fitting size there is a read task without an error that brings all that was asked for |
| RoundTrip.WriteTaskLeavesIdle | core/server/src/resources.cpp:75-78 | A write task without an error leaves the server idle, ready for any next task, exactly if it filled the file |
| RoundTrip.WriteThenRead | core/client/src/client.cpp:232-362 | With records of six bytes or more, what a write task stored, a read task returns on any line: the content comes back exactly if the bytes that are not asked for are zero, and always if all are asked for |
| RoundTrip.WriteThenReadHappens | core/client/src/client.cpp:232-362 | Such a pair of tasks exists for every content that fills its file, with records of any even size, and brings the content back alike |
| Limits.OthersAreEchoed | core/server/src/server.cpp:25-28 | A request for another node is sent back as it came, without effect |
| Limits.ConfirmedAndPerformed | core/server/src/server.cpp:25-28 | A delivered register write, inside the table if it is for the node, is confirmed exactly if it was accepted or the address is not the node's; it takes place only in the first case |
| Limits.PingConfirmed | core/client/src/client.cpp:446-448 | A ping whose answer is delivered marks the node as available exactly if it arrived under the node's address, damaged or not, or came back damaged with a valid beginning |
| Limits.OddRecord | core/client/src/message.cpp:35 | A record of odd size arrives whole exactly if its last byte was there already |
| Limits.LargeRecordIsRefused | core/server/src/server.cpp:126 | A record of more than 238 bytes is refused without effect |
| Limits.ForgedResponse | core/client/src/client.cpp:438 | Where the client waits for less than it sent, any valid frame of the expected length from another address can be passed off as the response by detectable damage to the request |
| Limits.ShortReadIsForged | core/client/src/client.cpp:438 | Up to two half words, for every payload there is a detectably damaged request that the client takes for a response with that payload, unseen by the server |
| Limits.ShortReadOverreads | core/client/src/file.cpp:144-149 | Up to two half words, a detectably damaged request can make the client copy from outside the response, for every length byte beyond the payload that the file has room for |
| Limits.GenuineFromThreeWords | core/client/src/client.cpp:438 | Accepted read responses are genuine exactly from three half words on |
| Exposure.ForgedRun | core/client/src/client.cpp:364-402 | A whole transfer in which one short record is forged ends without an error, with the forged record in the client's file and the server one read behind; only the forged response is longer than what is read of it |
| Exposure.OverreadRun | core/client/src/file.cpp:144-149 | If a record leaves room for more than it brings, on some line the client reads outside a response |
| Safety.ForgedTask | core/client/src/client.cpp:232-295 | For each short record and any payload there is a read task without an error and without reading outside a response that brings that payload |
| Safety.FaithfulExactly | core/client/src/client.cpp:232-295 | A read task without an error is faithful on every line exactly if every record has six bytes or more |
| Safety.DefinedExactly | core/client/src/file.cpp:144-149 | No line makes the client read outside a response exactly if the file fits one record of an even size or of six bytes or more, or the record size is six or more and the last record has six or more, two or four bytes |
| Safety.ContentExactly | core/client/src/file.cpp:141-161 | A read task without an error that reads nothing outside a response leaves the right bytes on every line exactly if no record has one or two half words |
| Safety.WrongContent | core/client/src/file.cpp:141-161 | At every other size some read task without an error leaves wrong bytes; unless the last record is empty, nothing was left unread before the last exchange |
| Recovery.CanPrepareExactly | core/client/src/client.cpp:341-353 | A file task can be confirmed on some line, with some register base, exactly if the node waits for eight bytes |
| Recovery.AfterWrite | core/server/src/resources.cpp:64-85 | However a write transfer ends, some m of its records arrived, and a next file task can be confirmed exactly if m is all the file has |
| Recovery.AfterRead | core/server/src/resources.cpp:64-85 | However a read transfer of long records ends, some m reads were counted, and a next file task can be confirmed exactly if m is all the file has |
| FirstTransfer.FirstWritesArrive | core/server/src/resources.cpp:74-77 | From any counter and on any line, the records of a write transfer arrive one by one up to its early reset |
| FirstTransfer.FirstWriteOutcome | core/server/src/resources.cpp:74-77 | From any counter and on any line, a write transfer without an error ended by that reset, and all its records arrived |
| FirstTransfer.FirstWriteExactly | core/server/inc/resources.hpp:138 | From counter c0 and on a delivering line, a write transfer to a file of n records ends without an error exactly up to n - c0 records, one record from n on, n records from 0xFFFF |

## Left out

- Threads, `std::async`, sleeps and memory orderings: an exchange is one step with an arbitrary response.
- Errors of the serial port itself (core/client/src/client.cpp:379-383, 532-545): environment behaviour.
- The serial port library is not part of this model. A read is taken to return at most the expected number of bytes, as the
  call at core/client/src/client.cpp:539 asks for, and what is left of a longer frame is taken to be discarded before the next
  exchange. Line.NothingIsLeft: nothing is left where the client waits for at least what it sent.
- `Timer`, the `Com` flags and the receive timeout: a frame of another length than the node waits for is not processed and not
  answered, and leaves the node as it was.
- What an undefined access of the source returns: registers beyond the table (`Server.InBounds`) and bytes behind a short response
  (`Client.CallbackDefined`). Safety.DefinedExactly says for which sizes the latter occurs in a read task; where it does, the
  state after it has no meaning.
- Bootloader and service page: a one-branch stub over platform calls.
- The content of flash files: the driver receives the length but not the payload (core/server/src/resources.cpp:163). Records.FlashOutcome
  states the rest.
- `setupWriteFromDrive` and `getFileSize`: file-system access; the padding is that of `setupWriteFromMemory`.
- `BufferControl::updateRecordCounter`: nothing calls it.
- Parsing of register values into the server table and the guards of the tasks before their first exchange
  (core/client/src/client.cpp:254-272, 323-340): easy lookups. Of the guards, only that a file to be written is ready is part of the
  tasks (`Tasks.Writable`). The configured record size is taken as the server's.
- Files that need more than 10000 records, or none: the narrowed count is modelled, and the task theorems require 1 to 10000 records.
- Progress bar, logging, error texts and port configuration.
- Client.ModbusClient.ExchangeCallback: does not parse register values, and takes one server entry for the table of servers.
- ClientFile.File.SetupWriteFromMemory: requires a record size above zero and at most 10000 records for a content that is not empty,
  because otherwise the source fills memory in front of its buffer (core/client/src/file.cpp:130).
- ClientFile.File.LoadRecordFromMessage: requires that a payload that is going to be copied lies inside the message, because otherwise
  the source reads behind it. Safety.DefinedExactly says when that can happen.
- Resources.ServerResources.WriteRegister: requires an offset other than 4, because there the source writes behind its table
  (Bounds.WriteBoundsExactly).
- Resources.ServerResources.ReadRegister: requires that the source's loop stays inside the table (Bounds.ReadBoundsExactly).
- Server.ModbusServer.ServerTask: requires that the frame's register access stays inside the table, exactly as in Runs.BoundsOfFrame.
- Server.ModbusServer.AnswerRequest: as Server.ModbusServer.ServerTask.
- Server.ModbusServer.PerformRequest: as Server.ModbusServer.ServerTask.
- Server.ModbusServer.WriteRegister: as Server.ModbusServer.ServerTask.
- Server.ModbusServer.ReadRegister: as Server.ModbusServer.ServerTask.
- Node.DataNode.HandleReady: as Server.ModbusServer.ServerTask.
- Client.ModbusClient.ProcessQueue: requires that nothing is read outside a response; Safety.DefinedExactly says when that can happen.
- Tasks.ReadTaskCopies: requires records of six bytes or more, the exact condition of Safety.FaithfulExactly.
- Exposure.ForgedRun: where the forged record is not the last one, it rests on the unread rest of the forged frame being discarded.
- Safety.ForgedTask: as Exposure.ForgedRun.
- Safety.WrongContent: rests on that only where the last record is empty or of one byte, with record sizes below six.
- Safety.ContentExactly: its only-if half, as Safety.WrongContent.
- Transfer.WriteOverrun: rests on the node not processing a frame longer than it waits for. A platform that takes such a frame in pieces,
  as target/server/desktop/platform.cpp:38-51 does, is not covered.
- Tasks.WriteTaskOutcome: its bound on the number of records rests on Transfer.WriteOverrun.
- Reading.ReadOverrun: as Transfer.WriteOverrun, for a request of 12 bytes at a receive length of 8.
