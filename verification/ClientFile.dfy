/** The client's file buffer: core/client/src/file.cpp. */
module ClientFile {
  import opened Bytes

  const MAX_FILE_RECORDS := 10000
  const PADDING: byte := 0xFF

  /** The fields of File; `bytes` is the allocated buffer, empty when there is none. */
  datatype FileState = FileState(
    present: bool, bytes: seq<byte>, fileSize: nat, records: half,
    counter: half, id: half, recordSize: nat, ready: bool)

  /** The number of records a file of this size really needs. */
  function RecordsNeeded(fileSize: nat, recordSize: nat): (n: nat)
    requires recordSize > 0
    ensures fileSize <= n * recordSize < fileSize + recordSize
  {
    if fileSize % recordSize != 0 then fileSize / recordSize + 1 else fileSize / recordSize
  }

  /** calcNumOfRecords: narrowed to 16 bits before the limit is tested. */
  function CountRecords(fileSize: nat, recordSize: nat): half {
    if recordSize > 0 && fileSize > 0 then
      var n := RecordsNeeded(fileSize, recordSize) % 0x1_0000;
      if n > MAX_FILE_RECORDS then 0 else n
    else 0
  }

  /** The count is right exactly up to the limit, in spite of the narrowing. */
  lemma CountIsNeeded(fileSize: nat, recordSize: nat)
    requires recordSize > 0 && fileSize > 0
    ensures CountRecords(fileSize, recordSize) == RecordsNeeded(fileSize, recordSize) <==>
            RecordsNeeded(fileSize, recordSize) <= MAX_FILE_RECORDS
    ensures RecordsNeeded(fileSize, recordSize) > 0
  {
  }

  /** Beyond the limit the count is zero, unless the narrowed number happens to be within it. */
  lemma CountBeyondLimit(fileSize: nat, recordSize: nat)
    requires recordSize > 0 && fileSize > 0
    ensures var n, count := RecordsNeeded(fileSize, recordSize) % 0x1_0000, CountRecords(fileSize, recordSize);
            count <= 10000 && (count == n <==> n <= 10000) && (count != n ==> count == 0)
  {
  }

  /** Without a record size or a size there are no records. */
  lemma NothingToCount(fileSize: nat, recordSize: nat)
    requires recordSize == 0 || fileSize == 0
    ensures CountRecords(fileSize, recordSize) == 0
  {
  }

  /** getActualRecordLength */
  function ActualRecordLength(f: FileState, index: int): nat {
    if 0 <= index < f.records then
      if index + 1 == f.records then
        if f.fileSize == f.recordSize then f.fileSize
        else if f.recordSize > 0 then f.fileSize % f.recordSize else 0
      else f.recordSize
    else 0
  }

  /** flush, which the setup functions call only when there is a buffer. */
  function Flushed(f: FileState): FileState {
    FileState(false, [], 0, 0, 0, f.id, 0, false)
  }

  function Released(f: FileState): FileState {
    if f.present then Flushed(f) else f
  }

  function Repeat(b: byte, n: nat): (s: seq<byte>)
    ensures |s| == n && forall k :: 0 <= k < n ==> s[k] == b
  {
    seq(n, _ => b)
  }

  /** A file after setupRead with a record size above zero. */
  function ReadSetup(f: FileState, id: half, fileSize: nat, recordSize: nat): FileState {
    var size := if fileSize < recordSize then recordSize else fileSize;
    Released(f).(present := true, bytes := Repeat(0, size), fileSize := size,
                 records := CountRecords(fileSize, recordSize), id := id, recordSize := recordSize)
  }

  /** A file after setupWriteFromMemory; file_size keeps the value it had. */
  function WriteSetup(f: FileState, id: half, content: seq<byte>, recordSize: nat): FileState
    requires recordSize > 0
  {
    var n := RecordsNeeded(|content|, recordSize);
    Released(f).(present := true, bytes := content + Repeat(PADDING, n * recordSize - |content|),
                 records := CountRecords(|content|, recordSize), id := id, recordSize := recordSize, ready := true)
  }

  /** What setupWriteFromMemory makes of any content. */
  function AfterWriteSetup(f: FileState, id: half, content: seq<byte>, recordSize: nat): FileState
    requires |content| > 0 ==> recordSize > 0
  {
    if |content| > 0 then WriteSetup(f, id, content, recordSize) else Released(f)
  }

  /** A file object that is new or has a buffer: its counter and ready flag are those of a flushed file once it is
      released. */
  predicate Clean(g: FileState) {
    g.present || (g.counter == 0 && !g.ready)
  }

  /** taskWriteFile takes a file that is ready, and with it its id. That is what setupWriteFromMemory leaves exactly
      if the content is not empty; without content nothing is left of an earlier file. */
  lemma ReadyToWrite(f: FileState, id: half, content: seq<byte>, recordSize: nat)
    requires Clean(f) && (|content| > 0 ==> recordSize > 0)
    ensures var g := AfterWriteSetup(f, id, content, recordSize);
            && Clean(g) && (g.ready <==> |content| > 0) && g.counter == 0
            && g.id == (if |content| > 0 then id else f.id)
            && (g.present <==> |content| > 0) && (f.present ==> g.fileSize == 0)
            && (|content| > 0 ==> g.recordSize == recordSize)
            && (f.present && |content| == 0 ==> g.records == 0 && g.recordSize == 0 && g.bytes == [])
  {
    hide RecordsNeeded, CountRecords;
  }

  /** A file that is set up for reading has the id asked for, no record yet, and room for a record at least. */
  lemma NothingReadYet(f: FileState, id: half, fileSize: nat, recordSize: nat)
    requires Clean(f)
    ensures var g := ReadSetup(f, id, fileSize, recordSize);
            && g.present && !g.ready && g.counter == 0 && g.id == id && g.recordSize == recordSize
            && |g.bytes| == g.fileSize && g.fileSize >= fileSize && g.fileSize >= recordSize
            && (g.fileSize == fileSize || g.fileSize == recordSize)
            && forall k :: 0 <= k < g.fileSize ==> g.bytes[k] == 0
  {
    hide RecordsNeeded, CountRecords;
  }

  /** The message has a length byte, and a payload that is going to be copied lies inside it. */
  predicate Loadable(f: FileState, message: seq<byte>) {
    && |message| >= 3
    && (f.counter * f.recordSize + Value(message[2]) <= f.fileSize ==> 4 + Value(message[2]) <= |message|)
  }

  /** loadRecordFromMessage */
  function Load(f: FileState, message: seq<byte>): (r: (FileState, bool))
    requires Loadable(f, message) && f.fileSize <= |f.bytes|
  {
    var length, at := Value(message[2]), f.counter * f.recordSize;
    if at + length <= f.fileSize then
      var counter := (f.counter + 1) % 0x1_0000;
      (f.(bytes := Overwrite(f.bytes, at, message[4..4 + length]), counter := counter,
          ready := f.ready || counter == f.records), true)
    else (f, false)
  }

  class File {
    var data: array?<byte>
    var fileSize: nat
    var records: half
    var counter: half
    var id: half
    var recordSize: nat
    var ready: bool

    constructor ()
      ensures Valid() && State() == FileState(false, [], 0, 0, 0, 0, 0, false)
    {
      data := null;
      fileSize, records, counter, id, recordSize, ready := 0, 0, 0, 0, 0, false;
    }

    ghost function State(): FileState
      reads this, data
    {
      FileState(data != null, if data == null then [] else data[..], fileSize, records, counter, id, recordSize, ready)
    }

    ghost predicate Valid()
      reads this, data
    {
      fileSize <= |State().bytes| && (data == null ==> fileSize == 0)
    }

    method Flush()
      modifies this
      ensures Valid() && State() == Flushed(old(State()))
    {
      data := null;
      records, recordSize, counter, fileSize, ready := 0, 0, 0, 0, false;
    }

    method CalcNumOfRecords(size: nat) returns (n: half)
      ensures n == CountRecords(size, recordSize)
    {
      n := 0;
      if recordSize > 0 && size > 0 {
        n := (if size % recordSize != 0 then size / recordSize + 1 else size / recordSize) % 0x1_0000;
        if n > MAX_FILE_RECORDS {
          n := 0;
        }
      }
    }

    method GetActualRecordLength(index: int) returns (length: nat)
      requires recordSize > 0 || records == 0
      ensures length == ActualRecordLength(State(), index)
    {
      length := 0;
      if index < records && index >= 0 {
        if index + 1 == records {
          length := if fileSize == recordSize then fileSize else fileSize % recordSize;
        } else {
          length := recordSize;
        }
      }
    }

    method SetupRead(newId: half, size: nat, newRecordSize: nat) returns (ok: bool)
      requires Valid()
      modifies this
      ensures Valid() && ok == (newRecordSize != 0)
      ensures State() == if ok then ReadSetup(old(State()), newId, size, newRecordSize) else Released(old(State()))
      ensures ok ==> fresh(data)
    {
      if data != null {
        Flush();
      }
      if newRecordSize == 0 {
        return false;
      }
      fileSize := if size < newRecordSize then newRecordSize else size;
      data := new byte[fileSize](_ => 0);
      id, recordSize := newId, newRecordSize;
      records := CalcNumOfRecords(size);
      assert data[..] == Repeat(0, fileSize);
      return true;
    }

    method SetupWriteFromMemory(newId: half, content: seq<byte>, newRecordSize: nat) returns (ok: bool)
      requires Valid()
      requires |content| > 0 ==> newRecordSize > 0 && RecordsNeeded(|content|, newRecordSize) <= MAX_FILE_RECORDS
      modifies this
      ensures Valid() && ok == (|content| > 0)
      ensures State() == AfterWriteSetup(old(State()), newId, content, newRecordSize)
      ensures ok ==> fresh(data)
    {
      hide RecordsNeeded;
      if data != null {
        Flush();
      }
      if |content| == 0 {
        return false;
      }
      id, recordSize := newId, newRecordSize;
      records := CalcNumOfRecords(|content|);
      CountIsNeeded(|content|, recordSize);
      data := PaddedBuffer(content, records, recordSize);
      ready := true;
      return true;
    }

    /** Allocate the records, memset the last one, copy the content over. */
    static method PaddedBuffer(content: seq<byte>, records: nat, recordSize: nat) returns (data: array<byte>)
      requires records > 0 && |content| <= records * recordSize < |content| + recordSize
      ensures fresh(data) && data[..] == content + Repeat(PADDING, records * recordSize - |content|)
    {
      var size := records * recordSize;
      var last := (records - 1) * recordSize;
      assert last + recordSize == size;
      data := new byte[size];
      forall k | last <= k < size {
        data[k] := PADDING;
      }
      forall k | 0 <= k < |content| {
        data[k] := content[k];
      }
      assert data[..] == content + Repeat(PADDING, size - |content|);
    }

    method LoadRecordFromMessage(message: seq<byte>) returns (ok: bool)
      requires Valid() && Loadable(State(), message)
      modifies this, data
      ensures Valid() && data == old(data) && (State(), ok) == Load(old(State()), message)
    {
      hide Value, Overwrite;
      var length := Value(message[2]);
      var at := counter * recordSize;
      if at + length > fileSize {
        return false;
      }
      CopyRecord(message[4..4 + length], at);
      counter := (counter + 1) % 0x1_0000;
      if counter == records {
        ready := true;
      }
      return true;
    }

    /** std::copy into the buffer; without a buffer there is nothing to copy. */
    method CopyRecord(bytes: seq<byte>, at: nat)
      requires Valid() && at + |bytes| <= fileSize
      modifies data
      ensures State() == old(State()).(bytes := Overwrite(old(State()).bytes, at, bytes))
    {
      if data != null {
        Put(data, at, bytes);
      }
    }
  }
}
