/** Record arithmetic of the client's file buffer. */
module Chunks {
  import opened Bytes
  import opened ClientFile

  lemma TimesMonotone(a: nat, b: nat, size: nat)
    requires a <= b
    ensures a * size <= b * size
  {
  }

  lemma NextMultiple(a: nat, size: nat)
    ensures (a + 1) * size == a * size + size
  {
  }

  // ---------- Writing: the slices are the content and its padding ----------

  ghost function Concatenated(bytes: seq<byte>, size: nat, n: nat): seq<byte>
    requires n * size <= |bytes|
  {
    if n == 0 then []
    else
      NextMultiple(n - 1, size);
      Concatenated(bytes, size, n - 1) + Slice(bytes, size, n - 1)
  }

  lemma TakeNext(bytes: seq<byte>, at: nat, size: nat)
    requires at + size <= |bytes|
    ensures bytes[..at] + bytes[at..at + size] == bytes[..at + size]
  {
  }

  lemma {:induction false} ConcatenatedIsPrefix(bytes: seq<byte>, size: nat, n: nat)
    requires n * size <= |bytes|
    ensures Concatenated(bytes, size, n) == bytes[..n * size]
  {
    if n > 0 {
      NextMultiple(n - 1, size);
      ConcatenatedIsPrefix(bytes, size, n - 1);
      TakeNext(bytes, (n - 1) * size, size);
    }
  }

  /** The slices of a prepared file are its content followed by less than a record of 0xFF. */
  lemma WriteChunks(f: FileState, id: half, content: seq<byte>, size: nat)
    requires size > 0 && |content| > 0 && RecordsNeeded(|content|, size) <= MAX_FILE_RECORDS
    ensures var g := WriteSetup(f, id, content, size);
            && g.records > 0 && |g.bytes| == g.records * size
            && Concatenated(g.bytes, size, g.records) == g.bytes
            && content <= g.bytes
            && |g.bytes| - |content| < size
            && forall k :: |content| <= k < |g.bytes| ==> g.bytes[k] == 0xFF
  {
    hide RecordsNeeded, CountRecords;
    var g := WriteSetup(f, id, content, size);
    CountIsNeeded(|content|, size);
    ConcatenatedIsPrefix(g.bytes, size, g.records);
  }

  // ---------- Reading: how much the record lengths add up to ----------

  ghost function SumOfLengths(f: FileState, n: nat): nat {
    if n == 0 then 0 else SumOfLengths(f, n - 1) + ActualRecordLength(f, n - 1)
  }

  /** A record that the file does not have has no length. */
  lemma NoSuchRecord(f: FileState, i: int)
    requires i < 0 || i >= f.records
    ensures ActualRecordLength(f, i) == 0
  {
  }

  lemma {:induction false} SumOfFullRecords(f: FileState, n: nat)
    requires n < f.records || n == 0
    ensures SumOfLengths(f, n) == n * f.recordSize
  {
    if n > 0 {
      SumOfFullRecords(f, n - 1);
      NextMultiple(n - 1, f.recordSize);
    }
  }

  /** The lengths add up to the stored size unless that is two or more whole records; then one record is missing. */
  lemma RecordAccounting(f: FileState, id: half, fileSize: nat, size: nat)
    requires size > 0 && fileSize > 0 && RecordsNeeded(fileSize, size) <= MAX_FILE_RECORDS
    ensures var g := ReadSetup(f, id, fileSize, size);
            && (SumOfLengths(g, g.records) == g.fileSize <==> g.fileSize == size || g.fileSize % size != 0)
            && (SumOfLengths(g, g.records) != g.fileSize ==> SumOfLengths(g, g.records) + size == g.fileSize)
            && forall i :: 0 <= i < g.records ==> i * size + ActualRecordLength(g, i) <= g.fileSize
  {
    var g := ReadSetup(f, id, fileSize, size);
    CountIsNeeded(fileSize, size);
    SumOfFullRecords(g, g.records - 1);
    NextMultiple(g.records - 1, size);
    forall i | 0 <= i < g.records ensures i * size + ActualRecordLength(g, i) <= g.fileSize {
      TimesMonotone(i, g.records - 1, size);
      NextMultiple(i, size);
      if i + 1 < g.records { TimesMonotone(i + 1, g.records - 1, size); }
    }
  }
}
