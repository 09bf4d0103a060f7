/** What a completed read transfer has assembled, compared with the server's file. */
module Image {
  import opened Bytes
  import opened Resources
  import opened Records
  import opened ClientFile
  import opened Chunks
  import opened Reading

  ghost predicate ReadParameters(fileSize: nat, size: nat) {
    && size > 0 && fileSize > 0
    && RecordsNeeded(fileSize, size) <= MAX_FILE_RECORDS
  }

  /** The size conditions under which every byte of the file is asked for. */
  predicate WholeFileRequested(fileSize: nat, size: nat)
    requires size > 0
  {
    size % 2 == 0 && (fileSize <= size || (fileSize % 2 == 0 && fileSize % size != 0))
  }

  /** A completed read has asked for byte j. */
  predicate AskedFor(f: FileState, j: nat) {
    Asked(f, j, f.records)
  }

  lemma ReadSetupReads(s: Store, index: nat, g: FileState, id: half, fileSize: nat)
    requires ReadyForReads(s, index) && Clean(g) && ReadParameters(fileSize, s.recordSize)
    ensures Reads(s, index, ReadSetup(g, id, fileSize, s.recordSize)) && !ReadSetup(g, id, fileSize, s.recordSize).ready
  {
    CountIsNeeded(fileSize, s.recordSize);
    RecordAccounting(g, id, fileSize, s.recordSize);
    hide RecordsNeeded, CountRecords, WellFormed;
  }

  /** How many records are needed, and how far the last one starts from the end. */
  lemma LastRecordStart(fileSize: nat, size: nat, n: nat)
    requires size > 0 && fileSize > 0 && n == RecordsNeeded(fileSize, size)
    ensures n > 0
    ensures (n - 1) * size == if fileSize % size == 0 then fileSize - size else fileSize - fileSize % size
    ensures (n - 1) * size == 0 <==> fileSize <= size
  {
    NextMultiple(n - 1, size);
    if n > 1 { TimesMonotone(1, n - 1, size); }
  }

  lemma EvenMultiple(m: nat, size: nat)
    requires size % 2 == 0
    ensures m * size % 2 == 0
  {
    assert m * size == 2 * (m * (size / 2));
  }

  lemma LastRecordLength(g: FileState, id: half, fileSize: nat, size: nat)
    requires ReadParameters(fileSize, size)
    ensures var f := ReadSetup(g, id, fileSize, size);
            && f.records == RecordsNeeded(fileSize, size) > 0 && f.recordSize == size
            && ActualRecordLength(f, f.records - 1) == (if fileSize <= size then size else fileSize % size)
            && f.fileSize == (if fileSize <= size then size else fileSize)
  {
    hide RecordsNeeded, CountRecords;
    CountIsNeeded(fileSize, size);
  }

  lemma RecordLength(g: FileState, id: half, fileSize: nat, size: nat, k: nat)
    requires ReadParameters(fileSize, size) && k < ReadSetup(g, id, fileSize, size).records
    ensures var f := ReadSetup(g, id, fileSize, size);
            ActualRecordLength(f, k) == if k + 1 < f.records || fileSize <= size then size else fileSize % size
  {
    hide RecordsNeeded, CountRecords;
    LastRecordLength(g, id, fileSize, size);
  }

  /** Which bytes are asked for: all half words of the full records, and those of the last one. */
  lemma AskedAt(g: FileState, id: half, fileSize: nat, size: nat, j: nat)
    requires ReadParameters(fileSize, size)
    ensures var f := ReadSetup(g, id, fileSize, size); var n := f.records;
            && n == RecordsNeeded(fileSize, size) > 0
            && (AskedFor(f, j) <==>
                  && j / size < n
                  && j % size < 2 * ((if j / size + 1 < n || fileSize <= size then size else fileSize % size) / 2))
  {
    hide RecordsNeeded, CountRecords, ReadSetup, ActualRecordLength;
    LastRecordLength(g, id, fileSize, size);
    if j / size < ReadSetup(g, id, fileSize, size).records { RecordLength(g, id, fileSize, size, j / size); }
  }

  lemma ParityOfSum(even: nat, rest: nat)
    requires even % 2 == 0
    ensures (even + rest) % 2 == rest % 2
  {
  }

  /** Where the last byte of the file is. */
  lemma LastPlace(fileSize: nat, size: nat, n: nat)
    requires size > 0 && fileSize > size && n == RecordsNeeded(fileSize, size)
    ensures (fileSize - 1) / size == n - 1
    ensures (fileSize - 1) % size == if fileSize % size == 0 then size - 1 else fileSize % size - 1
  {
    hide RecordsNeeded;
    LastRecordStart(fileSize, size, n);
    DivModUnique(fileSize - 1, size, n - 1, fileSize - 1 - (n - 1) * size);
  }

  lemma FewerMultiples(i: nat, n: nat, size: nat)
    requires i * size < n * size
    ensures i < n
  {
    if i >= n { TimesMonotone(n, i, size); }
  }

  /** Every byte of the file is in one of the records, and within its length. */
  lemma InTail(fileSize: nat, size: nat, n: nat, j: nat)
    requires size > 0 && fileSize > size && n == RecordsNeeded(fileSize, size) && j < fileSize
    ensures j / size < n && (j / size + 1 == n && fileSize % size != 0 ==> j % size < fileSize % size)
  {
    hide RecordsNeeded;
    LastRecordStart(fileSize, size, n);
    NextMultiple(n - 1, size);
    assert j == j / size * size + j % size;
    FewerMultiples(j / size, n, size);
  }

  /** Every byte is asked for exactly if the record size is even and the file fits one record, or its size is also
      even and not a multiple of the record size. */
  lemma AllAskedFor(g: FileState, id: half, fileSize: nat, size: nat)
    requires ReadParameters(fileSize, size)
    ensures var f := ReadSetup(g, id, fileSize, size);
            WholeFileRequested(fileSize, size) <==> forall j: nat :: j < f.fileSize ==> AskedFor(f, j)
  {
    hide RecordsNeeded, CountRecords, ActualRecordLength, ReadSetup, AskedFor;
    var f := ReadSetup(g, id, fileSize, size);
    LastRecordLength(g, id, fileSize, size);
    LastRecordStart(fileSize, size, f.records);
    if fileSize > size { LastPlace(fileSize, size, f.records); }
    if size % 2 == 0 && fileSize % size != 0 {
      EvenMultiple(f.records - 1, size);
      ParityOfSum((f.records - 1) * size, fileSize % size);
    }
    if WholeFileRequested(fileSize, size) {
      forall j: nat | j < f.fileSize ensures AskedFor(f, j) {
        AskedAt(g, id, fileSize, size, j);
        if fileSize > size { InTail(fileSize, size, f.records, j); } else { DivModUnique(j, size, 0, j); }
      }
    } else {
      var j: nat := if size % 2 == 1 then size - 1 else fileSize - 1;
      AskedAt(g, id, fileSize, size, j);
      if size % 2 == 1 { DivModUnique(j, size, 0, j); }
      assert j < f.fileSize && !AskedFor(f, j);
    }
  }

  /** What the client's file holds when all responses have been taken: the bytes asked for, and the initial zeros
      elsewhere. */
  lemma FinalImage(g: FileState, id: half, fileSize: nat, size: nat, content: seq<byte>)
    requires ReadParameters(fileSize, size) && Clean(g)
    requires ReadSetup(g, id, fileSize, size).fileSize <= |content|
    ensures var f := ReadSetup(g, id, fileSize, size); var h := ReadProgress(f, content, f.records);
            && |h.bytes| == h.fileSize == f.fileSize && h.ready
            && (forall j :: 0 <= j < f.fileSize ==> h.bytes[j] == if AskedFor(f, j) then content[j] else 0)
            && (h.bytes == content[..f.fileSize] <==>
                forall j :: 0 <= j < f.fileSize && !AskedFor(f, j) ==> content[j] == 0)
  {
    hide RecordsNeeded, CountRecords, ActualRecordLength, Asked;
    var f := ReadSetup(g, id, fileSize, size);
    CountIsNeeded(fileSize, size);
    var h := ReadProgress(f, content, f.records);
    forall j | 0 <= j < f.fileSize
      ensures h.bytes[j] == (if AskedFor(f, j) then content[j] else 0) && content[..f.fileSize][j] == content[j]
    {
    }
  }

  /** A completed read copies the file for every content exactly under these size conditions. */
  lemma ReadCopiesEveryContent(g: FileState, id: half, fileSize: nat, size: nat)
    requires ReadParameters(fileSize, size) && Clean(g)
    ensures var f := ReadSetup(g, id, fileSize, size);
            WholeFileRequested(fileSize, size) <==>
            forall content: seq<byte> :: f.fileSize <= |content|
                ==> ReadProgress(f, content, f.records).bytes == content[..f.fileSize]
  {
    hide RecordsNeeded, CountRecords, ActualRecordLength, ReadProgress, AskedFor, ReadSetup;
    var f := ReadSetup(g, id, fileSize, size);
    AllAskedFor(g, id, fileSize, size);
    if WholeFileRequested(fileSize, size) {
      forall content: seq<byte> | f.fileSize <= |content|
        ensures ReadProgress(f, content, f.records).bytes == content[..f.fileSize]
      {
        FinalImage(g, id, fileSize, size, content);
      }
    } else {
      var content := Repeat(1, f.fileSize);
      FinalImage(g, id, fileSize, size, content);
      var j: nat :| j < f.fileSize && !AskedFor(f, j);
      assert content[j] == 1;
    }
  }

  /** The file becomes ready with the last record and not before. */
  lemma ReadyAtTheEnd(g: FileState, id: half, fileSize: nat, size: nat, content: seq<byte>, k: nat)
    requires ReadParameters(fileSize, size) && Clean(g)
    requires k <= ReadSetup(g, id, fileSize, size).records
    ensures var f := ReadSetup(g, id, fileSize, size); ReadProgress(f, content, k).ready <==> k == f.records
  {
    hide RecordsNeeded, CountRecords, ActualRecordLength, Assembled;
    CountIsNeeded(fileSize, size);
  }
}
