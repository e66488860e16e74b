/**
  The MapReduce record reader that reads the records of one input split of an
  Avro container file, yielding each as the key of a key/value pair.
*/
module AvroMapReduce {
  import opened Wrappers
  import opened Exceptions
  import opened ContainerFile
  import opened DataFile

  /** A reader schema, as its JSON text; decoding against it is not modelled. */
  type Schema = string

  /** Hadoop's input split: a FileSplit is the byte range [start, start + length)
      of one file; the reader supports no other kind of split. */
  datatype InputSplit = FileSplit(path: string, start: int, length: int) | OtherSplit

  /** Hadoop's NullWritable singleton, the value of every pair. */
  datatype NullWritable = NullWritable

  /** Avro's AvroKey: a mutable holder for one datum (None is Java's null). */
  class AvroKey<T> {
    var datum: Option<T>

    constructor (datum: Option<T>)
      ensures this.datum == datum
    {
      this.datum := datum;
    }
  }

  function Min(a: real, b: real): real {
    if a <= b then a else b
  }

  function Max(a: real, b: real): real {
    if a <= b then b else a
  }

  /** The progress formula as the reader computes it: 0 for an empty split,
      and otherwise the bytes crossed since the start over the split's
      nominal size, capped at 1 (on reals rather than floats). */
  function ProgressAsWritten(previousSync: int, start: int, end: int): (p: real)
    ensures p <= 1.0
    ensures end == start ==> p == 0.0
  {
    if end == start then 0.0
    else Min(1.0, (previousSync - start) as real / (end - start) as real)
  }

  /** The corrected progress: the formula above, also kept from going below
      0, so that it stays in [0, 1] and never goes down.  It agrees with the
      formula whenever the split's start block begins before its end and the
      previous sync is at or past the start position. */
  function Progress(previousSync: int, start: int, end: int): (p: real)
    ensures 0.0 <= p <= 1.0
    ensures end == start ==> p == 0.0
    ensures start < end && start <= previousSync ==> p == ProgressAsWritten(previousSync, start, end)
  {
    Max(0.0, ProgressAsWritten(previousSync, start, end))
  }

  /** The corrected progress never goes down while the reader moves forward
      from its start. */
  lemma ProgressMonotone(start: int, end: int, p1: int, p2: int)
    requires start <= p1 <= p2
    ensures Progress(p1, start, end) <= Progress(p2, start, end)
  {
    if start < end {
      var d := (end - start) as real;
      assert (p2 - start) as real / d - (p1 - start) as real / d == (p2 - p1) as real / d;
    } else if end < start {
      var d := (end - start) as real;
      assert (p1 - start) as real / d <= 0.0;
      assert (p2 - start) as real / d <= 0.0;
    }
  }

  /** When the split's start block begins before its end, the formula as
      written stays at or above 0 and never goes down as the reader moves
      forward from its start. */
  lemma ProgressAsWrittenMonotone(start: int, end: int, p1: int, p2: int)
    requires start < end && start <= p1 <= p2
    ensures 0.0 <= ProgressAsWritten(p1, start, end) <= ProgressAsWritten(p2, start, end)
  {
    ProgressMonotone(start, end, p1, p2);
  }

  /** The formula as written drops from 0 to below 0 once the owned block has
      been read: the split [0, 30) of the two-block file owns the first
      block, because that block's marker starts at 20, yet its start position
      36 lies past the split's end 30; reading that block moves the previous
      sync from 36 to 76. */
  lemma ProgressAsWrittenCanDecrease()
    ensures WellFormed(TwoBlockFile())
    ensures FirstSyncAtOrAfter(TwoBlockFile(), 0) == 0 && FirstSyncAtOrAfter(TwoBlockFile(), 30) == 1
    ensures BlockStart(TwoBlockFile(), 0) == 36 && BlockStart(TwoBlockFile(), 1) == 76
    ensures SplitRecords(TwoBlockFile(), 0, 30) == ["record1", "record2"]
    ensures ProgressAsWritten(36, 36, 30) == 0.0
    ensures ProgressAsWritten(76, 36, 30) < 0.0
    ensures Progress(76, 36, 30) == Progress(36, 36, 30) == 0.0
  {
    var f := TwoBlockFile();
    TwoBlockFileWellFormed();
    FirstSyncUnique(f, 0, 0);
    FirstSyncUnique(f, 30, 1);
    assert f.blocks[0..1] == [f.blocks[0]];
    assert (76 - 36) as real / (30 - 36) as real < 0.0;
  }

  class AvroKeyRecordReader<T> {
    /** The schema records are read with. */
    const readerSchema: Schema
    /** The one holder every record is read into. */
    const currentRecord: AvroKey<T>
    /** The container-file reader, null before initialize and after close. */
    var fileReader: DataFileReader?<T>
    /** The first byte of the first block whose marker starts at or after the
        split's start, or the file length. */
    var startPosition: int
    /** The split's nominal end, start + length. */
    var endPosition: int

    /** The split's start offset. */
    ghost var splitStart: int
    /** The records yielded since initialize. */
    ghost var yielded: seq<T>
    /** The records the split reader will still yield. */
    ghost var pending: seq<T>

    /** Once initialized, the reader has not left the blocks from the split's
        first owned block on, and the records it yielded followed by those it
        will still yield are the split's records. */
    ghost predicate Valid()
      reads this, fileReader
    {
      fileReader != null ==>
        fileReader.Valid() &&
        ReaderState(fileReader.file, splitStart, startPosition, endPosition, fileReader.cursor, yielded, pending)
    }

    constructor (readerSchema: Schema)
      ensures Valid() && this.readerSchema == readerSchema
      ensures fresh(currentRecord) && currentRecord.datum == None
      ensures fileReader == null && yielded == []
    {
      this.readerSchema := readerSchema;
      currentRecord := new AvroKey(None);
      fileReader := null;
      startPosition, endPosition := 0, 0;
      splitStart, yielded, pending := 0, [], [];
    }

    /** Opens the split's file and aligns to the first block whose marker
        starts at or after the split's start.  `input` is what opening the
        file yields: a container file, or None when opening raised an I/O
        error. */
    method Initialize(split: InputSplit, input: Option<File<T>>) returns (r: Outcome<Exception>)
      requires Valid()
      requires input.Some? ==> WellFormed(input.value)
      modifies this
      ensures Valid()
      ensures !split.FileSplit? ==>
                r == Fail(IllegalArgument("Only compatible with FileSplits.")) && unchanged(this)
      ensures split.FileSplit? && input.None? ==> r == Fail(IOError) && unchanged(this)
      ensures split.FileSplit? && input.Some? ==>
                r == Pass && fresh(fileReader) && fileReader.file == input.value && !fileReader.closed &&
                fileReader.cursor == Cursor(FirstSyncAtOrAfter(input.value, split.start), 0) &&
                startPosition == fileReader.PreviousSync() &&
                endPosition == split.start + split.length &&
                splitStart == split.start && yielded == [] &&
                pending == SplitRecords(input.value, split.start, split.length)
    {
      if !split.FileSplit? {
        return Fail(IllegalArgument("Only compatible with FileSplits."));
      }
      if input.None? {
        return Fail(IOError);
      }
      OpenAt(input.value, split.start, split.length);
      r := Pass;
    }

    /** The success path of initialize: opens the container file f and aligns
        to the split [start, start + length). */
    method OpenAt(f: File<T>, start: int, length: int)
      requires WellFormed(f)
      modifies this
      ensures Valid()
      ensures fresh(fileReader) && fileReader.file == f && !fileReader.closed &&
              fileReader.cursor == Cursor(FirstSyncAtOrAfter(f, start), 0) &&
              startPosition == fileReader.PreviousSync() &&
              endPosition == start + length &&
              splitStart == start && yielded == [] &&
              pending == SplitRecords(f, start, length)
    {
      var end := start + length;
      var reader := new DataFileReader.Open(f);
      reader.Sync(start);
      fileReader, startPosition, endPosition := reader, reader.PreviousSync(), end;
      splitStart, yielded, pending := start, [], SplitRecords(f, start, length);
      ReaderStateInitial(f, splitStart, startPosition, endPosition, reader.cursor, yielded, pending);
    }

    /** Reads the next record of the split into the holder, unless the file
        is exhausted or the reader is past the sync point for the split's end. */
    method NextKeyValue() returns (more: bool)
      requires Valid() && fileReader != null
      modifies this`yielded, this`pending, fileReader`cursor, currentRecord`datum
      ensures Valid()
      ensures more == (old(fileReader.HasNext()) && !old(fileReader.PastSync(endPosition)))
      ensures more == (old(pending) != [])
      ensures more ==>
                currentRecord.datum.Some? &&
                [currentRecord.datum.value] + pending == old(pending) &&
                yielded == old(yielded) + [currentRecord.datum.value] &&
                fileReader.cursor == Advance(fileReader.file, old(fileReader.cursor))
      ensures !more ==>
                fileReader.cursor == old(fileReader.cursor) &&
                currentRecord.datum == old(currentRecord.datum) &&
                yielded == old(yielded) == SplitRecords(fileReader.file, splitStart, endPosition - splitStart)
      ensures startPosition <= old(fileReader.PreviousSync()) <= fileReader.PreviousSync()
      ensures startPosition < endPosition ==>
                old(ProgressAsWritten(fileReader.PreviousSync(), startPosition, endPosition))
                <= ProgressAsWritten(fileReader.PreviousSync(), startPosition, endPosition)
    {
      var f := fileReader.file;
      ghost var c := fileReader.cursor;
      var hi := FirstSyncAtOrAfter(f, endPosition);
      RecordsBetweenEmpty(f, c, hi);
      BlockStartMonotone(f, FirstSyncAtOrAfter(f, splitStart), c.block);
      BeforeFirstSync(f, c.block, endPosition);
      if fileReader.HasNext() && !fileReader.PastSync(endPosition) {
        var before := fileReader.PreviousSync();
        ReadRecord();
        if startPosition < endPosition {
          ProgressAsWrittenMonotone(startPosition, endPosition, before, fileReader.PreviousSync());
        }
        more := true;
      } else {
        ReaderStateDone(f, splitStart, startPosition, endPosition, c, yielded, pending);
        more := false;
      }
    }

    /** The reading branch of nextKeyValue: reads the record at the cursor
        into the holder. */
    method ReadRecord()
      requires Valid() && fileReader != null
      requires fileReader.cursor.block < FirstSyncAtOrAfter(fileReader.file, endPosition)
      modifies this`yielded, this`pending, fileReader`cursor, currentRecord`datum
      ensures Valid()
      ensures currentRecord.datum.Some? &&
              [currentRecord.datum.value] + pending == old(pending) &&
              yielded == old(yielded) + [currentRecord.datum.value] &&
              fileReader.cursor == Advance(fileReader.file, old(fileReader.cursor))
      ensures old(fileReader.PreviousSync()) <= fileReader.PreviousSync()
    {
      ghost var c := fileReader.cursor;
      ReaderStateStep(fileReader.file, splitStart, startPosition, endPosition, c, yielded, pending);
      var d := fileReader.Next(currentRecord.datum);
      currentRecord.datum := Some(d);
      yielded, pending := yielded + [d], pending[1..];
    }

    /** The holder, the same object on every call. */
    method GetCurrentKey() returns (key: AvroKey<T>)
      ensures key == currentRecord
    {
      key := currentRecord;
    }

    /** The value of every pair: the NullWritable singleton. */
    method GetCurrentValue() returns (value: NullWritable)
      ensures value == NullWritable
    {
      value := NullWritable;
    }

    /** The fraction of the split read so far, estimated from block positions:
        never above 1, and at or above 0 unless the start position lies past
        the split's end. */
    method GetProgress() returns (p: real)
      requires Valid() && fileReader != null
      ensures p <= 1.0
      ensures endPosition == startPosition ==> p == 0.0
      ensures endPosition != startPosition ==>
                p == Min(1.0, (fileReader.PreviousSync() - startPosition) as real
                              / (endPosition - startPosition) as real)
      ensures startPosition <= endPosition ==> 0.0 <= p
      ensures p == ProgressAsWritten(fileReader.PreviousSync(), startPosition, endPosition)
    {
      BlockStartMonotone(fileReader.file, FirstSyncAtOrAfter(fileReader.file, splitStart), fileReader.cursor.block);
      if endPosition == startPosition {
        return 0.0;
      }
      var bytesRead := fileReader.PreviousSync() - startPosition;
      var bytesTotal := endPosition - startPosition;
      p := Min(1.0, bytesRead as real / bytesTotal as real);
    }

    /** Closes the container-file reader if there is one and drops it, even
        when closing it fails; `ioFails` stands for that failure. */
    method Close(ioFails: bool) returns (r: Outcome<Exception>)
      requires Valid()
      modifies this`fileReader, fileReader
      ensures Valid() && fileReader == null
      ensures old(fileReader) == null ==> r == Pass
      ensures old(fileReader) != null ==>
                old(fileReader).closed && r == if ioFails then Fail(IOError) else Pass
    {
      r := Pass;
      if fileReader != null {
        r := fileReader.Close(ioFails);
        fileReader := null;
      }
    }
  }

  /** One turn of the loop below: the record just taken moves from the
      front of what is left to the end of what was taken. */
  lemma TakeShift<T>(records: seq<T>, x: T, left: seq<T>, pending: seq<T>, rest: seq<T>)
    requires records + left == rest && [x] + pending == left
    ensures records + [x] + pending == rest
  {
    assert records + [x] + pending == records + ([x] + pending);
  }

  /** The loop of a task over an initialized reader: call NextKeyValue until
      it answers false, taking the holder's datum after each true answer. */
  method TakeAll<T>(reader: AvroKeyRecordReader<T>) returns (records: seq<T>)
    requires reader.Valid() && reader.fileReader != null
    modifies reader, reader.fileReader, reader.currentRecord
    ensures reader.Valid() && reader.fileReader == old(reader.fileReader)
    ensures records == old(reader.pending)
  {
    records := [];
    ghost var rest := reader.pending;
    var more := reader.NextKeyValue();
    while more
      invariant reader.Valid() && reader.fileReader == old(reader.fileReader)
      invariant more ==> reader.currentRecord.datum.Some? &&
                         records + [reader.currentRecord.datum.value] + reader.pending == rest
      invariant !more ==> records == rest
      decreases |reader.pending|, more
    {
      var key := reader.GetCurrentKey();
      ghost var left := reader.pending;
      records := records + [key.datum.value];
      more := reader.NextKeyValue();
      if more {
        TakeShift(records, reader.currentRecord.datum.value, left, reader.pending, rest);
      }
    }
  }

  /** How a task drives the reader: initialize it, take every record, then
      close it.  The records taken are exactly the split's records. */
  method ReadSplit<T>(readerSchema: Schema, split: InputSplit, input: Option<File<T>>, closeFails: bool)
    returns (r: Result<seq<T>, Exception>)
    requires input.Some? ==> WellFormed(input.value)
    ensures !split.FileSplit? ==> r == Failure(IllegalArgument("Only compatible with FileSplits."))
    ensures split.FileSplit? && input.None? ==> r == Failure(IOError)
    ensures split.FileSplit? && input.Some? ==>
              r == if closeFails then Failure(IOError)
                   else Success(SplitRecords(input.value, split.start, split.length))
  {
    var reader := new AvroKeyRecordReader<T>(readerSchema);
    var init := reader.Initialize(split, input);
    if init.Fail? {
      var ignored := reader.Close(closeFails);
      return Failure(init.error);
    }
    var records := TakeAll(reader);
    var closed := reader.Close(closeFails);
    if closed.Fail? {
      return Failure(closed.error);
    }
    return Success(records);
  }
}
