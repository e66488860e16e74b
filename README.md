# AvroKeyRecordReader, modelled in Dafny

This project models the Hadoop record reader `AvroKeyRecordReader`. The
reader reads the records of one input split of an Avro object container
file. The split is an arbitrary byte range `[start, start + length)`. The
reader never reads part of a block:

- it syncs to the first sync marker at or after `start`;
- it yields records while the container reader has more and is not past the
  sync point for `start + length`;
- it reports progress from block positions;
- its `close` is null-guarded.

Every record of the split is yielded as the key of a key/value pair. The
key is always the same `AvroKey` holder. The value is `NullWritable`.

The project has four files.

- `wrappers.dfy`: `Option`, `Outcome` and `Result` stand in for Java's
  `null` and exceptions. `Exception` names the two exceptions the reader can
  raise.
- `container.dfy` (module `ContainerFile`) models an Avro container file at
  block granularity:
  - `syncs[i]` is the offset where the 16-byte marker before block `i`
    starts (block 0 follows the header's marker);
  - `blocks[i]` holds that block's records;
  - the ownership rule: split `[s, s + len)` owns block `k` when
    `s <= syncs[k] < s + len`.

  Its lemmas relate what one split reads (`SplitRecords`) to the blocks it
  owns, and what contiguous splits read together to the whole file.
- `datafile.dfy` (module `DataFile`) models Avro's `DataFileReader` at block
  granularity. The library's own source is not modelled; the class takes
  only its block-level behaviour:
  - `previousSync()` is the first byte after the most recently crossed
    marker, which is the start of the block holding the next record, or
    the file length at the end of the file;
  - `pastSync(p)` holds when `previousSync() >= p + 16` or when
    `previousSync()` is the file length;
  - `sync(p)` moves to the first marker starting at or after `p`.

  If `previousSync()` were instead the offset where the marker starts, the
  start position of a split that owns a block could never lie past the
  split's end, and the finding below would not arise. (A split that owns
  no block has a start position at or past its end under either reading,
  equal to it for example for a last split [90, 100) of a 100-byte file;
  its reader yields nothing and its progress stays at 0.) This model puts it after the marker, as Avro's
  reader does. Under either reading, a block belongs to the split that
  holds the start of its marker.
- `recordreader.dfy` (module `AvroMapReduce`) holds:
  - the `AvroKey` holder and the `AvroKeyRecordReader` class, whose fields
    mirror the Java fields;
  - the progress formula;
  - `TakeAll` and `ReadSplit`, which drive the reader through its lifecycle
    the way a Hadoop task does.

  Ghost fields `splitStart`, `yielded` and `pending` record the split's
  start, the records yielded so far and the records still to come. The
  lemmas in `ContainerFile` tie these to `SplitRecords` through
  `ReaderState`.

## Model

| member | source | states |
|---|---|---|
| ContainerFile.FirstSyncAtOrAfter | src/main/java/org/apache/avro/mapreduce/AvroKeyRecordReader.java:82-83 | the block at which syncing to an offset lands: every earlier block's marker starts before the offset, and every block from it on starts at or after it |
| ContainerFile.BlockStart | src/main/java/org/apache/avro/mapreduce/AvroKeyRecordReader.java:85-86 | a block's first byte (or the file length past the last block) lies after the markers of all earlier blocks and within the file |
| ContainerFile.Advance | src/main/java/org/apache/avro/mapreduce/AvroKeyRecordReader.java:99 | reading one record keeps the cursor valid and moves it at most one block forward |
| ContainerFile.AdvanceReadsOne | src/main/java/org/apache/avro/mapreduce/AvroKeyRecordReader.java:99 | the record read is the first of those still ahead of the cursor, and the rest stay ahead of the advanced cursor |
| ContainerFile.BeforeFirstSync | src/main/java/org/apache/avro/mapreduce/AvroKeyRecordReader.java:98 | a reader is still before the split's end block exactly when some block ahead of it has its marker before the end, which is the negation of the pastSync test |
| ContainerFile.ReaderStateInitial | src/main/java/org/apache/avro/mapreduce/AvroKeyRecordReader.java:83-90 | after sync(start) the reader is at the split's first block, has yielded nothing, and all of the split's records are still to come |
| ContainerFile.ReaderStateStep | src/main/java/org/apache/avro/mapreduce/AvroKeyRecordReader.java:98-100 | reading a record inside the split moves the first pending record to the end of the yielded records and keeps the split state |
| ContainerFile.ReaderStateDone | src/main/java/org/apache/avro/mapreduce/AvroKeyRecordReader.java:98-102 | once the reader reaches the split's end block nothing is pending, and the records yielded are exactly the split's records |
| ContainerFile.Owns | src/main/java/org/apache/avro/mapreduce/AvroKeyRecordReader.java:77-80 | the ownership rule: a split owns a block when the block's marker starts inside the split, which can only happen for a split of positive length that starts inside the file |
| ContainerFile.SplitRecords | src/main/java/org/apache/avro/mapreduce/AvroKeyRecordReader.java:77-83 | the records a split yields are those of the blocks from the first marker at or after its start up to the first marker at or after its end; a split of length 0 or less yields none |
| ContainerFile.ReadsExactlyOwnedBlocks | src/main/java/org/apache/avro/mapreduce/AvroKeyRecordReader.java:77-80 | the blocks a split reads, from the first marker at or after its start up to the first marker at or after its end, are exactly the blocks whose marker starts inside the split (both directions) |
| ContainerFile.SplitYieldsOwnedBlocks | src/main/java/org/apache/avro/mapreduce/AvroKeyRecordReader.java:77-80 | a split's records equal those of an independent block-by-block filter on the ownership rule, in file order |
| ContainerFile.AdjacentSplits | src/main/java/org/apache/avro/mapreduce/AvroKeyRecordReader.java:77-80 | two adjacent splits together read exactly what the one split covering both reads, in order, with no record lost or repeated |
| ContainerFile.ContiguousSplits | src/main/java/org/apache/avro/mapreduce/AvroKeyRecordReader.java:77-80 | any sequence of contiguous splits reads what the single split from the first cut to the last reads |
| ContainerFile.PartitionReadsWholeFile | src/main/java/org/apache/avro/mapreduce/AvroKeyRecordReader.java:77-80 | contiguous splits that cover the file read every record of the file once, in file order |
| ContainerFile.BlockHasAnOwner | src/main/java/org/apache/avro/mapreduce/AvroKeyRecordReader.java:77-80 | for contiguous splits spanning a block's marker, some split owns that block |
| ContainerFile.BlockHasAtMostOneOwner | src/main/java/org/apache/avro/mapreduce/AvroKeyRecordReader.java:77-80 | no two of the contiguous splits own the same block |
| ContainerFile.TwoBlockSplits | src/main/java/org/apache/avro/mapreduce/AvroKeyRecordReader.java:83-99 | in a file of two blocks of two records, the split [0, 60) reads record1 and record2, and the split [21, 100), which starts one byte after the first byte of the header's marker, reads record3 and record4 |
| DataFile.DataFileReader.Open | src/main/java/org/apache/avro/mapreduce/AvroKeyRecordReader.java:74-75 | a freshly opened reader is open, at the first record, with every record of the file ahead of it |
| DataFile.DataFileReader.HasNext | src/main/java/org/apache/avro/mapreduce/AvroKeyRecordReader.java:98 | true exactly when some record is left to read |
| DataFile.DataFileReader.PreviousSync | src/main/java/org/apache/avro/mapreduce/AvroKeyRecordReader.java:86 | the previous sync is within the file and past the markers of all blocks already left behind |
| DataFile.DataFileReader.PastSync | src/main/java/org/apache/avro/mapreduce/AvroKeyRecordReader.java:98 | true exactly when no block still ahead of the cursor has its marker starting before the position |
| DataFile.DataFileReader.Sync | src/main/java/org/apache/avro/mapreduce/AvroKeyRecordReader.java:83 | moves to the start of the first block whose marker starts at or after the position, after which the reader is past that sync point |
| DataFile.DataFileReader.Next | src/main/java/org/apache/avro/mapreduce/AvroKeyRecordReader.java:99 | returns the record at the cursor, advances past it, leaves the remaining records ahead, and never moves the previous sync backwards |
| DataFile.DataFileReader.Close | src/main/java/org/apache/avro/mapreduce/AvroKeyRecordReader.java:137 | the reader ends closed; it reports an I/O error exactly when the underlying close fails |
| AvroMapReduce.ProgressAsWritten | src/main/java/org/apache/avro/mapreduce/AvroKeyRecordReader.java:122-129 | the progress formula as the code computes it: 0 for an empty split, never above 1 |
| AvroMapReduce.Progress | src/main/java/org/apache/avro/mapreduce/AvroKeyRecordReader.java:122-129 | the corrected progress of the finding below (not what the code reports): it lies in [0, 1], is 0 for an empty split, and agrees with the formula as written whenever the split's start block begins before its end and the previous sync is at or past the start position (which the reader's invariant guarantees) |
| AvroMapReduce.ProgressMonotone | src/main/java/org/apache/avro/mapreduce/AvroKeyRecordReader.java:126-129 | the corrected progress never goes down as the previous sync moves forward from the start position |
| AvroMapReduce.ProgressAsWrittenMonotone | src/main/java/org/apache/avro/mapreduce/AvroKeyRecordReader.java:126-129 | when the start position lies before the end position, the formula as written is at least 0 and never goes down as the previous sync moves forward from the start position |
| AvroMapReduce.ProgressAsWrittenCanDecrease | src/main/java/org/apache/avro/mapreduce/AvroKeyRecordReader.java:126-129 | for the split [0, 30) of the two-block file, the formula as written is 0 at the start and negative after the owned block is read |
| AvroMapReduce.AvroKeyRecordReader.constructor | src/main/java/org/apache/avro/mapreduce/AvroKeyRecordReader.java:55-58 | keeps the reader schema, allocates one new holder with a null datum, and opens no container reader |
| AvroMapReduce.AvroKeyRecordReader.Initialize | src/main/java/org/apache/avro/mapreduce/AvroKeyRecordReader.java:62-91 | a split that is not a FileSplit raises IllegalArgumentException("Only compatible with FileSplits.") and changes nothing; a failed open raises an I/O error and changes nothing; otherwise a new open reader sits at the first block at or after the start, the start position is its previous sync, the end position is start + length, and the split's records are all pending |
| AvroMapReduce.AvroKeyRecordReader.OpenAt | src/main/java/org/apache/avro/mapreduce/AvroKeyRecordReader.java:74-90 | the success path of initialize: opens a new reader, syncs it to the split's start, and records the start and end positions |
| AvroMapReduce.AvroKeyRecordReader.NextKeyValue | src/main/java/org/apache/avro/mapreduce/AvroKeyRecordReader.java:95-103 | answers true exactly when the container reader has a next record and is not past the sync point for the end, and exactly when a split record is pending; on true the holder's datum becomes that record and the cursor advances past it; on false the cursor and the holder are unchanged and the split's records have all been yielded; the previous sync never goes down, and when the start position lies before the end position neither does the progress as the code computes it |
| AvroMapReduce.AvroKeyRecordReader.ReadRecord | src/main/java/org/apache/avro/mapreduce/AvroKeyRecordReader.java:99-100 | the reading branch: the holder gets the first pending record and the cursor advances past it |
| AvroMapReduce.AvroKeyRecordReader.GetCurrentKey | src/main/java/org/apache/avro/mapreduce/AvroKeyRecordReader.java:107-109 | returns the one holder allocated by the constructor |
| AvroMapReduce.AvroKeyRecordReader.GetCurrentValue | src/main/java/org/apache/avro/mapreduce/AvroKeyRecordReader.java:113-115 | returns the NullWritable singleton |
| AvroMapReduce.AvroKeyRecordReader.GetProgress | src/main/java/org/apache/avro/mapreduce/AvroKeyRecordReader.java:119-130 | reports the formula as written: 0 when the end position equals the start position, otherwise min(1, (previousSync - start) / (end - start)); never above 1; at least 0 whenever the start position does not lie past the end position |
| AvroMapReduce.AvroKeyRecordReader.Close | src/main/java/org/apache/avro/mapreduce/AvroKeyRecordReader.java:134-142 | with no open reader it does nothing and succeeds, so a second close is harmless; otherwise it closes the reader and drops the reference even when closing fails, passing that failure on |
| AvroMapReduce.TakeAll | src/main/java/org/apache/avro/mapreduce/AvroKeyRecordReader.java:95-109 | calling nextKeyValue until it answers false, taking the holder's datum after each true answer, collects exactly the records that were pending |
| AvroMapReduce.ReadSplit | src/main/java/org/apache/avro/mapreduce/AvroKeyRecordReader.java:55-142 | the whole lifecycle (construct, initialize, read to the end, close) yields exactly the records of the blocks the split owns, or the exception initialize or close raised |

## Left out

- Byte-level work inside Avro's `DataFileReader` and `SpecificDatumReader`
  is not modelled: scanning for the marker, parsing the header, block
  decompression and datum decoding. Those classes are not part of this
  model, and only their block-level behaviour is.
- `createSeekableInput` and `createAvroFileReader` (lines 151-166) and the
  Hadoop types they use (`FsInput`, `Path`, `Configuration`,
  `TaskAttemptContext`) are not modelled. One parameter, `input`, stands
  for them: it holds the opened file, or `None` when opening raised an
  `IOException`.
- AvroMapReduce.AvroKeyRecordReader.GetProgress: computes on reals instead
  of IEEE `float`, so rounding is not modelled. The debug logging at line
  128 is left out.
- AvroMapReduce.AvroKeyRecordReader.Initialize: computes
  `start + length` on unbounded integers. Java's 64-bit `long` addition
  could wrap, which only matters for lengths near 2^63.
- AvroMapReduce.AvroKeyRecordReader.Initialize: a second `initialize`
  drops the earlier reader without closing it, as the code does. The model
  does not track the leaked stream.
- AvroMapReduce.AvroKeyRecordReader.Initialize: all-or-nothing for I/O
  errors. If `sync` at line 83 raises an `IOException`, Java has already
  assigned the new reader at line 74, so the object is left holding a fresh
  open reader and the start and end positions of the previous split; the
  model has no such state. If `createAvroFileReader` raises, the `FsInput`
  opened at line 71 is never closed; the model does not track that leak.
- AvroMapReduce.AvroKeyRecordReader.NextKeyValue: I/O errors raised by
  `hasNext`, `pastSync` or `next` are not modelled. The container file is
  assumed readable once opened.
- AvroMapReduce.AvroKeyRecordReader.NextKeyValue: the Java `assert null !=
  mAvroFileReader` becomes the precondition `fileReader != null`. The same
  holds for GetProgress. `InterruptedException` is never raised.
- The reader schema is stored but no records are decoded against it.
  Records are opaque values of type `T`. The reuse object passed to `next`
  is only an allocation hint and does not affect the result. Records are
  values in the model, so aliasing is not captured: Java's `next(reuse)`
  may refill the same object, which overwrites a datum the caller took
  from the holder earlier.
- DataFile.DataFileReader.HasNext, PastSync, Sync and Next: `Valid()` does
  not include `!closed`, so the model lets these run on a closed reader,
  where Avro's reader would fail. No path of `AvroKeyRecordReader` reaches
  that state, because its `close` drops the reference to the reader.
- Blocks are assumed non-empty, because Avro's writer never flushes an
  empty block. A file whose markers are corrupted or repeated inside block
  data is not modelled.
- `AvroJob`, `AvroKeyOutputFormat`, `AvroValueDeserializer` and the test
  files are configuration plumbing around foreign classes, or tests of
  unseen classes, and are not modelled.

## Findings

| source | as written | input that shows it | evidently intended | confidence | as-written member | corrected member |
|---|---|---|---|---|---|---|
| src/main/java/org/apache/avro/mapreduce/AvroKeyRecordReader.java:126-129 | `min(1, (previousSync - mStartPosition) / (mEndPosition - mStartPosition))`, where `mStartPosition` is the first byte after the marker `sync` found. If the split's end falls strictly inside the 16 bytes of the marker of the first block the split owns (which is then the only block it owns), then `mStartPosition > mEndPosition`. The ratio is then 0 at the start, stays 0 while that block's records are read, and is negative once the block's last record has been read, because `previousSync` moves only then. | a file with markers at 20 and 60 and length 100, split start 0, length 30: the start position is 36 and the end is 30; reading the owned block moves the previous sync from 36 to 76, so progress goes from 0 to -20/3 | progress in [0, 1] that never goes down | not executed; rests on `previousSync()` being the offset after the marker, as in Avro's reader | AvroMapReduce.ProgressAsWrittenCanDecrease | AvroMapReduce.ProgressMonotone |
