/**
  Avro's DataFileReader, the container-file reader the split reader wraps.
  Only its behaviour at block granularity is modelled, on the block view of
  module ContainerFile: marker scanning, header parsing, decompression and
  datum decoding are not.  Each contract below is what the split reader
  relies on the library to do.
*/
module DataFile {
  import opened Wrappers
  import opened Exceptions
  import opened ContainerFile

  class DataFileReader<T> {
    /** The container file this reader was opened on. */
    const file: File<T>
    /** The next record to read. */
    var cursor: Cursor
    var closed: bool

    ghost predicate Valid()
      reads this
    {
      WellFormed(file) && ValidCursor(file, cursor)
    }

    /** Opening reads the header and leaves the reader at the first block. */
    constructor Open(f: File<T>)
      requires WellFormed(f)
      ensures Valid() && file == f && !closed
      ensures cursor == Cursor(0, 0)
      ensures RecordsFrom(file, cursor) == AllRecords(f)
    {
      file := f;
      cursor := Cursor(0, 0);
      closed := false;
      RecordsFromBlock(f, 0, |f.blocks|);
      assert f.blocks[0..|f.blocks|] == f.blocks;
    }

    /** True when a record is left to read. */
    function HasNext(): (b: bool)
      reads this
      requires Valid()
      ensures b <==> RecordsFrom(file, cursor) != []
    {
      RecordsBetweenEmpty(file, cursor, |file.blocks|);
      cursor.block < |file.blocks|
    }

    /** The offset just past the most recently crossed sync marker: the first
        byte of the block holding the next record, or the file length once
        every block has been read.  Every block already left behind started
        before it. */
    function PreviousSync(): (p: int)
      reads this
      requires Valid()
      ensures p <= file.length
      ensures forall j :: 0 <= j < cursor.block ==> file.syncs[j] + SyncSize < p
    {
      BlockStart(file, cursor.block)
    }

    /** True once the reader is past the sync point for `position`: no block
        still ahead of the cursor has its marker starting before `position`. */
    function PastSync(position: int): (past: bool)
      reads this
      requires Valid()
      ensures past <==> forall j :: cursor.block <= j < |file.blocks| ==> position <= file.syncs[j]
    {
      var p := PreviousSync();
      p >= position + SyncSize || p >= file.length
    }

    /** Moves to the first block whose marker starts at or after `position`,
        scanning forward block by block. */
    method Sync(position: int)
      requires Valid()
      modifies this`cursor
      ensures Valid()
      ensures cursor == Cursor(FirstSyncAtOrAfter(file, position), 0)
      ensures forall j :: 0 <= j < cursor.block ==> file.syncs[j] < position
      ensures PastSync(position)
    {
      var k := 0;
      while k < |file.blocks| && file.syncs[k] < position
        invariant 0 <= k <= |file.blocks|
        invariant forall j :: 0 <= j < k ==> file.syncs[j] < position
      {
        k := k + 1;
      }
      FirstSyncUnique(file, position, k);
      cursor := Cursor(k, 0);
    }

    /** Reads the next record (the reuse object is only an allocation hint)
        and moves the cursor past it. */
    method Next(reuse: Option<T>) returns (datum: T)
      requires Valid() && HasNext()
      modifies this`cursor
      ensures Valid()
      ensures cursor == Advance(file, old(cursor))
      ensures datum == file.blocks[old(cursor).block][old(cursor).record]
      ensures [datum] + RecordsFrom(file, cursor) == old(RecordsFrom(file, cursor))
      ensures old(PreviousSync()) <= PreviousSync()
    {
      datum := file.blocks[cursor.block][cursor.record];
      AdvanceReadsOne(file, cursor, |file.blocks|);
      BlockStartMonotone(file, cursor.block, Advance(file, cursor).block);
      cursor := Advance(file, cursor);
    }

    /** Releases the input; `ioFails` stands for the underlying stream
        raising an I/O error while closing. */
    method Close(ioFails: bool) returns (r: Outcome<Exception>)
      modifies this`closed
      ensures closed
      ensures r == if ioFails then Fail(IOError) else Pass
    {
      closed := true;
      r := if ioFails then Fail(IOError) else Pass;
    }
  }
}
