/**
  An Avro object container file seen at block granularity, and the rule by
  which a byte-range split of such a file owns whole blocks.

  The file is a header followed by blocks.  The header ends with the file's
  16-byte sync marker and every block is followed by it again, so every block
  is preceded by one occurrence of the marker.  Block i is described by the
  offset `syncs[i]` at which its preceding marker starts and by the records it
  holds; its first byte is `syncs[i] + SyncSize`.
*/
module ContainerFile {

  /** Width in bytes of the sync marker. */
  const SyncSize: int := 16

  datatype File<T> = File(syncs: seq<int>, blocks: seq<seq<T>>, length: int)

  /** Position of a reader inside a file: the block holding the next record
      and the index of that record inside the block. */
  datatype Cursor = Cursor(block: nat, record: nat)

  /** The shape every container file has: one marker per block, markers in
      increasing order and not overlapping, all inside the file, and no empty
      block (the writer only flushes a block that holds records). */
  predicate WellFormed<T>(f: File<T>) {
    |f.syncs| == |f.blocks| &&
    (forall i :: 0 <= i < |f.syncs| ==> 0 <= f.syncs[i] && f.syncs[i] + SyncSize < f.length) &&
    (forall i, j :: 0 <= i < j < |f.syncs| ==> f.syncs[i] + SyncSize < f.syncs[j]) &&
    (forall i :: 0 <= i < |f.blocks| ==> f.blocks[i] != [])
  }

  /** Every record of the file, in file order. */
  function AllRecords<T>(f: File<T>): seq<T> {
    Flatten(f.blocks)
  }

  function Flatten<T>(bs: seq<seq<T>>): seq<T> {
    if bs == [] then [] else bs[0] + Flatten(bs[1..])
  }

  lemma {:induction false} FlattenAppend<T>(a: seq<seq<T>>, b: seq<seq<T>>)
    ensures Flatten(a + b) == Flatten(a) + Flatten(b)
  {
    if a == [] {
      assert a + b == b;
    } else {
      assert (a + b)[1..] == a[1..] + b;
      FlattenAppend(a[1..], b);
    }
  }

  /** Index, scanning from block i on, of the first block whose marker starts
      at or after offset o; |f.blocks| when there is none. */
  function FirstFrom<T>(f: File<T>, o: int, i: nat): (k: nat)
    requires WellFormed(f) && i <= |f.blocks|
    requires forall j :: 0 <= j < i ==> f.syncs[j] < o
    ensures i <= k <= |f.blocks|
    ensures forall j :: 0 <= j < k ==> f.syncs[j] < o
    ensures forall j :: k <= j < |f.blocks| ==> o <= f.syncs[j]
    decreases |f.blocks| - i
  {
    if i == |f.blocks| || o <= f.syncs[i] then i else FirstFrom(f, o, i + 1)
  }

  /** The first block whose marker starts at or after offset o: every block
      before it starts before o and every block from it on at or after o. */
  function FirstSyncAtOrAfter<T>(f: File<T>, o: int): (k: nat)
    requires WellFormed(f)
    ensures k <= |f.blocks|
    ensures forall j :: 0 <= j < k ==> f.syncs[j] < o
    ensures forall j :: k <= j < |f.blocks| ==> o <= f.syncs[j]
  {
    FirstFrom(f, o, 0)
  }

  /** The two halves of FirstSyncAtOrAfter's contract pin its result down. */
  lemma FirstSyncUnique<T>(f: File<T>, o: int, k: nat)
    requires WellFormed(f) && k <= |f.blocks|
    requires forall j :: 0 <= j < k ==> f.syncs[j] < o
    requires k < |f.blocks| ==> o <= f.syncs[k]
    ensures k == FirstSyncAtOrAfter(f, o)
  {
    var m := FirstSyncAtOrAfter(f, o);
    assert m < |f.blocks| ==> o <= f.syncs[m];
    if k < m {
      assert false;
    } else if m < k {
      assert false;
    }
  }

  /** A later offset never finds an earlier block. */
  lemma FirstSyncMonotone<T>(f: File<T>, o1: int, o2: int)
    requires WellFormed(f) && o1 <= o2
    ensures FirstSyncAtOrAfter(f, o1) <= FirstSyncAtOrAfter(f, o2)
  {
    var k1, k2 := FirstSyncAtOrAfter(f, o1), FirstSyncAtOrAfter(f, o2);
    assert k2 < |f.blocks| ==> o2 <= f.syncs[k2];
    if k2 < k1 {
      assert false;
    }
  }

  /** The offset of the first byte of block k, or the file length for k past
      the last block. */
  function BlockStart<T>(f: File<T>, k: nat): (p: int)
    requires WellFormed(f) && k <= |f.blocks|
    ensures p <= f.length
    ensures forall j :: 0 <= j < k ==> f.syncs[j] + SyncSize < p
  {
    if k < |f.blocks| then f.syncs[k] + SyncSize else f.length
  }

  lemma BlockStartMonotone<T>(f: File<T>, i: nat, j: nat)
    requires WellFormed(f) && i <= j <= |f.blocks|
    ensures BlockStart(f, i) <= BlockStart(f, j)
  {
  }

  predicate ValidCursor<T>(f: File<T>, c: Cursor) {
    c.block <= |f.blocks| &&
    (c.block < |f.blocks| ==> c.record < |f.blocks[c.block]|) &&
    (c.block == |f.blocks| ==> c.record == 0)
  }

  /** The cursor after one record has been read at c. */
  function Advance<T>(f: File<T>, c: Cursor): (d: Cursor)
    requires WellFormed(f) && ValidCursor(f, c) && c.block < |f.blocks|
    ensures ValidCursor(f, d)
    ensures c.block <= d.block <= c.block + 1
  {
    if c.record + 1 < |f.blocks[c.block]| then Cursor(c.block, c.record + 1)
    else Cursor(c.block + 1, 0)
  }

  /** The records from cursor c up to, not including, block hi. */
  function RecordsBetween<T>(f: File<T>, c: Cursor, hi: nat): seq<T>
    requires WellFormed(f) && ValidCursor(f, c) && hi <= |f.blocks|
  {
    if c.block < hi then f.blocks[c.block][c.record..] + Flatten(f.blocks[c.block + 1..hi])
    else []
  }

  /** The records a reader at c can still read from the whole file. */
  function RecordsFrom<T>(f: File<T>, c: Cursor): seq<T>
    requires WellFormed(f) && ValidCursor(f, c)
  {
    RecordsBetween(f, c, |f.blocks|)
  }

  /** Reading one record at c yields the first of the records up to block hi
      and leaves the rest for the advanced cursor. */
  lemma AdvanceReadsOne<T>(f: File<T>, c: Cursor, hi: nat)
    requires WellFormed(f) && ValidCursor(f, c) && c.block < hi <= |f.blocks|
    ensures RecordsBetween(f, c, hi) ==
            [f.blocks[c.block][c.record]] + RecordsBetween(f, Advance(f, c), hi)
  {
    var b := f.blocks[c.block];
    var rest := Flatten(f.blocks[c.block + 1..hi]);
    var d := Advance(f, c);
    assert b[c.record..] == [b[c.record]] + b[c.record + 1..];
    if d.block == c.block {
      assert RecordsBetween(f, d, hi) == b[c.record + 1..] + rest;
    } else {
      assert b[c.record + 1..] == [];
      if d.block < hi {
        var bs := f.blocks[c.block + 1..hi];
        assert bs[0] == f.blocks[d.block] && bs[1..] == f.blocks[d.block + 1..hi];
        assert f.blocks[d.block][0..] == f.blocks[d.block];
      } else {
        assert f.blocks[c.block + 1..hi] == [];
      }
    }
  }

  /** From the first record of block lo, the records up to block hi are those
      of blocks lo to hi - 1. */
  lemma RecordsFromBlock<T>(f: File<T>, lo: nat, hi: nat)
    requires WellFormed(f) && lo <= hi <= |f.blocks|
    ensures ValidCursor(f, Cursor(lo, 0))
    ensures RecordsBetween(f, Cursor(lo, 0), hi) == Flatten(f.blocks[lo..hi])
  {
    if lo < hi {
      var bs := f.blocks[lo..hi];
      assert bs[0] == f.blocks[lo] && bs[1..] == f.blocks[lo + 1..hi];
      assert f.blocks[lo][0..] == f.blocks[lo];
    }
  }

  /** A cursor has records left before block hi exactly when it is in a block before hi. */
  lemma RecordsBetweenEmpty<T>(f: File<T>, c: Cursor, hi: nat)
    requires WellFormed(f) && ValidCursor(f, c) && hi <= |f.blocks|
    ensures RecordsBetween(f, c, hi) == [] <==> hi <= c.block
  {
    if c.block < hi {
      assert f.blocks[c.block][c.record..] != [];
    }
  }

  /** A reader in block b still has a block before the first marker at or
      after e exactly when some block from b on has its marker before e. */
  lemma BeforeFirstSync<T>(f: File<T>, b: nat, e: int)
    requires WellFormed(f) && b <= |f.blocks|
    ensures b < FirstSyncAtOrAfter(f, e) <==>
            !(forall j :: b <= j < |f.blocks| ==> e <= f.syncs[j])
  {
    var hi := FirstSyncAtOrAfter(f, e);
    if b < hi {
      assert f.syncs[b] < e;
    }
  }

  // ---------------------------------------------------------------------
  // Splits and block ownership

  /** The ownership rule: a split [start, start + length) owns block k when
      the marker preceding block k starts inside the split.  Only a non-empty
      split that starts before the end of the file owns a block. */
  predicate Owns<T>(f: File<T>, start: int, length: int, k: nat): (owned: bool)
    requires WellFormed(f) && k < |f.syncs|
    ensures owned ==> 0 < length && start < f.length
  {
    start <= f.syncs[k] < start + length
  }

  /** The records the split reader yields for the split [start, start + length):
      those of the blocks from the first marker at or after start up to, not
      including, the first marker at or after the split's end. */
  function SplitRecords<T>(f: File<T>, start: int, length: int): (r: seq<T>)
    requires WellFormed(f)
    ensures length <= 0 ==> r == []
  {
    var lo := FirstSyncAtOrAfter(f, start);
    var hi := FirstSyncAtOrAfter(f, start + length);
    assert lo < hi ==> start <= f.syncs[lo] < start + length;
    if lo < hi then Flatten(f.blocks[lo..hi]) else []
  }

  /** The state of a reader of the split [start, end) with cursor c that has
      yielded `yielded`: it is at or past the split's first block, and what it
      yielded followed by what it will still yield are the split's records. */
  ghost predicate SplitState<T>(f: File<T>, start: int, end: int, c: Cursor, yielded: seq<T>) {
    WellFormed(f) && ValidCursor(f, c) &&
    FirstSyncAtOrAfter(f, start) <= c.block &&
    yielded + RecordsBetween(f, c, FirstSyncAtOrAfter(f, end)) == SplitRecords(f, start, end - start)
  }

  /** The state of a split reader: a split state whose first block begins at
      `startPos` and whose records still to yield are `pending`. */
  ghost predicate ReaderState<T>(f: File<T>, start: int, startPos: int, end: int, c: Cursor,
                                 yielded: seq<T>, pending: seq<T>) {
    SplitState(f, start, end, c, yielded) &&
    startPos == BlockStart(f, FirstSyncAtOrAfter(f, start)) &&
    pending == RecordsBetween(f, c, FirstSyncAtOrAfter(f, end))
  }

  /** A split reader starts at its first block having yielded nothing, with
      all the split's records pending. */
  lemma ReaderStateInitial<T>(f: File<T>, start: int, startPos: int, end: int, c: Cursor,
                              yielded: seq<T>, pending: seq<T>)
    requires WellFormed(f) && c == Cursor(FirstSyncAtOrAfter(f, start), 0)
    requires startPos == BlockStart(f, c.block)
    requires yielded == [] && pending == SplitRecords(f, start, end - start)
    ensures ReaderState(f, start, startPos, end, c, yielded, pending)
  {
    var lo, hi := FirstSyncAtOrAfter(f, start), FirstSyncAtOrAfter(f, start + (end - start));
    if lo <= hi {
      RecordsFromBlock(f, lo, hi);
    }
  }

  /** Reading one record moves it from the pending records to the yielded ones. */
  lemma ReaderStateStep<T>(f: File<T>, start: int, startPos: int, end: int, c: Cursor,
                           yielded: seq<T>, pending: seq<T>)
    requires ReaderState(f, start, startPos, end, c, yielded, pending)
    requires c.block < FirstSyncAtOrAfter(f, end)
    ensures pending != [] && pending == [f.blocks[c.block][c.record]] + pending[1..]
    ensures ReaderState(f, start, startPos, end, Advance(f, c),
                        yielded + [f.blocks[c.block][c.record]], pending[1..])
  {
    var hi := FirstSyncAtOrAfter(f, end);
    AdvanceReadsOne(f, c, hi);
    assert (yielded + [f.blocks[c.block][c.record]]) + RecordsBetween(f, Advance(f, c), hi)
        == yielded + RecordsBetween(f, c, hi);
  }

  /** A split reader with nothing left to yield has yielded the split's records. */
  lemma ReaderStateDone<T>(f: File<T>, start: int, startPos: int, end: int, c: Cursor,
                           yielded: seq<T>, pending: seq<T>)
    requires ReaderState(f, start, startPos, end, c, yielded, pending)
    requires FirstSyncAtOrAfter(f, end) <= c.block
    ensures pending == [] && yielded == SplitRecords(f, start, end - start)
  {
    assert RecordsBetween(f, c, FirstSyncAtOrAfter(f, end)) == [];
  }

  /** A split reads block k exactly when it owns block k. */
  lemma ReadsExactlyOwnedBlocks<T>(f: File<T>, start: int, length: int, k: nat)
    requires WellFormed(f) && k < |f.blocks|
    ensures Owns(f, start, length, k) <==>
            FirstSyncAtOrAfter(f, start) <= k < FirstSyncAtOrAfter(f, start + length)
  {
  }

  /** Independent reference: the blocks from index i on that the split owns, by
      testing the ownership rule block by block. */
  function OwnedBlocks<T>(f: File<T>, start: int, length: int, i: nat): seq<seq<T>>
    requires WellFormed(f) && i <= |f.blocks|
    decreases |f.blocks| - i
  {
    if i == |f.blocks| then []
    else (if Owns(f, start, length, i) then [f.blocks[i]] else []) + OwnedBlocks(f, start, length, i + 1)
  }

  lemma {:induction false} OwnedBlocksFrom<T>(f: File<T>, start: int, length: int, i: nat)
    requires WellFormed(f) && i <= |f.blocks|
    ensures var lo := FirstSyncAtOrAfter(f, start);
            var hi := FirstSyncAtOrAfter(f, start + length);
            var m := if i < lo then lo else if hi < i then hi else i;
            OwnedBlocks(f, start, length, i) == if lo <= hi then f.blocks[m..hi] else []
    decreases |f.blocks| - i
  {
    var lo := FirstSyncAtOrAfter(f, start);
    var hi := FirstSyncAtOrAfter(f, start + length);
    if i < |f.blocks| {
      OwnedBlocksFrom(f, start, length, i + 1);
      ReadsExactlyOwnedBlocks(f, start, length, i);
      if lo <= i < hi {
        assert f.blocks[i..hi] == [f.blocks[i]] + f.blocks[i + 1..hi];
      }
    }
  }

  /** A split yields exactly the records of the blocks it owns, in file order. */
  lemma SplitYieldsOwnedBlocks<T>(f: File<T>, start: int, length: int)
    requires WellFormed(f)
    ensures SplitRecords(f, start, length) == Flatten(OwnedBlocks(f, start, length, 0))
  {
    OwnedBlocksFrom(f, start, length, 0);
  }

  /** Two adjacent splits together read what the one split covering both reads. */
  lemma AdjacentSplits<T>(f: File<T>, a: int, b: int, c: int)
    requires WellFormed(f) && a <= b <= c
    ensures SplitRecords(f, a, b - a) + SplitRecords(f, b, c - b) == SplitRecords(f, a, c - a)
  {
    var la, lb, lc := FirstSyncAtOrAfter(f, a), FirstSyncAtOrAfter(f, b), FirstSyncAtOrAfter(f, c);
    FirstSyncMonotone(f, a, b);
    FirstSyncMonotone(f, b, c);
    assert f.blocks[la..lc] == f.blocks[la..lb] + f.blocks[lb..lc];
    FlattenAppend(f.blocks[la..lb], f.blocks[lb..lc]);
  }

  predicate Sorted(cuts: seq<int>) {
    forall i, j :: 0 <= i <= j < |cuts| ==> cuts[i] <= cuts[j]
  }

  /** The records read by the splits [cuts[0], cuts[1]), [cuts[1], cuts[2]), ...
      one after the other. */
  function ReadSplits<T>(f: File<T>, cuts: seq<int>): seq<T>
    requires WellFormed(f)
  {
    if |cuts| < 2 then [] else SplitRecords(f, cuts[0], cuts[1] - cuts[0]) + ReadSplits(f, cuts[1..])
  }

  lemma {:induction false} ContiguousSplits<T>(f: File<T>, cuts: seq<int>)
    requires WellFormed(f) && |cuts| >= 1 && Sorted(cuts)
    ensures ReadSplits(f, cuts) == SplitRecords(f, cuts[0], cuts[|cuts| - 1] - cuts[0])
  {
    if |cuts| == 1 {
      assert cuts[|cuts| - 1] - cuts[0] == 0;
    } else {
      var tail := cuts[1..];
      SortedTail(cuts);
      ContiguousSplits(f, tail);
      AdjacentSplits(f, cuts[0], cuts[1], cuts[|cuts| - 1]);
    }
  }

  /** The cut points after the first are still sorted, and lie between the
      first and the last. */
  lemma SortedTail(cuts: seq<int>)
    requires |cuts| >= 2 && Sorted(cuts)
    ensures Sorted(cuts[1..]) && cuts[1..][0] == cuts[1]
    ensures cuts[1..][|cuts[1..]| - 1] == cuts[|cuts| - 1] && cuts[0] <= cuts[1] <= cuts[|cuts| - 1]
  {
  }

  /** Coverage: splits that are contiguous and cover the whole file read every
      record of the file once, in order. */
  lemma PartitionReadsWholeFile<T>(f: File<T>, cuts: seq<int>)
    requires WellFormed(f) && |cuts| >= 1 && Sorted(cuts)
    requires cuts[0] <= 0 && f.length <= cuts[|cuts| - 1]
    ensures ReadSplits(f, cuts) == AllRecords(f)
  {
    ContiguousSplits(f, cuts);
    var lo := FirstSyncAtOrAfter(f, cuts[0]);
    var hi := FirstSyncAtOrAfter(f, cuts[0] + (cuts[|cuts| - 1] - cuts[0]));
    FirstSyncUnique(f, cuts[0], 0);
    FirstSyncUnique(f, cuts[|cuts| - 1], |f.blocks|);
    assert lo == 0 && hi == |f.blocks|;
    assert f.blocks[lo..hi] == f.blocks;
  }

  /** For contiguous splits spanning a block's marker, some split owns the block. */
  lemma {:induction false} BlockHasAnOwner<T>(f: File<T>, cuts: seq<int>, k: nat)
    requires WellFormed(f) && Sorted(cuts) && k < |f.blocks|
    requires |cuts| >= 1 && cuts[0] <= f.syncs[k] < cuts[|cuts| - 1]
    ensures exists i :: 0 <= i < |cuts| - 1 && Owns(f, cuts[i], cuts[i + 1] - cuts[i], k)
  {
    if f.syncs[k] < cuts[1] {
      assert Owns(f, cuts[0], cuts[1] - cuts[0], k);
    } else {
      var tail := cuts[1..];
      assert Sorted(tail);
      BlockHasAnOwner(f, tail, k);
      var i :| 0 <= i < |tail| - 1 && Owns(f, tail[i], tail[i + 1] - tail[i], k);
      assert tail[i] == cuts[i + 1] && tail[i + 1] == cuts[i + 2];
      assert Owns(f, cuts[i + 1], cuts[i + 2] - cuts[i + 1], k);
    }
  }

  /** Block atomicity: of contiguous splits, at most one owns a given block. */
  lemma BlockHasAtMostOneOwner<T>(f: File<T>, cuts: seq<int>, k: nat, i: nat, j: nat)
    requires WellFormed(f) && Sorted(cuts) && k < |f.blocks|
    requires i < |cuts| - 1 && j < |cuts| - 1
    requires Owns(f, cuts[i], cuts[i + 1] - cuts[i], k) && Owns(f, cuts[j], cuts[j + 1] - cuts[j], k)
    ensures i == j
  {
  }

  /** A file of two blocks of two records: the header's marker starts at 20
      and the marker between the blocks at 60. */
  function TwoBlockFile(): File<string> {
    File([20, 60], [["record1", "record2"], ["record3", "record4"]], 100)
  }

  /** The two-block file has the shape of a container file. */
  lemma TwoBlockFileWellFormed()
    ensures WellFormed(TwoBlockFile())
  {
    var f := TwoBlockFile();
    assert f.syncs[0] == 20 && f.syncs[1] == 60 && |f.syncs| == 2;
  }

  /** The split [0, 60) covers the first block and reads its records only;
      the split [21, 100), starting one byte after the first byte of the
      header's marker, skips to the second block. */
  lemma TwoBlockSplits()
    ensures WellFormed(TwoBlockFile())
    ensures SplitRecords(TwoBlockFile(), 0, 60) == ["record1", "record2"]
    ensures SplitRecords(TwoBlockFile(), 21, 79) == ["record3", "record4"]
  {
    var f := TwoBlockFile();
    TwoBlockFileWellFormed();
    FirstSyncUnique(f, 0, 0);
    FirstSyncUnique(f, 60, 1);
    FirstSyncUnique(f, 21, 1);
    FirstSyncUnique(f, 100, 2);
    assert f.blocks[0..1] == [f.blocks[0]];
    assert f.blocks[1..2] == [f.blocks[1]];
  }
}
