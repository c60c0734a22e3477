/** The value-level specification of the heap file: the data file as a byte
    sequence, the header in its first eight bytes, the two block lists, and
    insertRecord, deleteRecord and findRecord as functions of that state. */
module HeapImages {

  import opened Wrappers
  import opened Bytes
  import opened Records
  import opened BlockImages
  import opened FreeLists

  /** Why a heap-file operation throws. */
  datatype Fault =
    | IoError           // negative seek or end of file in RandomAccessFile
    | CorruptRecord     // a record of the block cannot be decoded
    | IndexOutOfBounds  // a validCount outside the slot array

  /** Two ints: totalBlocks then totalRecords. */
  const HeaderLength: nat := 8

  /** (long) blockIndex * blockSize */
  function BlockOffset(index: int, blockSize: nat): (off: int)
    ensures index >= 0 ==> off >= 0
    ensures index >= 1 ==> off >= blockSize
  {
    if blockSize > 0 then MulBounds(blockSize, index); index * blockSize
    else 0
  }

  /** The two ends of different blocks do not overlap. */
  lemma OffsetsApart(i: int, j: int, blockSize: nat)
    requires i != j
    ensures BlockOffset(i, blockSize) + blockSize <= BlockOffset(j, blockSize)
         || BlockOffset(j, blockSize) + blockSize <= BlockOffset(i, blockSize)
  {
    if blockSize > 0 {
      MulBounds(blockSize, i - j);
      assert BlockOffset(i, blockSize) - BlockOffset(j, blockSize) == blockSize * (i - j);
    }
  }

  /** getBlock: blockSize bytes at the block's offset, decoded by
      Block.fromByteArray. */
  function ReadBlock<R, K>(c: RecordCodec<R, K>, blockSize: int, data: seq<Byte>, index: int): (res: Result<BlockImage<R>, Fault>)
    requires c.size > 0 && blockSize >= HeaderSize
    ensures res.Success? ==> |res.value.slots| == BlockFactor(blockSize, c.size)
  {
    match ReadAt(data, BlockOffset(index, blockSize), blockSize)
    case None => Failure(IoError)
    case Some(bytes) =>
      match Decode(c, BlockFactor(blockSize, c.size), bytes)
      case None => Failure(CorruptRecord)
      case Some(img) => Success(img)
  }

  /** writeBlockToFile at a non-negative index. */
  function WriteBlock<R, K>(c: RecordCodec<R, K>, blockSize: nat, data: seq<Byte>, index: nat, img: BlockImage<R>): seq<Byte>
  {
    WriteAt(data, BlockOffset(index, blockSize), Encode(c, blockSize, img))
  }

  /** saveHeader: totalBlocks and totalRecords as big-endian ints at offset 0. */
  function WithHeader(data: seq<Byte>, totalBlocks: int, totalRecords: int): (r: seq<Byte>)
    ensures |r| == Max(|data|, HeaderLength)
    ensures r[..4] == EncodeInt32(totalBlocks) && r[4..HeaderLength] == EncodeInt32(totalRecords)
    ensures forall i :: HeaderLength <= i < |data| ==> r[i] == data[i]
  {
    var header := EncodeInt32(totalBlocks) + EncodeInt32(totalRecords);
    var r := WriteAt(data, 0, header);
    assert r[..4] == header[..4] && r[4..8] == header[4..];
    r
  }

  /** loadHeader: only a file of at least eight bytes has a header. */
  function LoadHeader(data: seq<Byte>): (h: Option<(Int32, Int32)>)
    ensures h.Some? <==> |data| >= HeaderLength
  {
    if |data| >= HeaderLength then Some((DecodeInt32(data[..4]), DecodeInt32(data[4..HeaderLength])))
    else None
  }

  /** What saveHeader writes, loadHeader reads back. */
  lemma HeaderRoundTrip(data: seq<Byte>, totalBlocks: Int32, totalRecords: Int32)
    ensures LoadHeader(WithHeader(data, totalBlocks, totalRecords)) == Some((totalBlocks, totalRecords))
  {
    Int32RoundTrip(totalBlocks);
    Int32RoundTrip(totalRecords);
  }

  /** Block 0 fails to read as soon as its slot 0, the bytes right after
      the file's first four, does not decode. */
  lemma UndecodableSlotZero<R, K>(c: RecordCodec<R, K>, blockSize: int, file: seq<Byte>)
    requires c.size > 0 && blockSize >= HeaderSize + c.size && |file| >= blockSize
    requires c.decode(file[HeaderSize..HeaderSize + c.size]).None?
    ensures ReadBlock(c, blockSize, file, 0) == Failure(CorruptRecord)
  {
    var bf := BlockFactor(blockSize, c.size);
    assert bf >= 1;
    var bytes := ReadAt(file, BlockOffset(0, blockSize), blockSize).value;
    assert SlotOffset(c.size, 0) == HeaderSize;
    assert SlotBytes(bytes, c.size, bf, 0) == file[HeaderSize..HeaderSize + c.size];
  }

  /** The header shares its bytes with block 0: block 0 reads back with
      validCount equal to totalBlocks, and the first four bytes of its first
      slot hold totalRecords. */
  lemma HeaderOverlapsBlockZero<R, K>(c: RecordCodec<R, K>, blockSize: int, data: seq<Byte>, totalBlocks: Int32, totalRecords: Int32)
    requires c.size > 0 && blockSize >= HeaderLength && |data| >= blockSize
    ensures var file := WithHeader(data, totalBlocks, totalRecords);
      && ReadAt(file, 0, blockSize).Some?
      && ReadAt(file, 0, blockSize).value[..4] == EncodeInt32(totalBlocks)
      && ReadAt(file, 0, blockSize).value[SlotOffset(c.size, 0)..SlotOffset(c.size, 0) + 4] == EncodeInt32(totalRecords)
      && (ReadBlock(c, blockSize, file, 0).Success? ==> ReadBlock(c, blockSize, file, 0).value.validCount == totalBlocks)
  {
    var file := WithHeader(data, totalBlocks, totalRecords);
    var bytes := ReadAt(file, 0, blockSize).value;
    assert bytes[..4] == file[..4];
    assert bytes[4..8] == file[4..8];
    Int32RoundTrip(totalBlocks);
  }

  /** saveHeader does not touch any block after block 0. */
  lemma HeaderKeepsOtherBlocks<R, K>(c: RecordCodec<R, K>, blockSize: int, data: seq<Byte>, totalBlocks: int, totalRecords: int, index: int)
    requires c.size > 0 && blockSize >= HeaderLength && index >= 1
    ensures ReadBlock(c, blockSize, WithHeader(data, totalBlocks, totalRecords), index) == ReadBlock(c, blockSize, data, index)
  {
    var file := WithHeader(data, totalBlocks, totalRecords);
    var off := BlockOffset(index, blockSize);
    if off + blockSize <= |data| {
      assert file[off..off + blockSize] == data[off..off + blockSize];
    }
    assert ReadAt(file, off, blockSize) == ReadAt(data, off, blockSize);
  }

  /** Reading a block back right after writing it gives the decoding of its
      own bytes, which BlockImages.RoundTrip describes. */
  lemma WriteThenReadBlock<R(!new), K>(c: RecordCodec<R, K>, blockSize: int, data: seq<Byte>, index: nat, img: BlockImage<R>)
    requires ValidCodec(c) && blockSize >= HeaderSize
    requires |img.slots| == BlockFactor(blockSize, c.size)
    ensures var bytes := Encode(c, blockSize, img);
      var decoded := Decode(c, |img.slots|, bytes);
      ReadBlock(c, blockSize, WriteBlock(c, blockSize, data, index, img), index)
        == if decoded.Some? then Success(decoded.value) else Failure(CorruptRecord)
  {
    EncodeLayout(c, blockSize, img);
  }

  /** Writing one block leaves every other block that lies inside the file
      as it was. */
  lemma WriteBlockFrame<R(!new), K>(c: RecordCodec<R, K>, blockSize: int, data: seq<Byte>, index: nat, img: BlockImage<R>, other: int)
    requires ValidCodec(c) && blockSize >= HeaderSize
    requires |img.slots| == BlockFactor(blockSize, c.size)
    requires other != index && 0 <= other && BlockOffset(other, blockSize) + blockSize <= |data|
    ensures ReadBlock(c, blockSize, WriteBlock(c, blockSize, data, index, img), other) == ReadBlock(c, blockSize, data, other)
  {
    EncodeLength(c, blockSize, img);
    OffsetsApart(index, other, blockSize);
    var file := WriteBlock(c, blockSize, data, index, img);
    WriteAtElsewhere(data, BlockOffset(index, blockSize), Encode(c, blockSize, img), BlockOffset(other, blockSize), blockSize);
  }

  // ----- trimming -----

  /** The lists and the block count after trimTrailingEmptyBlocks. */
  datatype Trim = Trim(empty: seq<int>, totalBlocks: int)

  /** The loop condition of trimTrailingEmptyBlocks is false: there is no
      last block, or it is not listed as empty. */
  predicate LastNotEmpty(empty: seq<int>, totalBlocks: int)
  {
    totalBlocks <= 0 || totalBlocks - 1 !in empty
  }

  /** trimTrailingEmptyBlocks on the list and the count: while the last block
      is listed as empty, decrement totalBlocks and drop the new totalBlocks
      from emptyBlocks. */
  function Trimmed(empty: seq<int>, totalBlocks: int): (t: Trim)
    decreases if totalBlocks > 0 then totalBlocks else 0
    ensures t.totalBlocks <= totalBlocks
    ensures LastNotEmpty(t.empty, t.totalBlocks)
  {
    if totalBlocks > 0 && totalBlocks - 1 in empty then
      Trimmed(RemoveValue(empty, totalBlocks - 1), totalBlocks - 1)
    else Trim(empty, totalBlocks)
  }

  /** One pass of trimTrailingEmptyBlocks' loop, with n the new totalBlocks. */
  lemma TrimmedStep(empty: seq<int>, n: nat)
    requires n in empty
    ensures Trimmed(empty, n + 1) == Trimmed(RemoveValue(empty, n), n)
  {
  }

  /** The blocks trimTrailingEmptyBlocks removes. */
  function TrimmedCount(empty: seq<int>, totalBlocks: int): nat
  {
    totalBlocks - Trimmed(empty, totalBlocks).totalBlocks
  }

  /** truncateLastBlock applied k times: each call cuts one blockSize off
      the end of the file, not below zero. */
  function Cut(data: seq<Byte>, blockSize: nat, k: nat): seq<Byte>
  {
    if k == 0 then data
    else
      var d := Cut(data, blockSize, k - 1);
      d[..Max(0, |d| - blockSize)]
  }

  /** Cutting k blocks takes k blockSizes off the end of the file, and the
      bytes before the cut are kept. */
  lemma {:induction false} CutLength(data: seq<Byte>, blockSize: nat, k: nat)
    ensures |Cut(data, blockSize, k)| == Max(0, |data| - Stride(blockSize, k))
    ensures Cut(data, blockSize, k) == data[..|Cut(data, blockSize, k)|]
  {
    if k == 0 {
      assert data[..|data|] == data;
    } else {
      CutLength(data, blockSize, k - 1);
      var d := Cut(data, blockSize, k - 1);
      PrefixOfPrefix(data, |d|, Max(0, |d| - blockSize));
    }
  }

  lemma PrefixOfPrefix(data: seq<Byte>, cut: nat, k: nat)
    requires k <= cut <= |data|
    ensures data[..cut][..k] == data[..k]
  {
  }

  /** Only blocks listed as empty are cut, and the list only loses
      entries. */
  lemma {:induction false} TrimmedCutsListedBlocks(empty: seq<int>, totalBlocks: int)
    ensures var t := Trimmed(empty, totalBlocks);
      && (forall j :: t.totalBlocks <= j < totalBlocks ==> j in empty)
      && (forall y :: y in t.empty ==> y in empty)
    decreases if totalBlocks > 0 then totalBlocks else 0
  {
    if totalBlocks > 0 && totalBlocks - 1 in empty {
      TrimmedCutsListedBlocks(RemoveValue(empty, totalBlocks - 1), totalBlocks - 1);
    }
  }

  /** With a duplicate-free emptyBlocks, trimming removes exactly the
      trimmed block indexes from it. */
  lemma {:induction false} TrimmedRemovesTrimmed(empty: seq<int>, totalBlocks: int)
    requires NoDup(empty)
    ensures var t := Trimmed(empty, totalBlocks);
      NoDup(t.empty) && forall y :: y in t.empty <==> y in empty && !(t.totalBlocks <= y < totalBlocks)
    decreases if totalBlocks > 0 then totalBlocks else 0
  {
    if totalBlocks > 0 && totalBlocks - 1 in empty {
      RemoveValueKeepsNoDup(empty, totalBlocks - 1);
      TrimmedRemovesTrimmed(RemoveValue(empty, totalBlocks - 1), totalBlocks - 1);
    }
  }

  // ----- scanning -----

  /** How a scan over blocks from..to-1 ends: no block matches, the first
      match (block, its image, slot), or the first block that cannot be read. */
  datatype ScanResult<R> = NoMatch | Match(index: int, image: BlockImage<R>, slot: nat) | Unreadable(index: int, fault: Fault)

  /** The loop of deleteRecord and findRecord: blocks in index order, each
      searched by the first-match scan of its slots. */
  function Scan<R, K(==)>(c: RecordCodec<R, K>, blockSize: int, data: seq<Byte>, r: R, from: int, to: int): (res: ScanResult<R>)
    requires c.size > 0 && blockSize >= HeaderSize
    decreases if to > from then to - from else 0
    ensures res.Match? ==> (from <= res.index < to
      && ReadBlock(c, blockSize, data, res.index) == Success(res.image)
      && FirstMatch(c, res.image.slots, r) == Some(res.slot))
    ensures res.Unreadable? ==> (from <= res.index < to
      && ReadBlock(c, blockSize, data, res.index) == Failure(res.fault))
    ensures forall j :: from <= j < (if res.NoMatch? then to else res.index) ==>
      ReadBlock(c, blockSize, data, j).Success? && FirstMatch(c, ReadBlock(c, blockSize, data, j).value.slots, r).None?
  {
    if from >= to then NoMatch
    else
      match ReadBlock(c, blockSize, data, from)
      case Failure(f) => Unreadable(from, f)
      case Success(img) =>
        match FirstMatch(c, img.slots, r)
        case Some(s) => Match(from, img, s)
        case None => Scan(c, blockSize, data, r, from + 1, to)
  }

  /** A scan finds nothing exactly when every block can be read and none
      holds a matching record. */
  lemma ScanNoMatch<R, K>(c: RecordCodec<R, K>, blockSize: int, data: seq<Byte>, r: R, from: int, to: int)
    requires c.size > 0 && blockSize >= HeaderSize
    ensures Scan(c, blockSize, data, r, from, to).NoMatch? <==>
      forall j :: from <= j < to ==>
        ReadBlock(c, blockSize, data, j).Success? && FirstMatch(c, ReadBlock(c, blockSize, data, j).value.slots, r).None?
  {
    var res := Scan(c, blockSize, data, r, from, to);
    if !res.NoMatch? {
      assert !(ReadBlock(c, blockSize, data, res.index).Success? && FirstMatch(c, ReadBlock(c, blockSize, data, res.index).value.slots, r).None?);
    }
  }

  // ----- the heap file -----

  /** The heap file's state: the data file, the in-memory lists, the
      counters, and the lists as last written to the list files. */
  datatype HeapState = HeapState(data: seq<Byte>, lists: Lists, totalBlocks: int, totalRecords: int, saved: Lists)

  /** The files found when a HeapFile is constructed; a missing list file
      reads as an empty list. */
  datatype Disk = Disk(dataFile: Option<seq<Byte>>, emptyFile: seq<int>, partialFile: seq<int>)

  /** new HeapFile: an existing data file is opened with its lists and, when
      it has eight bytes, its header; otherwise the file is created with a
      zero header and empty lists. */
  function Open(disk: Disk): (st: HeapState)
  {
    match disk.dataFile
    case None => HeapState(WithHeader([], 0, 0), Lists([], []), 0, 0, Lists([], []))
    case Some(data) =>
      var lists := Lists(disk.emptyFile, disk.partialFile);
      match LoadHeader(data)
      case None => HeapState(data, lists, 0, 0, lists)
      case Some((tb, tr)) => HeapState(data, lists, tb, tr, lists)
  }

  /** A new heap file: an eight-byte file whose header reads as zero blocks
      and zero records, and no listed blocks. */
  lemma OpenNew(emptyFile: seq<int>, partialFile: seq<int>)
    ensures var st := Open(Disk(None, emptyFile, partialFile));
      && |st.data| == HeaderLength
      && LoadHeader(st.data) == Some((0, 0))
      && st.totalBlocks == 0 && st.totalRecords == 0
      && st.lists == Lists([], []) && st.saved == st.lists
  {
    HeaderRoundTrip([], 0, 0);
  }

  /** Reopening files written by saveHeader and saveLists restores the
      counters and lists. */
  lemma Reopen(data: seq<Byte>, lists: Lists, totalBlocks: Int32, totalRecords: Int32)
    ensures var file := WithHeader(data, totalBlocks, totalRecords);
      Open(Disk(Some(file), lists.empty, lists.partial)) == HeapState(file, lists, totalBlocks, totalRecords, lists)
  {
    HeaderRoundTrip(data, totalBlocks, totalRecords);
  }

  /** The block insertRecord adds to, before the add: read from the file
      when its index is below totalBlocks, else a new empty block. */
  function InsertStart<R, K>(c: RecordCodec<R, K>, blockSize: int, st: HeapState): (res: Result<BlockImage<R>, Fault>)
    requires c.size > 0 && blockSize >= HeaderSize
    ensures res.Success? ==> |res.value.slots| == BlockFactor(blockSize, c.size)
  {
    var t := TakeTarget(st.lists, st.totalBlocks);
    if t.index < st.totalBlocks then ReadBlock(c, blockSize, st.data, t.index)
    else Success(EmptyImage(BlockFactor(blockSize, c.size)))
  }

  /** The second half of insertRecord, once block holds the new record:
      the lists follow the block's fill, the block is written back at
      index, the counters grow and the lists and the header are saved. */
  function InsertCommit<R, K>(c: RecordCodec<R, K>, blockSize: int, st: HeapState, index: int, block: BlockImage<R>): (Result<int, Fault>, HeapState)
    requires c.size > 0 && blockSize >= HeaderSize
  {
    var lists := AfterInsert(st.lists, index, block.validCount, BlockFactor(blockSize, c.size));
    if index < 0 then (Failure(IoError), st.(lists := lists))
    else
      var tb := if index == st.totalBlocks then st.totalBlocks + 1 else st.totalBlocks;
      var tr := st.totalRecords + 1;
      var data := WithHeader(WriteBlock(c, blockSize, st.data, index, block), tb, tr);
      (Success(index), HeapState(data, lists, tb, tr, lists))
  }

  /** InsertCommit field by field. */
  lemma InsertCommitSteps<R, K>(c: RecordCodec<R, K>, blockSize: int, st: HeapState, index: int, block: BlockImage<R>)
    requires c.size > 0 && blockSize >= HeaderSize
    ensures InsertCommit(c, blockSize, st, index, block).1.lists
      == AfterInsert(st.lists, index, block.validCount, BlockFactor(blockSize, c.size))
    ensures index < 0 ==> (InsertCommit(c, blockSize, st, index, block)
      == (Failure(IoError), st.(lists := InsertCommit(c, blockSize, st, index, block).1.lists)))
    ensures index >= 0 ==> InsertCommit(c, blockSize, st, index, block).0 == Success(index)
    ensures index >= 0 ==> InsertCommit(c, blockSize, st, index, block).1.saved == InsertCommit(c, blockSize, st, index, block).1.lists
    ensures index >= 0 ==> (InsertCommit(c, blockSize, st, index, block).1.totalBlocks
      == if index == st.totalBlocks then st.totalBlocks + 1 else st.totalBlocks)
    ensures index >= 0 ==> InsertCommit(c, blockSize, st, index, block).1.totalRecords == st.totalRecords + 1
    ensures index >= 0 ==>
      InsertCommit(c, blockSize, st, index, block).1.data
        == WithHeader(WriteBlock(c, blockSize, st.data, index, block), InsertCommit(c, blockSize, st, index, block).1.totalBlocks, st.totalRecords + 1)
  {
  }

  /** The state insertRecord leaves after a successful write is
      InsertCommit's. */
  lemma InsertCommitted<R, K>(c: RecordCodec<R, K>, blockSize: int, st: HeapState, index: int, block: BlockImage<R>, st': HeapState)
    requires c.size > 0 && blockSize >= HeaderSize && index >= 0
    requires st'.lists == st'.saved == AfterInsert(st.lists, index, block.validCount, BlockFactor(blockSize, c.size))
    requires st'.totalBlocks == if index == st.totalBlocks then st.totalBlocks + 1 else st.totalBlocks
    requires st'.totalRecords == st.totalRecords + 1
    requires st'.data == WithHeader(WriteBlock(c, blockSize, st.data, index, block), st'.totalBlocks, st'.totalRecords)
    ensures InsertCommit(c, blockSize, st, index, block) == (Success(index), st')
  {
    InsertCommitSteps(c, blockSize, st, index, block);
    assert InsertCommit(c, blockSize, st, index, block).1 == st';
  }

  /** insertRecord: the returned block index and the new state, or the
      fault the Java method throws with the state it leaves. */
  function Insert<R, K(==)>(c: RecordCodec<R, K>, blockSize: int, st: HeapState, r: R): (Result<int, Fault>, HeapState)
    requires c.size > 0 && blockSize >= HeaderSize
  {
    var t := TakeTarget(st.lists, st.totalBlocks);
    match InsertStart(c, blockSize, st)
    case Failure(f) => (Failure(f), st.(lists := t.rest))
    case Success(img) =>
      if img.validCount < 0 then (Failure(IndexOutOfBounds), st.(lists := t.rest))
      else InsertCommit(c, blockSize, st.(lists := t.rest), t.index, Added(img, r))
  }

  /** The lists after updateListsAfterDelete on block index, which now holds
      validCount records. */
  function DeleteLists<R, K>(c: RecordCodec<R, K>, blockSize: int, st: HeapState, index: nat, validCount: int): Lists
    requires c.size > 0 && blockSize >= HeaderSize
  {
    AfterDelete(st.lists, index, validCount, BlockFactor(blockSize, c.size))
  }

  /** The empty list and block count after trimTrailingEmptyBlocks. */
  function DeleteTrim<R, K>(c: RecordCodec<R, K>, blockSize: int, st: HeapState, index: nat, validCount: int): (t: Trim)
    requires c.size > 0 && blockSize >= HeaderSize
    ensures t.totalBlocks <= st.totalBlocks
    ensures LastNotEmpty(t.empty, t.totalBlocks)
  {
    Trimmed(DeleteLists(c, blockSize, st, index, validCount).empty, st.totalBlocks)
  }

  /** The data file after the block's bytes are written back at block index
      and the trailing empty blocks are truncated, before the header is
      saved. */
  function DeleteData<R, K>(c: RecordCodec<R, K>, blockSize: int, st: HeapState, index: nat, validCount: int, bytes: seq<Byte>): seq<Byte>
    requires c.size > 0 && blockSize >= HeaderSize
  {
    Cut(WriteAt(st.data, BlockOffset(index, blockSize), bytes), blockSize, TrimmedCount(DeleteLists(c, blockSize, st, index, validCount).empty, st.totalBlocks))
  }

  /** The second half of deleteRecord, once the record has been removed from
      block index, which now holds validCount records and encodes to bytes:
      the counter drops, the lists follow the block's fill, the bytes are
      written back, trailing empty blocks are trimmed and the lists
      and the header are saved. */
  function DeleteCommit<R, K>(c: RecordCodec<R, K>, blockSize: int, st: HeapState, index: nat, validCount: int, bytes: seq<Byte>): (st': HeapState)
    requires c.size > 0 && blockSize >= HeaderSize
  {
    Saved(DeleteData(c, blockSize, st, index, validCount, bytes), DeleteTrim(c, blockSize, st, index, validCount),
      DeleteLists(c, blockSize, st, index, validCount), st.totalRecords - 1)
  }

  /** saveLists and saveHeader once the trimmed lists and counters are in
      memory. */
  function Saved(data: seq<Byte>, t: Trim, lists: Lists, totalRecords: int): HeapState
  {
    var trimmed := lists.(empty := t.empty);
    HeapState(WithHeader(data, t.totalBlocks, totalRecords), trimmed, t.totalBlocks, totalRecords, trimmed)
  }

  /** DeleteCommit field by field. */
  lemma DeleteCommitSteps<R, K>(c: RecordCodec<R, K>, blockSize: int, st: HeapState, index: nat, validCount: int, bytes: seq<Byte>)
    requires c.size > 0 && blockSize >= HeaderSize
    ensures var st' := DeleteCommit(c, blockSize, st, index, validCount, bytes);
      var t := DeleteTrim(c, blockSize, st, index, validCount);
      && st'.lists == st'.saved == DeleteLists(c, blockSize, st, index, validCount).(empty := t.empty)
      && st'.totalBlocks == t.totalBlocks
      && st'.totalRecords == st.totalRecords - 1
      && st'.data == WithHeader(DeleteData(c, blockSize, st, index, validCount, bytes), t.totalBlocks, st.totalRecords - 1)
  {
    DeleteCommitIsSaved(c, blockSize, st, index, validCount, bytes);
    SavedFields(DeleteData(c, blockSize, st, index, validCount, bytes), DeleteTrim(c, blockSize, st, index, validCount),
      DeleteLists(c, blockSize, st, index, validCount), st.totalRecords - 1);
  }

  /** Saved field by field. */
  lemma SavedFields(data: seq<Byte>, t: Trim, lists: Lists, totalRecords: int)
    ensures var st' := Saved(data, t, lists, totalRecords);
      && st'.lists == st'.saved == lists.(empty := t.empty)
      && st'.totalBlocks == t.totalBlocks
      && st'.totalRecords == totalRecords
      && st'.data == WithHeader(data, t.totalBlocks, totalRecords)
  {
  }

  /** DeleteCommit in terms of its named parts. */
  lemma DeleteCommitIsSaved<R, K>(c: RecordCodec<R, K>, blockSize: int, st: HeapState, index: nat, validCount: int, bytes: seq<Byte>)
    requires c.size > 0 && blockSize >= HeaderSize
    ensures DeleteCommit(c, blockSize, st, index, validCount, bytes) == Saved(DeleteData(c, blockSize, st, index, validCount, bytes),
      DeleteTrim(c, blockSize, st, index, validCount), DeleteLists(c, blockSize, st, index, validCount), st.totalRecords - 1)
  {
  }

  /** A state whose fields are Saved's is Saved's. */
  lemma SavedFrom(data: seq<Byte>, t: Trim, lists: Lists, totalRecords: int, st': HeapState)
    requires st'.lists == st'.saved == lists.(empty := t.empty)
    requires st'.totalBlocks == t.totalBlocks && st'.totalRecords == totalRecords
    requires st'.data == WithHeader(data, t.totalBlocks, totalRecords)
    ensures Saved(data, t, lists, totalRecords) == st'
  {
  }

  /** deleteRecord: true when a record was removed, false when no block
      holds one equal to r, or the fault thrown. */
  function Delete<R, K(==)>(c: RecordCodec<R, K>, blockSize: int, st: HeapState, r: R): (Result<bool, Fault>, HeapState)
    requires c.size > 0 && blockSize >= HeaderSize
  {
    match Scan(c, blockSize, st.data, r, 0, st.totalBlocks)
    case NoMatch => (Success(false), st)
    case Unreadable(_, f) => (Failure(f), st)
    case Match(i, img, s) =>
      match RemoveAt(img, s)
      case None => (Failure(IndexOutOfBounds), st)
      case Some((_, out)) => (Success(true), DeleteCommit(c, blockSize, st, i, out.validCount, Encode(c, blockSize, out)))
  }

  /** A deleteRecord that answers true found a match and committed the
      removal from it. */
  lemma DeleteSucceeded<R, K>(c: RecordCodec<R, K>, blockSize: int, st: HeapState, r: R)
    requires c.size > 0 && blockSize >= HeaderSize && Delete(c, blockSize, st, r).0 == Success(true)
    ensures var m := Scan(c, blockSize, st.data, r, 0, st.totalBlocks);
      && m.Match? && 0 <= m.index < st.totalBlocks
      && m.slot < |m.image.slots| && m.image.slots[m.slot].Some?
      && RemoveAt(m.image, m.slot).Some?
      && var out := RemoveAt(m.image, m.slot).value.1;
        Delete(c, blockSize, st, r).1 == DeleteCommit(c, blockSize, st, m.index, out.validCount, Encode(c, blockSize, out))
  {
  }

  /** One step of deleteRecord's scan, at block i: removeRecord finding
      nothing moves the scan on, and otherwise decides the outcome. */
  lemma DeleteAtBlock<R, K>(c: RecordCodec<R, K>, blockSize: int, st: HeapState, r: R, i: nat, img: BlockImage<R>)
    requires c.size > 0 && blockSize >= HeaderSize && i < st.totalBlocks
    requires Scan(c, blockSize, st.data, r, 0, st.totalBlocks) == Scan(c, blockSize, st.data, r, i, st.totalBlocks)
    requires ReadBlock(c, blockSize, st.data, i) == Success(img)
    ensures Remove(c, img, r).0 == NotFound ==>
      Scan(c, blockSize, st.data, r, 0, st.totalBlocks) == Scan(c, blockSize, st.data, r, i + 1, st.totalBlocks)
    ensures Remove(c, img, r).0 == SlotOutOfRange ==> Delete(c, blockSize, st, r) == (Failure(IndexOutOfBounds), st)
    ensures var out := Remove(c, img, r).1;
      Remove(c, img, r).0.Removed? ==>
      Delete(c, blockSize, st, r) == (Success(true), DeleteCommit(c, blockSize, st, i, out.validCount, Encode(c, blockSize, out)))
  {
  }

  /** findRecord: a copy of the first record equal to r in block order, or
      None, or the fault thrown. */
  function Find<R, K(==)>(c: RecordCodec<R, K>, blockSize: int, st: HeapState, r: R): (res: Result<Option<R>, Fault>)
    requires c.size > 0 && blockSize >= HeaderSize
  {
    match Scan(c, blockSize, st.data, r, 0, st.totalBlocks)
    case NoMatch => Success(None)
    case Unreadable(_, f) => Failure(f)
    case Match(_, img, s) => Success(img.slots[s])
  }
}
