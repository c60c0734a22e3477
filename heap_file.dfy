/** The HeapFile class: the data file's bytes, the two block lists, the
    counters and the list files, updated in place, each method proved
    against its function in HeapImages. */
module HeapFiles {

  import opened Wrappers
  import opened Bytes
  import opened Records
  import opened BlockImages
  import opened Blocks
  import opened FreeLists
  import opened HeapImages

  class HeapFile<R(!new), K(==)> {
    const codec: RecordCodec<R, K>
    const blockSize: int
    /** The data file. */
    var data: seq<Byte>
    var emptyBlocks: seq<int>
    var partiallyEmptyBlocks: seq<int>
    var totalBlocks: int
    var totalRecords: int
    /** The contents of the two list files. */
    var emptyBlocksFile: seq<int>
    var partialBlocksFile: seq<int>

    ghost predicate Valid()
    {
      ValidCodec(codec) && blockSize >= HeaderSize
    }

    function Lists(): Lists
      reads this
    {
      FreeLists.Lists(emptyBlocks, partiallyEmptyBlocks)
    }

    /** The heap file's state as a value. */
    function State(): HeapState
      reads this
    {
      HeapState(data, Lists(), totalBlocks, totalRecords, FreeLists.Lists(emptyBlocksFile, partialBlocksFile))
    }

    /** new HeapFile(baseFileName, recordClass, blockSize) over the files
        found on disk. */
    constructor (codec: RecordCodec<R, K>, blockSize: int, disk: Disk)
      requires ValidCodec(codec) && blockSize >= HeaderSize
      ensures Valid() && this.codec == codec && this.blockSize == blockSize
      ensures State() == Open(disk)
    {
      this.codec := codec;
      this.blockSize := blockSize;
      data := if disk.dataFile.Some? then disk.dataFile.value else [];
      emptyBlocks := [];
      partiallyEmptyBlocks := [];
      totalBlocks := 0;
      totalRecords := 0;
      emptyBlocksFile := disk.emptyFile;
      partialBlocksFile := disk.partialFile;
      new;
      if disk.dataFile.Some? {
        LoadLists();
        LoadHeader();
      } else {
        SaveHeader();
        SaveLists();
      }
    }

    // ----- core operations -----

    /** insertRecord: the index of the block that received the record. */
    method InsertRecord(r: R) returns (res: Result<int, Fault>)
      requires Valid()
      modifies this
      ensures (res, State()) == Insert(codec, blockSize, old(State()), r)
    {
      ghost var st := State();
      ghost var t := TakeTarget(st.lists, st.totalBlocks);
      var blockIndex;
      if |partiallyEmptyBlocks| > 0 {
        blockIndex := partiallyEmptyBlocks[0];
        partiallyEmptyBlocks := partiallyEmptyBlocks[1..];
      } else if |emptyBlocks| > 0 {
        blockIndex := emptyBlocks[0];
        emptyBlocks := emptyBlocks[1..];
      } else {
        blockIndex := totalBlocks;
      }
      assert blockIndex == t.index && State() == st.(lists := t.rest);

      var block: Block<R, K>;
      if blockIndex < totalBlocks {
        var got := GetBlock(blockIndex);
        if got.Failure? {
          assert InsertStart(codec, blockSize, st) == Failure(got.error);
          return Failure(got.error);
        }
        block := got.value;
      } else {
        block := new Block(codec, blockSize);
      }
      ghost var img := block.Image();
      assert InsertStart(codec, blockSize, st) == Success(img);

      var added := block.AddRecord(r);
      if !added {
        return Failure(IndexOutOfBounds);
      }
      res := CommitInsert(blockIndex, block);
    }

    /** The rest of insertRecord, once block holds the new record. */
    method CommitInsert(blockIndex: int, block: Block<R, K>) returns (res: Result<int, Fault>)
      requires Valid() && block.Valid() && block.codec == codec && block.blockSize == blockSize
      modifies this
      ensures (res, State()) == InsertCommit(codec, blockSize, old(State()), blockIndex, block.Image())
    {
      ghost var st := State();
      ghost var lists := AfterInsert(st.lists, blockIndex, block.validCount, block.blockFactor);
      UpdateListsAfterInsert(blockIndex, block);
      assert Lists() == lists;
      var written := WriteBlockToFile(block, blockIndex);
      if !written {
        return Failure(IoError);
      }
      ghost var file := WriteBlock(codec, blockSize, st.data, blockIndex, block.Image());
      assert data == file;
      if blockIndex == totalBlocks {
        totalBlocks := totalBlocks + 1;
      }
      totalRecords := totalRecords + 1;
      SaveLists();
      SaveHeader();
      assert data == WithHeader(file, totalBlocks, totalRecords);
      InsertCommitted(codec, blockSize, st, blockIndex, block.Image(), State());
      return Success(blockIndex);
    }

    /** deleteRecord: removes the first record equal to r, scanning the
        blocks in index order. */
    method DeleteRecord(r: R) returns (res: Result<bool, Fault>)
      requires Valid()
      modifies this
      ensures (res, State()) == Delete(codec, blockSize, old(State()), r)
    {
      var blocksInFile := totalBlocks;
      var i := 0;
      while i < blocksInFile
        invariant 0 <= i
        invariant State() == old(State())
        invariant Scan(codec, blockSize, data, r, 0, blocksInFile) == Scan(codec, blockSize, data, r, i, blocksInFile)
        decreases blocksInFile - i
      {
        var got := GetBlock(i);
        if got.Failure? {
          return Failure(got.error);
        }
        var block := got.value;
        ghost var img := block.Image();
        var removed := block.RemoveRecord(r);
        DeleteAtBlock(codec, blockSize, State(), r, i, img);
        match removed {
          case NotFound =>
          case SlotOutOfRange =>
            return Failure(IndexOutOfBounds);
          case Removed(_) =>
            CommitDelete(i, block);
            return Success(true);
        }
        i := i + 1;
      }
      return Success(false);
    }

    /** The rest of deleteRecord, once the record has left block index. */
    method CommitDelete(index: nat, block: Block<R, K>)
      requires Valid() && block.Valid() && block.codec == codec && block.blockSize == blockSize
      modifies this
      ensures State() == DeleteCommit(codec, blockSize, old(State()), index, block.Image().validCount, Encode(codec, blockSize, block.Image()))
    {
      ghost var st := State();
      ghost var lists := DeleteLists(codec, blockSize, st, index, block.Image().validCount);
      ghost var file := WriteBlock(codec, blockSize, st.data, index, block.Image());
      ghost var t := DeleteTrim(codec, blockSize, st, index, block.Image().validCount);
      ghost var cut := DeleteData(codec, blockSize, st, index, block.Image().validCount, Encode(codec, blockSize, block.Image()));
      assert cut == Cut(file, blockSize, TrimmedCount(lists.empty, st.totalBlocks));
      totalRecords := totalRecords - 1;
      UpdateListsAfterDelete(index, block);
      assert Lists() == lists;
      var _ := WriteBlockToFile(block, index);
      assert data == file && totalBlocks == st.totalBlocks;
      assert emptyBlocks == lists.empty && t == Trimmed(emptyBlocks, totalBlocks);
      TrimTrailingEmptyBlocks();
      assert data == cut;
      assert totalBlocks == t.totalBlocks && Lists() == lists.(empty := t.empty);
      SaveLists();
      SaveHeader();
      SavedFrom(cut, t, lists, st.totalRecords - 1, State());
      DeleteCommitIsSaved(codec, blockSize, st, index, block.Image().validCount, Encode(codec, blockSize, block.Image()));
    }

    /** findRecord: a copy of the first record equal to r, in block order. */
    method FindRecord(r: R) returns (res: Result<Option<R>, Fault>)
      requires Valid()
      ensures res == Find(codec, blockSize, State(), r)
    {
      var i := 0;
      while i < totalBlocks
        invariant 0 <= i
        invariant Scan(codec, blockSize, data, r, 0, totalBlocks) == Scan(codec, blockSize, data, r, i, totalBlocks)
        decreases totalBlocks - i
      {
        var got := GetBlock(i);
        if got.Failure? {
          return Failure(got.error);
        }
        var found := got.value.GetCopyOfRecord(r);
        if found.Some? {
          return Success(found);
        }
        i := i + 1;
      }
      return Success(None);
    }

    // ----- list management -----

    /** updateListsAfterInsert. */
    method UpdateListsAfterInsert(index: int, block: Block<R, K>)
      modifies this
      ensures State() == old(State()).(lists := AfterInsert(old(Lists()), index, block.validCount, block.blockFactor))
    {
      if block.validCount == block.blockFactor {
        partiallyEmptyBlocks := RemoveValue(partiallyEmptyBlocks, index);
      } else if block.validCount > 0 && block.validCount < block.blockFactor {
        if index !in partiallyEmptyBlocks {
          partiallyEmptyBlocks := partiallyEmptyBlocks + [index];
        }
        emptyBlocks := RemoveValue(emptyBlocks, index);
      } else if block.validCount == 0 {
        if index !in emptyBlocks {
          emptyBlocks := emptyBlocks + [index];
        }
        partiallyEmptyBlocks := RemoveValue(partiallyEmptyBlocks, index);
      }
    }

    /** updateListsAfterDelete. */
    method UpdateListsAfterDelete(index: int, block: Block<R, K>)
      modifies this
      ensures State() == old(State()).(lists := AfterDelete(old(Lists()), index, block.validCount, block.blockFactor))
    {
      if block.validCount == 0 {
        emptyBlocks := emptyBlocks + [index];
        partiallyEmptyBlocks := RemoveValue(partiallyEmptyBlocks, index);
      } else if block.validCount < block.blockFactor {
        if index !in partiallyEmptyBlocks {
          partiallyEmptyBlocks := partiallyEmptyBlocks + [index];
        }
      }
    }

    /** trimTrailingEmptyBlocks. */
    method TrimTrailingEmptyBlocks()
      requires Valid()
      modifies this
      ensures var t := Trimmed(old(emptyBlocks), old(totalBlocks));
        && data == Cut(old(data), blockSize, TrimmedCount(old(emptyBlocks), old(totalBlocks)))
        && totalBlocks == t.totalBlocks && emptyBlocks == t.empty
      ensures partiallyEmptyBlocks == old(partiallyEmptyBlocks) && totalRecords == old(totalRecords)
      ensures emptyBlocksFile == old(emptyBlocksFile) && partialBlocksFile == old(partialBlocksFile)
    {
      ghost var cuts: nat := 0;
      while totalBlocks > 0 && totalBlocks - 1 in emptyBlocks
        invariant totalBlocks == old(totalBlocks) - cuts
        invariant Trimmed(emptyBlocks, totalBlocks) == Trimmed(old(emptyBlocks), old(totalBlocks))
        invariant data == Cut(old(data), blockSize, cuts)
        invariant partiallyEmptyBlocks == old(partiallyEmptyBlocks) && totalRecords == old(totalRecords)
        invariant emptyBlocksFile == old(emptyBlocksFile) && partialBlocksFile == old(partialBlocksFile)
        decreases totalBlocks
      {
        ghost var listed := emptyBlocks;
        TruncateLastBlock();
        TrimmedStep(listed, totalBlocks);
        emptyBlocks := RemoveValue(emptyBlocks, totalBlocks);
        cuts := cuts + 1;
      }
      assert cuts == TrimmedCount(old(emptyBlocks), old(totalBlocks));
    }

    // ----- file I/O -----

    /** writeBlockToFile: a negative index makes the seek throw. */
    method WriteBlockToFile(block: Block<R, K>, blockIndex: int) returns (ok: bool)
      requires Valid() && block.Valid() && block.codec == codec && block.blockSize == blockSize
      modifies this
      ensures ok <==> blockIndex >= 0
      ensures State() == if ok then old(State()).(data := WriteBlock(codec, blockSize, old(data), blockIndex, block.Image())) else old(State())
    {
      if blockIndex < 0 {
        return false;
      }
      var blockData := block.ToByteArray();
      data := WriteAt(data, BlockOffset(blockIndex, blockSize), blockData);
      return true;
    }

    /** getBlock: a fresh block filled from the file. */
    method GetBlock(blockIndex: int) returns (res: Result<Block<R, K>, Fault>)
      requires Valid()
      ensures res.Success? <==> ReadBlock(codec, blockSize, data, blockIndex).Success?
      ensures res.Success? ==> (fresh(res.value) && fresh(res.value.records)
        && res.value.Valid() && res.value.codec == codec && res.value.blockSize == blockSize
        && ReadBlock(codec, blockSize, data, blockIndex) == Success(res.value.Image()))
      ensures res.Failure? ==> ReadBlock(codec, blockSize, data, blockIndex) == Failure(res.error)
    {
      var block := new Block(codec, blockSize);
      var bytes := ReadAt(data, BlockOffset(blockIndex, blockSize), blockSize);
      if bytes.None? {
        return Failure(IoError);
      }
      var ok := block.FromByteArray(bytes.value);
      if !ok {
        return Failure(CorruptRecord);
      }
      return Success(block);
    }

    /** truncateLastBlock: the file loses blockSize bytes, not below zero. */
    method TruncateLastBlock()
      requires Valid()
      modifies this
      ensures data == old(data)[..Max(0, |old(data)| - blockSize)] && totalBlocks == old(totalBlocks) - 1
      ensures emptyBlocks == old(emptyBlocks) && partiallyEmptyBlocks == old(partiallyEmptyBlocks) && totalRecords == old(totalRecords)
      ensures emptyBlocksFile == old(emptyBlocksFile) && partialBlocksFile == old(partialBlocksFile)
    {
      var newLength := Max(0, |data| - blockSize);
      data := data[..newLength];
      totalBlocks := totalBlocks - 1;
    }

    /** saveHeader. */
    method SaveHeader()
      modifies this
      ensures State() == old(State()).(data := WithHeader(old(data), old(totalBlocks), old(totalRecords)))
    {
      data := WithHeader(data, totalBlocks, totalRecords);
    }

    /** loadHeader: a file shorter than eight bytes leaves the counters alone. */
    method LoadHeader()
      modifies this
      ensures State() == match HeapImages.LoadHeader(old(data))
        case None => old(State())
        case Some((tb, tr)) => old(State()).(totalBlocks := tb, totalRecords := tr)
    {
      if |data| >= HeaderLength {
        totalBlocks := DecodeInt32(data[..4]);
        totalRecords := DecodeInt32(data[4..HeaderLength]);
      }
    }

    /** saveLists: both list files rewritten from the lists. */
    method SaveLists()
      modifies this
      ensures State() == old(State()).(saved := old(Lists()))
    {
      emptyBlocksFile := emptyBlocks;
      partialBlocksFile := partiallyEmptyBlocks;
    }

    /** loadLists: both lists replaced by the list files' contents. */
    method LoadLists()
      modifies this
      ensures State() == old(State()).(lists := old(State()).saved)
    {
      emptyBlocks := emptyBlocksFile;
      partiallyEmptyBlocks := partialBlocksFile;
    }
  }
}
