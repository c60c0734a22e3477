/** What insertRecord, deleteRecord and findRecord promise about the heap
    file as a whole: the counters, the block lists, the bytes written, and
    what a later open of the same files sees. */
module HeapProperties {

  import opened Wrappers
  import opened Bytes
  import opened Records
  import opened BlockImages
  import opened FreeLists
  import opened HeapImages
  import OsobaRecord

  // ----- insertRecord -----

  /** With persons as records, the header's totalRecords lands on slot 0's
      first-name length prefix. Once totalRecords exceeds the characters that
      slot's first-name field keeps, block 0 no longer decodes: getBlock(0)
      throws, and so does every scan that reaches block 0. */
  lemma HeaderCorruptsPersonInBlockZero(blockSize: int, data: seq<Byte>, totalBlocks: Int32, totalRecords: Int32)
    requires blockSize >= HeaderSize + OsobaRecord.GetSize() && |data| >= blockSize
    requires totalRecords > |OsobaRecord.StripNul(OsobaRecord.BytesToChars(data[8..38], OsobaRecord.MaxMenoLength))|
    ensures ReadBlock(OsobaRecord.Codec(), blockSize, WithHeader(data, totalBlocks, totalRecords), 0) == Failure(CorruptRecord)
  {
    var file := WithHeader(data, totalBlocks, totalRecords);
    var slot := file[HeaderSize..HeaderSize + OsobaRecord.Codec().size];
    assert slot[0..4] == file[4..8];
    Int32RoundTrip(totalRecords);
    assert slot[4..34] == data[8..38];
    OsobaRecord.CodecRejectsLongMenoPrefix(slot);
    UndecodableSlotZero(OsobaRecord.Codec(), blockSize, file);
  }

  /** When the block insertRecord chose already reads as full, addRecord
      leaves it as it was, yet insertRecord still answers that block's index,
      counts one more record and writes the unchanged block back: the record
      is not stored. Block 0 reads this way whenever totalBlocks, which the
      header writes over its count, is at least blockFactor. */
  lemma InsertIntoFullBlockDropsRecord<R, K>(c: RecordCodec<R, K>, blockSize: int, st: HeapState, r: R)
    requires c.size > 0 && blockSize >= HeaderSize
    requires InsertStart(c, blockSize, st).Success?
    requires |InsertStart(c, blockSize, st).value.slots| <= InsertStart(c, blockSize, st).value.validCount
    requires 0 <= TakeTarget(st.lists, st.totalBlocks).index
    ensures var t := TakeTarget(st.lists, st.totalBlocks);
      var img := InsertStart(c, blockSize, st).value;
      var st' := Insert(c, blockSize, st, r).1;
      && Insert(c, blockSize, st, r).0 == Success(t.index)
      && st'.totalRecords == st.totalRecords + 1
      && st'.data == WithHeader(WriteBlock(c, blockSize, st.data, t.index, img), st'.totalBlocks, st'.totalRecords)
  {
    var t := TakeTarget(st.lists, st.totalBlocks);
    var img := InsertStart(c, blockSize, st).value;
    assert Added(img, r) == img;
    InsertCommitSteps(c, blockSize, st.(lists := t.rest), t.index, img);
  }

  /** insertRecord returns the block TakeTarget chose, counts one more
      record, adds a block exactly when it chose totalBlocks, and saves the
      lists; when it throws, the data file, the counters and the saved
      lists are untouched. */
  lemma InsertOutcome<R, K>(c: RecordCodec<R, K>, blockSize: int, st: HeapState, r: R)
    requires c.size > 0 && blockSize >= HeaderSize
    ensures var t := TakeTarget(st.lists, st.totalBlocks);
      var res := Insert(c, blockSize, st, r).0;
      var st' := Insert(c, blockSize, st, r).1;
      && (res.Success? ==>
            && res.value == t.index
            && st'.totalRecords == st.totalRecords + 1
            && st'.totalBlocks == (if t.index == st.totalBlocks then st.totalBlocks + 1 else st.totalBlocks)
            && st'.saved == st'.lists)
      && (res.Failure? ==>
            st'.data == st.data && st'.totalBlocks == st.totalBlocks
            && st'.totalRecords == st.totalRecords && st'.saved == st.saved)
  {
    var t := TakeTarget(st.lists, st.totalBlocks);
    match InsertStart(c, blockSize, st)
    case Failure(_) =>
    case Success(img) =>
      if img.validCount >= 0 {
        InsertCommitSteps(c, blockSize, st.(lists := t.rest), t.index, Added(img, r));
      }
  }

  /** Other indexes keep their lists when the target is taken. */
  lemma TakeTargetKeepsOthers(l: Lists, totalBlocks: int)
    ensures var t := TakeTarget(l, totalBlocks);
      forall y :: y != t.index ==> (y in t.rest.empty <==> y in l.empty) && (y in t.rest.partial <==> y in l.partial)
  {
    var t := TakeTarget(l, totalBlocks);
    if |l.partial| > 0 {
      assert l.partial == [t.index] + l.partial[1..];
    } else if |l.empty| > 0 {
      assert l.empty == [t.index] + l.empty[1..];
    }
  }

  /** After insertRecord the target is filed by its new fill: a full block
      is in no list of partial blocks, a partial one is listed once as
      partial and not as empty; every other index keeps its lists, and the
      lists stay well formed. */
  lemma InsertFilesTarget<R, K>(c: RecordCodec<R, K>, blockSize: int, st: HeapState, r: R, img: BlockImage<R>)
    requires c.size > 0 && blockSize >= HeaderSize && WellFormed(st.lists)
    requires InsertStart(c, blockSize, st) == Success(img) && Insert(c, blockSize, st, r).0.Success?
    ensures img.validCount >= 0
    ensures var i := Insert(c, blockSize, st, r).0.value;
      var l' := Insert(c, blockSize, st, r).1.lists;
      var bf := BlockFactor(blockSize, c.size);
      var n := if img.validCount < bf then img.validCount + 1 else img.validCount;
      && WellFormed(l')
      && (n == bf ==> i !in l'.partial)
      && (0 < n < bf ==> i in l'.partial && i !in l'.empty)
      && (forall y :: y != i ==> (y in l'.empty <==> y in st.lists.empty) && (y in l'.partial <==> y in st.lists.partial))
  {
    var t := TakeTarget(st.lists, st.totalBlocks);
    TakeTargetFrees(st.lists, st.totalBlocks);
    TakeTargetKeepsOthers(st.lists, st.totalBlocks);
    var added := Added(img, r);
    AfterInsertClassifies(t.rest, t.index, added.validCount, BlockFactor(blockSize, c.size));
    InsertCommitSteps(c, blockSize, st.(lists := t.rest), t.index, added);
  }

  /** insertRecord keeps the lists well formed, on every path. */
  lemma InsertKeepsListsWellFormed<R, K>(c: RecordCodec<R, K>, blockSize: int, st: HeapState, r: R)
    requires c.size > 0 && blockSize >= HeaderSize && WellFormed(st.lists)
    ensures WellFormed(Insert(c, blockSize, st, r).1.lists)
  {
    var t := TakeTarget(st.lists, st.totalBlocks);
    TakeTargetFrees(st.lists, st.totalBlocks);
    match InsertStart(c, blockSize, st)
    case Failure(_) =>
    case Success(img) =>
      if img.validCount >= 0 {
        var added := Added(img, r);
        AfterInsertClassifies(t.rest, t.index, added.validCount, BlockFactor(blockSize, c.size));
        InsertCommitSteps(c, blockSize, st.(lists := t.rest), t.index, added);
      }
  }

  /** A block other than block 0 reads back, after insertRecord, as the
      decoding of the block with the record added: the header written last
      lies inside block 0. */
  lemma InsertWritesBlock<R(!new), K>(c: RecordCodec<R, K>, blockSize: int, st: HeapState, r: R, img: BlockImage<R>)
    requires ValidCodec(c) && blockSize >= HeaderLength
    requires InsertStart(c, blockSize, st) == Success(img) && Insert(c, blockSize, st, r).0.Success?
    requires Insert(c, blockSize, st, r).0.value >= 1
    ensures img.validCount >= 0
    ensures var decoded := Decode(c, |img.slots|, Encode(c, blockSize, Added(img, r)));
      ReadBlock(c, blockSize, Insert(c, blockSize, st, r).1.data, Insert(c, blockSize, st, r).0.value)
        == if decoded.Some? then Success(decoded.value) else Failure(CorruptRecord)
  {
    var t := TakeTarget(st.lists, st.totalBlocks);
    var added := Added(img, r);
    InsertCommitSteps(c, blockSize, st.(lists := t.rest), t.index, added);
    var st' := Insert(c, blockSize, st, r).1;
    var file := WriteBlock(c, blockSize, st.data, t.index, added);
    WriteThenReadBlock(c, blockSize, st.data, t.index, added);
    HeaderKeepsOtherBlocks(c, blockSize, file, st'.totalBlocks, st'.totalRecords, t.index);
  }

  /** What insertRecord saved is what the next HeapFile over the same files
      loads, as long as the counters fit the header's ints. */
  lemma InsertPersists<R, K>(c: RecordCodec<R, K>, blockSize: int, st: HeapState, r: R)
    requires c.size > 0 && blockSize >= HeaderSize && Insert(c, blockSize, st, r).0.Success?
    requires -0x8000_0000 <= Insert(c, blockSize, st, r).1.totalBlocks < 0x8000_0000
    requires -0x8000_0000 <= Insert(c, blockSize, st, r).1.totalRecords < 0x8000_0000
    ensures var st' := Insert(c, blockSize, st, r).1;
      Open(Disk(Some(st'.data), st'.saved.empty, st'.saved.partial)) == st'
  {
    var t := TakeTarget(st.lists, st.totalBlocks);
    var img := InsertStart(c, blockSize, st).value;
    var added := Added(img, r);
    InsertCommitSteps(c, blockSize, st.(lists := t.rest), t.index, added);
    var st' := Insert(c, blockSize, st, r).1;
    Reopen(WriteBlock(c, blockSize, st.data, t.index, added), st'.lists, st'.totalBlocks, st'.totalRecords);
  }

  // ----- deleteRecord -----

  /** deleteRecord answers false exactly when every block can be read and
      none holds a record equal to r; unless it answers true, nothing
      changes. */
  lemma DeleteReportsAbsence<R, K>(c: RecordCodec<R, K>, blockSize: int, st: HeapState, r: R)
    requires c.size > 0 && blockSize >= HeaderSize
    ensures Delete(c, blockSize, st, r).0 == Success(false) <==>
      forall j :: 0 <= j < st.totalBlocks ==>
        ReadBlock(c, blockSize, st.data, j).Success? && FirstMatch(c, ReadBlock(c, blockSize, st.data, j).value.slots, r).None?
    ensures Delete(c, blockSize, st, r).0 != Success(true) ==> Delete(c, blockSize, st, r).1 == st
  {
    ScanNoMatch(c, blockSize, st.data, r, 0, st.totalBlocks);
  }

  /** A successful deleteRecord removed from the first block, in index
      order, holding a record equal to r, and from the first such slot in
      it. */
  lemma DeleteRemovesFirstMatch<R, K>(c: RecordCodec<R, K>, blockSize: int, st: HeapState, r: R)
    requires c.size > 0 && blockSize >= HeaderSize && Delete(c, blockSize, st, r).0 == Success(true)
    ensures var m := Scan(c, blockSize, st.data, r, 0, st.totalBlocks);
      && m.Match? && 0 <= m.index < st.totalBlocks
      && ReadBlock(c, blockSize, st.data, m.index) == Success(m.image)
      && FirstMatch(c, m.image.slots, r) == Some(m.slot)
      && (forall j :: 0 <= j < m.index ==>
            ReadBlock(c, blockSize, st.data, j).Success? && FirstMatch(c, ReadBlock(c, blockSize, st.data, j).value.slots, r).None?)
  {
    DeleteSucceeded(c, blockSize, st, r);
  }

  /** After a successful deleteRecord the record count drops by one, no
      block is added, the last block is not left listed as empty, and the
      lists are saved. */
  lemma DeleteOutcome<R, K>(c: RecordCodec<R, K>, blockSize: int, st: HeapState, r: R)
    requires c.size > 0 && blockSize >= HeaderSize && Delete(c, blockSize, st, r).0 == Success(true)
    ensures var st' := Delete(c, blockSize, st, r).1;
      && st'.totalRecords == st.totalRecords - 1
      && st'.totalBlocks <= st.totalBlocks
      && LastNotEmpty(st'.lists.empty, st'.totalBlocks)
      && st'.saved == st'.lists
  {
    var m := Scan(c, blockSize, st.data, r, 0, st.totalBlocks);
    DeleteSucceeded(c, blockSize, st, r);
    var out := RemoveAt(m.image, m.slot).value.1;
    DeleteCommitOutcome(c, blockSize, st, m.index, out.validCount, Encode(c, blockSize, out));
    var st' := DeleteCommit(c, blockSize, st, m.index, out.validCount, Encode(c, blockSize, out));
    assert Delete(c, blockSize, st, r).1 == st';
  }

  /** The commit half of deleteRecord, whatever block it is given. */
  lemma DeleteCommitOutcome<R, K>(c: RecordCodec<R, K>, blockSize: int, st: HeapState, index: nat, validCount: int, bytes: seq<Byte>)
    requires c.size > 0 && blockSize >= HeaderSize
    ensures var st' := DeleteCommit(c, blockSize, st, index, validCount, bytes);
      && st'.totalRecords == st.totalRecords - 1
      && st'.totalBlocks <= st.totalBlocks
      && LastNotEmpty(st'.lists.empty, st'.totalBlocks)
      && st'.saved == st'.lists
  {
    DeleteCommitSteps(c, blockSize, st, index, validCount, bytes);
  }

  /** After a successful deleteRecord the block it removed from is filed by
      its new fill: emptied, it is listed as empty (unless trimmed away) and
      not as partial; partly filled, it is listed as partial. Every other
      index below the new totalBlocks keeps its lists, and the lists stay
      well formed, provided that block was not listed as empty before (it
      held a record, so consistent lists would not list it). */
  lemma DeleteFilesBlock<R, K>(c: RecordCodec<R, K>, blockSize: int, st: HeapState, r: R)
    requires c.size > 0 && blockSize >= HeaderSize && Delete(c, blockSize, st, r).0 == Success(true)
    requires WellFormed(st.lists) && Scan(c, blockSize, st.data, r, 0, st.totalBlocks).index !in st.lists.empty
    ensures var m := Scan(c, blockSize, st.data, r, 0, st.totalBlocks);
      var n := m.image.validCount - 1;
      var l' := Delete(c, blockSize, st, r).1.lists;
      var tb' := Delete(c, blockSize, st, r).1.totalBlocks;
      && WellFormed(l')
      && (n == 0 && m.index < tb' ==> m.index in l'.empty)
      && (n == 0 ==> m.index !in l'.partial)
      && (0 < n < BlockFactor(blockSize, c.size) ==> m.index in l'.partial)
      && (forall y :: y != m.index && y < tb' ==> (y in l'.empty <==> y in st.lists.empty) && (y in l'.partial <==> y in st.lists.partial))
  {
    var m := Scan(c, blockSize, st.data, r, 0, st.totalBlocks);
    DeleteSucceeded(c, blockSize, st, r);
    var out := RemoveAt(m.image, m.slot).value.1;
    assert out.validCount == m.image.validCount - 1;
    DeleteCommitFiles(c, blockSize, st, m.index, out.validCount, Encode(c, blockSize, out));
    var st' := DeleteCommit(c, blockSize, st, m.index, out.validCount, Encode(c, blockSize, out));
    assert Delete(c, blockSize, st, r).1 == st';
  }

  /** The commit half of deleteRecord files block index by the fill it is
      given. */
  lemma DeleteCommitFiles<R, K>(c: RecordCodec<R, K>, blockSize: int, st: HeapState, index: nat, validCount: int, bytes: seq<Byte>)
    requires c.size > 0 && blockSize >= HeaderSize
    requires WellFormed(st.lists) && index !in st.lists.empty
    ensures var st' := DeleteCommit(c, blockSize, st, index, validCount, bytes);
      var n := validCount;
      var l' := st'.lists;
      && WellFormed(l')
      && (n == 0 && index < st'.totalBlocks ==> index in l'.empty)
      && (n == 0 ==> index !in l'.partial)
      && (0 < n < BlockFactor(blockSize, c.size) ==> index in l'.partial)
      && (forall y :: y != index && y < st'.totalBlocks ==> (y in l'.empty <==> y in st.lists.empty) && (y in l'.partial <==> y in st.lists.partial))
  {
    var lists := DeleteLists(c, blockSize, st, index, validCount);
    AfterDeleteClassifies(st.lists, index, validCount, BlockFactor(blockSize, c.size));
    TrimmedRemovesTrimmed(lists.empty, st.totalBlocks);
    DeleteCommitSteps(c, blockSize, st, index, validCount, bytes);
    var t := DeleteTrim(c, blockSize, st, index, validCount);
    assert t == Trimmed(lists.empty, st.totalBlocks);
  }

  /** What deleteRecord saved is what the next HeapFile over the same files
      loads, as long as the counters fit the header's ints. */
  lemma DeletePersists<R, K>(c: RecordCodec<R, K>, blockSize: int, st: HeapState, r: R)
    requires c.size > 0 && blockSize >= HeaderSize && Delete(c, blockSize, st, r).0 == Success(true)
    requires -0x8000_0000 <= Delete(c, blockSize, st, r).1.totalBlocks < 0x8000_0000
    requires -0x8000_0000 <= Delete(c, blockSize, st, r).1.totalRecords < 0x8000_0000
    ensures var st' := Delete(c, blockSize, st, r).1;
      Open(Disk(Some(st'.data), st'.saved.empty, st'.saved.partial)) == st'
  {
    var m := Scan(c, blockSize, st.data, r, 0, st.totalBlocks);
    DeleteSucceeded(c, blockSize, st, r);
    var out := RemoveAt(m.image, m.slot).value.1;
    var st' := DeleteCommit(c, blockSize, st, m.index, out.validCount, Encode(c, blockSize, out));
    assert Delete(c, blockSize, st, r).1 == st';
    DeleteCommitIsSaved(c, blockSize, st, m.index, out.validCount, Encode(c, blockSize, out));
    SavedPersists(DeleteData(c, blockSize, st, m.index, out.validCount, Encode(c, blockSize, out)), DeleteTrim(c, blockSize, st, m.index, out.validCount),
      DeleteLists(c, blockSize, st, m.index, out.validCount), st.totalRecords - 1);
  }

  /** The files saveLists and saveHeader leave reopen as the state they
      were saved from, while the counters fit in an int. */
  lemma SavedPersists(data: seq<Byte>, t: Trim, lists: Lists, totalRecords: int)
    requires -0x8000_0000 <= t.totalBlocks < 0x8000_0000 && -0x8000_0000 <= totalRecords < 0x8000_0000
    ensures var st' := Saved(data, t, lists, totalRecords);
      Open(Disk(Some(st'.data), st'.saved.empty, st'.saved.partial)) == st'
  {
    Reopen(data, lists.(empty := t.empty), t.totalBlocks, totalRecords);
  }

  // ----- findRecord -----

  /** findRecord answers None exactly when every block can be read and
      none holds a record equal to r; a record it returns is a copy of the
      first match, in block and then slot order, and carries r's key. */
  lemma FindReportsMatch<R, K>(c: RecordCodec<R, K>, blockSize: int, st: HeapState, r: R)
    requires c.size > 0 && blockSize >= HeaderSize
    ensures Find(c, blockSize, st, r) == Success(None) <==>
      forall j :: 0 <= j < st.totalBlocks ==>
        ReadBlock(c, blockSize, st.data, j).Success? && FirstMatch(c, ReadBlock(c, blockSize, st.data, j).value.slots, r).None?
    ensures Find(c, blockSize, st, r).Success? && Find(c, blockSize, st, r).value.Some? ==>
      var m := Scan(c, blockSize, st.data, r, 0, st.totalBlocks);
      && m.Match? && 0 <= m.index < st.totalBlocks
      && ReadBlock(c, blockSize, st.data, m.index).Success?
      && Find(c, blockSize, st, r).value == CopyOfMatch(c, ReadBlock(c, blockSize, st.data, m.index).value.slots, r)
      && c.key(Find(c, blockSize, st, r).value.value) == c.key(r)
  {
    ScanNoMatch(c, blockSize, st.data, r, 0, st.totalBlocks);
  }

  /** findRecord finds a record exactly where deleteRecord would remove
      one: when deleteRecord answers true, findRecord on the same state
      returns a record. */
  lemma FindAgreesWithDelete<R, K>(c: RecordCodec<R, K>, blockSize: int, st: HeapState, r: R)
    requires c.size > 0 && blockSize >= HeaderSize
    ensures Delete(c, blockSize, st, r).0 == Success(true) ==> Find(c, blockSize, st, r).Success? && Find(c, blockSize, st, r).value.Some?
    ensures Delete(c, blockSize, st, r).0 == Success(false) <==> Find(c, blockSize, st, r) == Success(None)
  {
    var m := Scan(c, blockSize, st.data, r, 0, st.totalBlocks);
    if m.Match? {
      assert m.image.slots[m.slot].Some?;
    }
  }
}
