/** The Block class: a fixed array of record slots plus validCount, updated
    in place, each method proved against its function in BlockImages. */
module Blocks {

  import opened Wrappers
  import opened Bytes
  import opened Records
  import opened BlockImages

  class Block<R(!new), K(==)> {
    const codec: RecordCodec<R, K>
    const recordSize: nat
    const blockSize: int
    const blockFactor: nat
    const records: array<Option<R>>
    var validCount: int

    /** The sizes fixed by the constructor. */
    ghost predicate Valid()
    {
      && codec.size > 0
      && recordSize == codec.size
      && blockSize >= HeaderSize
      && blockFactor == BlockFactor(blockSize, recordSize)
      && records.Length == blockFactor
    }

    /** The block's contents as a value. */
    function Image(): BlockImage<R>
      reads this, records
    {
      BlockImage(validCount, records[..])
    }

    /** new Block(recordType, sizeOfBlock): blockFactor slots, all null. */
    constructor (codec: RecordCodec<R, K>, sizeOfBlock: int)
      requires codec.size > 0 && sizeOfBlock >= HeaderSize
      ensures Valid() && fresh(records)
      ensures this.codec == codec && blockSize == sizeOfBlock
      ensures blockFactor == (sizeOfBlock - HeaderSize) / codec.size
      ensures Image() == EmptyImage(blockFactor)
    {
      this.codec := codec;
      recordSize := codec.size;
      blockSize := sizeOfBlock;
      var bf := BlockFactor(sizeOfBlock, codec.size);
      BlockFactorIsQuotient(sizeOfBlock, codec.size);
      blockFactor := bf;
      records := new Option<R>[bf](_ => None);
      validCount := 0;
      new;
      assert records[..] == EmptyImage<R>(bf).slots;
    }

    /** clearBlock: every slot null, validCount 0. */
    method ClearBlock()
      requires Valid()
      modifies this, records
      ensures Image() == EmptyImage(blockFactor)
    {
      forall i | 0 <= i < records.Length {
        records[i] := None;
      }
      validCount := 0;
      assert records[..] == EmptyImage<R>(blockFactor).slots;
    }

    /** addRecord: a full block ignores the record. A negative validCount
        makes the Java assignment throw ArrayIndexOutOfBoundsException,
        reported here as ok == false with nothing changed. */
    method AddRecord(r: R) returns (ok: bool)
      requires Valid()
      modifies this, records
      ensures ok <==> old(validCount) >= 0
      ensures ok ==> Image() == Added(old(Image()), r)
      ensures !ok ==> Image() == old(Image())
    {
      if validCount >= blockFactor {
        return true;
      }
      if validCount < 0 {
        return false;
      }
      records[validCount] := Some(r);
      validCount := validCount + 1;
      return true;
    }

    /** getCopyOfRecord: the first slot holding a record equal to r. */
    method GetCopyOfRecord(r: R) returns (copy: Option<R>)
      requires Valid()
      ensures copy == CopyOfMatch(codec, records[..], r)
    {
      for i := 0 to blockFactor
        invariant forall j :: 0 <= j < i ==> !Matches(codec, records[j], r)
      {
        if records[i].Some? && codec.key(records[i].value) == codec.key(r) {
          assert FirstMatch(codec, records[..], r) == Some(i);
          return records[i];
        }
      }
      return None;
    }

    /** compact, after validCount has been decremented. */
    method Compact(removedIndex: nat, copy: R)
      requires removedIndex < records.Length && 0 <= validCount < records.Length
      modifies records
      ensures records[..] == Compacted(old(records[..]), removedIndex, validCount, copy)
    {
      ghost var before := records[..];
      var i := removedIndex;
      while i < validCount
        invariant removedIndex <= i
        invariant i <= validCount || i == removedIndex
        invariant forall j :: 0 <= j < removedIndex ==> records[j] == before[j]
        invariant forall j :: removedIndex <= j < i ==> records[j] == before[j + 1]
        invariant forall j :: i <= j < records.Length ==> records[j] == before[j]
      {
        records[i] := records[i + 1];
        i := i + 1;
      }
      records[validCount] := Some(copy);
      ghost var after := Compacted(before, removedIndex, validCount, copy);
      forall j | 0 <= j < records.Length
        ensures records[j] == after[j]
      {
        if j == validCount {
        } else if removedIndex <= j < validCount {
          assert records[j] == before[j + 1];
        } else {
          assert records[j] == before[j];
        }
      }
      assert records[..] == after;
    }

    /** removeRecord: finds the first match over all slots, decrements
        validCount and compacts; the compaction's out-of-range index is
        reported as SlotOutOfRange before anything changes. */
    method RemoveRecord(r: R) returns (removal: Removal<R>)
      requires Valid()
      modifies this, records
      ensures (removal, Image()) == Remove(codec, old(Image()), r)
    {
      for i := 0 to blockFactor
        invariant forall j :: 0 <= j < i ==> !Matches(codec, records[j], r)
      {
        if records[i].Some? && codec.key(records[i].value) == codec.key(r) {
          assert FirstMatch(codec, records[..], r) == Some(i);
          if !(1 <= validCount <= blockFactor) {
            return SlotOutOfRange;
          }
          var copy := records[i].value;
          validCount := validCount - 1;
          Compact(i, copy);
          return Removed(copy);
        }
      }
      return NotFound;
    }

    /** toByteArray. */
    method ToByteArray() returns (bytes: seq<Byte>)
      requires Valid()
      ensures bytes == Encode(codec, blockSize, Image())
    {
      bytes := EncodeInt32(validCount);
      for i := 0 to blockFactor
        invariant bytes == EncodeInt32(validCount) + EncodeSlots(codec, records[..i])
      {
        assert records[..i + 1][..i] == records[..i];
        if records[i].Some? {
          bytes := bytes + codec.encode(records[i].value);
        } else {
          bytes := bytes + Zeros(recordSize);
        }
      }
      assert records[..blockFactor] == records[..];
      if |bytes| < blockSize {
        bytes := bytes + Zeros(blockSize - |bytes|);
      }
    }

    /** fromByteArray: validCount from the first four bytes, then a record
        decoded from every slot. When a slot cannot be decoded the Java
        method throws; the state it leaves then is described by the last
        ensures: validCount already read, the slots before the failing one
        filled, the rest null. */
    method FromByteArray(bytes: seq<Byte>) returns (ok: bool)
      requires Valid() && |bytes| == blockSize
      modifies this, records
      ensures validCount == DecodeInt32(bytes[..HeaderSize])
      ensures ok <==> Decode(codec, blockFactor, bytes).Some?
      ensures ok ==> Image() == Decode(codec, blockFactor, bytes).value
      ensures !ok ==> exists k :: (0 <= k < blockFactor
        && codec.decode(SlotBytes(bytes, recordSize, blockFactor, k)).None?
        && (forall j :: 0 <= j < k ==> records[j] == codec.decode(SlotBytes(bytes, recordSize, blockFactor, j)))
        && (forall j :: k <= j < blockFactor ==> records[j] == None))
    {
      ClearBlock();
      validCount := DecodeInt32(bytes[..HeaderSize]);
      for i := 0 to blockFactor
        invariant validCount == DecodeInt32(bytes[..HeaderSize])
        invariant forall j :: 0 <= j < i ==> records[j] == codec.decode(SlotBytes(bytes, recordSize, blockFactor, j))
        invariant forall j :: 0 <= j < i ==> records[j].Some?
        invariant forall j :: i <= j < blockFactor ==> records[j] == None
      {
        var record := codec.decode(SlotBytes(bytes, recordSize, blockFactor, i));
        if record.None? {
          return false;
        }
        records[i] := record;
      }
      ok := true;
      assert records[..] == Decode(codec, blockFactor, bytes).value.slots;
    }
  }
}
