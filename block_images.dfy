/** The value-level specification of a Block: its slots and validCount as a
    value, and the functions that addRecord, removeRecord, compact,
    getCopyOfRecord, toByteArray and fromByteArray compute on it. */
module BlockImages {

  import opened Wrappers
  import opened Bytes
  import opened Records

  /** Integer.BYTES: the validCount in front of the slots. */
  const HeaderSize: nat := 4

  /** i * recordSize, written as a repeated sum so that the layout proofs
      stay within linear arithmetic. */
  function Stride(recordSize: nat, i: nat): (r: nat)
  {
    if i == 0 then 0 else Stride(recordSize, i - 1) + recordSize
  }

  /** Slot j ends no later than slot i starts. */
  lemma {:induction false} StrideMonotone(recordSize: nat, j: nat, i: nat)
    requires j < i
    ensures Stride(recordSize, j) + recordSize <= Stride(recordSize, i)
    decreases i
  {
    if j < i - 1 {
      StrideMonotone(recordSize, j, i - 1);
    }
  }

  lemma {:induction false} StrideIsProduct(recordSize: nat, i: nat)
    ensures Stride(recordSize, i) == i * recordSize
  {
    if i > 0 {
      StrideIsProduct(recordSize, i - 1);
    }
  }

  /** blockFactor: how many records fit after the header, counted one
      record at a time. */
  function BlockFactor(blockSize: int, recordSize: nat): (bf: nat)
    requires blockSize >= HeaderSize && recordSize > 0
    ensures HeaderSize + Stride(recordSize, bf) <= blockSize < HeaderSize + Stride(recordSize, bf) + recordSize
    decreases blockSize
  {
    if blockSize < HeaderSize + recordSize then 0
    else BlockFactor(blockSize - recordSize, recordSize) + 1
  }

  /** The count is Java's (sizeOfBlock - Integer.BYTES) / recordSize. */
  lemma BlockFactorIsQuotient(blockSize: int, recordSize: nat)
    requires blockSize >= HeaderSize && recordSize > 0
    ensures BlockFactor(blockSize, recordSize) == (blockSize - HeaderSize) / recordSize
  {
    var bf := BlockFactor(blockSize, recordSize);
    StrideIsProduct(recordSize, bf);
    DivModUnique(blockSize - HeaderSize, recordSize, bf, blockSize - HeaderSize - bf * recordSize);
  }

  /** A block's contents: the validCount field and the blockFactor slots,
      None standing for Java's null. */
  datatype BlockImage<R> = BlockImage(validCount: int, slots: seq<Option<R>>)

  /** A freshly constructed block. */
  function EmptyImage<R>(bf: nat): (img: BlockImage<R>)
    ensures img.validCount == 0 && |img.slots| == bf
    ensures forall i :: 0 <= i < bf ==> img.slots[i] == None
  {
    BlockImage(0, seq(bf, _ => None))
  }

  /** currentRecord != null && currentRecord.isEqual(record). */
  predicate Matches<R, K(==)>(c: RecordCodec<R, K>, slot: Option<R>, r: R)
  {
    slot.Some? && IsEqual(c, slot.value, r)
  }

  /** The scan of removeRecord and getCopyOfRecord: the lowest slot, among
      all of them, whose record matches r. */
  function FirstMatch<R, K(==)>(c: RecordCodec<R, K>, slots: seq<Option<R>>, r: R): (m: Option<nat>)
    ensures m.Some? ==> m.value < |slots| && Matches(c, slots[m.value], r)
    ensures m.Some? ==> forall j :: 0 <= j < m.value ==> !Matches(c, slots[j], r)
    ensures m.None? ==> forall j :: 0 <= j < |slots| ==> !Matches(c, slots[j], r)
  {
    if |slots| == 0 then None
    else if Matches(c, slots[0], r) then Some(0)
    else
      match FirstMatch(c, slots[1..], r)
      case None => None
      case Some(i) => Some(i + 1)
  }

  /** getCopyOfRecord: the record in the first matching slot, or null. */
  function CopyOfMatch<R, K(==)>(c: RecordCodec<R, K>, slots: seq<Option<R>>, r: R): (res: Option<R>)
  {
    match FirstMatch(c, slots, r)
    case None => None
    case Some(i) => slots[i]
  }

  /** addRecord: ignored on a full block, else the record goes to slot
      validCount. (A negative validCount makes the Java code index outside
      the array, so it is excluded here.) */
  function Added<R>(img: BlockImage<R>, r: R): (out: BlockImage<R>)
    requires 0 <= img.validCount
  {
    if img.validCount >= |img.slots| then img
    else BlockImage(img.validCount + 1, img.slots[img.validCount := Some(r)])
  }

  /** compact(removedIndex, copy) once validCount has been decremented: the
      slots after removedIndex, up to the new validCount, move one place
      left, and the removed record's copy lands in slot validCount. */
  function Compacted<R>(slots: seq<Option<R>>, removedIndex: nat, validCount: nat, copy: R): (out: seq<Option<R>>)
    requires removedIndex < |slots| && validCount < |slots|
    ensures |out| == |slots|
  {
    seq(|slots|, j requires 0 <= j < |slots| =>
      if j == validCount then Some(copy)
      else if removedIndex <= j < validCount then slots[j + 1]
      else slots[j])
  }

  /** What removeRecord returns: null, the removed record's copy, or the
      ArrayIndexOutOfBoundsException the compaction throws when validCount
      is outside 1..blockFactor. */
  datatype Removal<R> = NotFound | Removed(copy: R) | SlotOutOfRange

  /** Removing the record found in slot i. */
  function RemoveAt<R>(img: BlockImage<R>, i: nat): Option<(R, BlockImage<R>)>
    requires i < |img.slots| && img.slots[i].Some?
  {
    if 1 <= img.validCount <= |img.slots| then
      var copy := img.slots[i].value;
      Some((copy, BlockImage(img.validCount - 1, Compacted(img.slots, i, img.validCount - 1, copy))))
    else None
  }

  /** removeRecord. */
  function Remove<R, K(==)>(c: RecordCodec<R, K>, img: BlockImage<R>, r: R): (Removal<R>, BlockImage<R>)
  {
    match FirstMatch(c, img.slots, r)
    case None => (NotFound, img)
    case Some(i) =>
      match RemoveAt(img, i)
      case None => (SlotOutOfRange, img)
      case Some((copy, out)) => (Removed(copy), out)
  }

  // ----- density: what the slot array means -----

  /** Slots below validCount are occupied. */
  ghost predicate Dense<R>(img: BlockImage<R>)
  {
    0 <= img.validCount <= |img.slots| && forall i :: 0 <= i < img.validCount ==> img.slots[i].Some?
  }

  /** The records a dense block holds, in slot order. */
  function Occupied<R>(img: BlockImage<R>): (rs: seq<R>)
    requires Dense(img)
    ensures |rs| == img.validCount
  {
    seq(img.validCount, i requires 0 <= i < img.validCount && Dense(img) => img.slots[i].value)
  }

  /** Adding to a dense block that is not full appends the record. */
  lemma AddAppends<R>(img: BlockImage<R>, r: R)
    requires Dense(img) && img.validCount < |img.slots|
    ensures Dense(Added(img, r))
    ensures Occupied(Added(img, r)) == Occupied(img) + [r]
  {
    var out := Added(img, r);
    assert Dense(out);
    assert Occupied(out) == Occupied(img) + [r] by {
      forall i | 0 <= i < out.validCount
        ensures Occupied(out)[i] == (Occupied(img) + [r])[i]
      {
      }
    }
  }

  /** Removing the first match, found at slot i below validCount, deletes
      that record and keeps the others in order; the removed record's copy
      stays behind in slot validCount, the first slot past the new count. */
  lemma RemoveDeletes<R, K>(c: RecordCodec<R, K>, img: BlockImage<R>, r: R, i: nat)
    requires Dense(img) && FirstMatch(c, img.slots, r) == Some(i) && i < img.validCount
    ensures var (removal, out) := Remove(c, img, r);
      && removal == Removed(Occupied(img)[i])
      && out.validCount == img.validCount - 1
      && Dense(out)
      && Occupied(out) == Occupied(img)[..i] + Occupied(img)[i + 1..]
      && out.slots[out.validCount] == Some(Occupied(img)[i])
  {
    var (removal, out) := Remove(c, img, r);
    var before := Occupied(img);
    assert Dense(out);
    var after := Occupied(out);
    assert |after| == |before[..i] + before[i + 1..]|;
    forall j | 0 <= j < |after|
      ensures after[j] == (before[..i] + before[i + 1..])[j]
    {
      if j < i {
        assert after[j] == before[j];
      } else {
        assert after[j] == before[j + 1];
      }
    }
  }

  /** removeRecord answers null exactly when no slot, among all of them,
      holds a matching record, and then the block is unchanged. */
  lemma RemoveMisses<R, K>(c: RecordCodec<R, K>, img: BlockImage<R>, r: R)
    ensures Remove(c, img, r).0 == NotFound <==> forall j :: 0 <= j < |img.slots| ==> !Matches(c, img.slots[j], r)
    ensures Remove(c, img, r).0 == NotFound ==> Remove(c, img, r).1 == img
  {
    if FirstMatch(c, img.slots, r).Some? {
      var i := FirstMatch(c, img.slots, r).value;
      assert Matches(c, img.slots[i], r);
    }
  }

  /** The removed record is still found by the scan after its removal,
      because compaction parks its copy in the freed slot. */
  lemma RemovedRecordStillFound<R, K>(c: RecordCodec<R, K>, img: BlockImage<R>, r: R)
    requires Remove(c, img, r).0.Removed?
    ensures CopyOfMatch(c, Remove(c, img, r).1.slots, r).Some?
  {
    var out := Remove(c, img, r).1;
    assert Matches(c, out.slots[out.validCount], r);
  }

  /** Inserting a record whose key no occupied slot holds, then removing it
      by that key, gives back the same validCount and the same records; the
      record's copy remains in the slot it was added to. */
  lemma AddThenRemove<R, K>(c: RecordCodec<R, K>, img: BlockImage<R>, r: R)
    requires Dense(img) && img.validCount < |img.slots|
    requires forall j :: 0 <= j < img.validCount ==> !Matches(c, img.slots[j], r)
    ensures var (removal, out) := Remove(c, Added(img, r), r);
      && removal == Removed(r)
      && out == Added(img, r).(validCount := img.validCount)
      && Dense(out) && Occupied(out) == Occupied(img)
  {
    var added := Added(img, r);
    var vc := img.validCount;
    assert forall j :: 0 <= j < vc ==> added.slots[j] == img.slots[j];
    assert Matches(c, added.slots[vc], r);
    assert FirstMatch(c, added.slots, r) == Some(vc);
    var (removal, out) := Remove(c, added, r);
    assert out.slots == added.slots;
    assert Occupied(out) == Occupied(img);
  }

  // ----- byte layout -----

  /** One slot's bytes: the record's encoding, or recordSize zero bytes for null. */
  function EncodeSlot<R, K>(c: RecordCodec<R, K>, slot: Option<R>): seq<Byte>
  {
    match slot
    case None => Zeros(c.size)
    case Some(r) => c.encode(r)
  }

  function EncodeSlots<R, K>(c: RecordCodec<R, K>, slots: seq<Option<R>>): seq<Byte>
  {
    if |slots| == 0 then [] else EncodeSlots(c, slots[..|slots| - 1]) + EncodeSlot(c, slots[|slots| - 1])
  }

  /** toByteArray: validCount, every slot, then zero padding up to blockSize. */
  function Encode<R, K>(c: RecordCodec<R, K>, blockSize: int, img: BlockImage<R>): seq<Byte>
  {
    var body := EncodeInt32(img.validCount) + EncodeSlots(c, img.slots);
    if |body| < blockSize then body + Zeros(blockSize - |body|) else body
  }

  /** A slice of a concatenation that lies within one of its halves. */
  lemma SliceOfConcat(a: seq<Byte>, b: seq<Byte>, lo: nat, hi: nat)
    requires lo <= hi <= |a| + |b|
    ensures hi <= |a| ==> (a + b)[lo..hi] == a[lo..hi]
    ensures |a| <= lo ==> (a + b)[lo..hi] == b[lo - |a|..hi - |a|]
  {
  }

  lemma {:induction false} EncodeSlotsLength<R(!new), K>(c: RecordCodec<R, K>, slots: seq<Option<R>>)
    requires ValidCodec(c)
    ensures |EncodeSlots(c, slots)| == Stride(c.size, |slots|)
  {
    if |slots| > 0 {
      EncodeSlotsLength(c, slots[..|slots| - 1]);
      assert |EncodeSlot(c, slots[|slots| - 1])| == c.size;
    }
  }

  lemma {:induction false} EncodeSlotsAt<R(!new), K>(c: RecordCodec<R, K>, slots: seq<Option<R>>, i: nat)
    requires ValidCodec(c) && i < |slots|
    ensures Stride(c.size, i) + c.size <= |EncodeSlots(c, slots)|
    ensures EncodeSlots(c, slots)[Stride(c.size, i)..Stride(c.size, i) + c.size] == EncodeSlot(c, slots[i])
  {
    var n := |slots| - 1;
    var init := slots[..n];
    var front := EncodeSlots(c, init);
    var last := EncodeSlot(c, slots[n]);
    assert EncodeSlots(c, slots) == front + last;
    EncodeSlotsLength(c, init);
    assert |last| == c.size;
    if i < n {
      var lo := Stride(c.size, i);
      EncodeSlotsAt(c, init, i);
      SliceOfConcat(front, last, lo, lo + c.size);
      assert init[i] == slots[i];
    } else {
      assert Stride(c.size, i) == |front|;
      SliceOfConcat(front, last, |front|, |front| + c.size);
    }
  }

  /** Where slot i lives in the block's bytes. */
  function SlotOffset(recordSize: nat, i: nat): nat
  {
    HeaderSize + Stride(recordSize, i)
  }

  /** The recordSize bytes of slot i in a block of count slots: what
      toByteArray writes for the slot and fromByteArray reads. */
  function SlotBytes(bytes: seq<Byte>, recordSize: nat, count: nat, i: nat): (b: seq<Byte>)
    requires i < count && SlotOffset(recordSize, count) <= |bytes|
    ensures |b| == recordSize
  {
    StrideMonotone(recordSize, i, count);
    bytes[SlotOffset(recordSize, i)..SlotOffset(recordSize, i) + recordSize]
  }

  /** An encoded block is exactly blockSize bytes long. */
  lemma EncodeLength<R(!new), K>(c: RecordCodec<R, K>, blockSize: int, img: BlockImage<R>)
    requires ValidCodec(c) && blockSize >= HeaderSize
    requires |img.slots| == BlockFactor(blockSize, c.size)
    ensures |Encode(c, blockSize, img)| == blockSize
  {
    EncodeParts(c, blockSize, img);
  }

  /** toByteArray's bytes as header, slots and padding. */
  lemma EncodeParts<R(!new), K>(c: RecordCodec<R, K>, blockSize: int, img: BlockImage<R>)
    requires ValidCodec(c) && blockSize >= HeaderSize
    requires |img.slots| == BlockFactor(blockSize, c.size)
    ensures var body := EncodeInt32(img.validCount) + EncodeSlots(c, img.slots);
      && |body| == SlotOffset(c.size, |img.slots|) <= blockSize
      && Encode(c, blockSize, img) == body + Zeros(blockSize - |body|)
  {
    EncodeSlotsLength(c, img.slots);
    var body := EncodeInt32(img.validCount) + EncodeSlots(c, img.slots);
    if |body| == blockSize {
      assert Zeros(0) == [];
    }
  }

  /** Slot i of toByteArray's bytes is the slot's own encoding. */
  lemma EncodeSlotBytes<R(!new), K>(c: RecordCodec<R, K>, blockSize: int, img: BlockImage<R>, i: nat)
    requires ValidCodec(c) && blockSize >= HeaderSize
    requires |img.slots| == BlockFactor(blockSize, c.size) && i < |img.slots|
    ensures SlotOffset(c.size, |img.slots|) <= |Encode(c, blockSize, img)|
    ensures SlotBytes(Encode(c, blockSize, img), c.size, |img.slots|, i) == EncodeSlot(c, img.slots[i])
  {
    EncodeParts(c, blockSize, img);
    var header := EncodeInt32(img.validCount);
    var slots := EncodeSlots(c, img.slots);
    var pad := Zeros(blockSize - |header + slots|);
    var lo := Stride(c.size, i);
    EncodeSlotsAt(c, img.slots, i);
    SliceOfMiddle(header, slots, pad, lo, lo + c.size);
  }

  /** A slice of the middle part of a three-part concatenation. */
  lemma SliceOfMiddle(header: seq<Byte>, middle: seq<Byte>, tail: seq<Byte>, lo: nat, hi: nat)
    requires lo <= hi <= |middle|
    ensures (header + middle + tail)[|header| + lo..|header| + hi] == middle[lo..hi]
  {
    SliceOfConcat(header + middle, tail, |header| + lo, |header| + hi);
    SliceOfConcat(header, middle, |header| + lo, |header| + hi);
  }

  /** The toByteArray layout: exactly blockSize bytes; validCount as a
      big-endian int in bytes 0..3; slot i at 4 + i * recordSize, zero bytes
      for a null slot; zeros after the last slot. */
  lemma EncodeLayout<R(!new), K>(c: RecordCodec<R, K>, blockSize: int, img: BlockImage<R>)
    requires ValidCodec(c) && blockSize >= HeaderSize
    requires |img.slots| == BlockFactor(blockSize, c.size)
    ensures |Encode(c, blockSize, img)| == blockSize
    ensures Encode(c, blockSize, img)[..HeaderSize] == EncodeInt32(img.validCount)
    ensures forall i :: 0 <= i < |img.slots| ==>
      SlotBytes(Encode(c, blockSize, img), c.size, |img.slots|, i) == EncodeSlot(c, img.slots[i])
    ensures forall j :: SlotOffset(c.size, |img.slots|) <= j < blockSize ==> Encode(c, blockSize, img)[j] == 0
  {
    EncodeParts(c, blockSize, img);
    var body := EncodeInt32(img.validCount) + EncodeSlots(c, img.slots);
    SliceOfConcat(body, Zeros(blockSize - |body|), 0, HeaderSize);
    forall i | 0 <= i < |img.slots|
      ensures SlotBytes(Encode(c, blockSize, img), c.size, |img.slots|, i) == EncodeSlot(c, img.slots[i])
    {
      EncodeSlotBytes(c, blockSize, img, i);
    }
  }

  /** Decoding the first n of count slots, all of which must succeed. */
  function DecodeSlots<R, K>(c: RecordCodec<R, K>, bytes: seq<Byte>, count: nat, n: nat): (res: Option<seq<Option<R>>>)
    requires n <= count && SlotOffset(c.size, count) <= |bytes|
    ensures res.Some? <==> forall i :: 0 <= i < n ==> c.decode(SlotBytes(bytes, c.size, count, i)).Some?
    ensures res.Some? ==> |res.value| == n
    ensures res.Some? ==> forall i :: 0 <= i < n ==> res.value[i] == c.decode(SlotBytes(bytes, c.size, count, i))
  {
    if n == 0 then Some([])
    else
      match DecodeSlots(c, bytes, count, n - 1)
      case None => None
      case Some(init) =>
        match c.decode(SlotBytes(bytes, c.size, count, n - 1))
        case None => None
        case Some(r) => Some(init + [Some(r)])
  }

  /** fromByteArray: validCount from bytes 0..3 and a decoded record in
      every one of the blockFactor slots, whatever validCount says; None when
      some slot fails to decode. */
  function Decode<R, K>(c: RecordCodec<R, K>, bf: nat, bytes: seq<Byte>): (res: Option<BlockImage<R>>)
    requires SlotOffset(c.size, bf) <= |bytes|
    ensures res.Some? ==> res.value.validCount == DecodeInt32(bytes[..HeaderSize]) && |res.value.slots| == bf
    ensures res.Some? ==> forall i :: 0 <= i < bf ==> res.value.slots[i].Some?
  {
    match DecodeSlots(c, bytes, bf, bf)
    case None => None
    case Some(slots) => Some(BlockImage(DecodeInt32(bytes[..HeaderSize]), slots))
  }

  /** Block round trip: decoding a block's bytes restores validCount, and
      each slot is what the record codec decodes from that slot's own
      bytes (for a null slot, from zero bytes). */
  lemma RoundTrip<R(!new), K>(c: RecordCodec<R, K>, blockSize: int, img: BlockImage<R>)
    requires ValidCodec(c) && blockSize >= HeaderSize
    requires |img.slots| == BlockFactor(blockSize, c.size)
    requires -0x8000_0000 <= img.validCount < 0x8000_0000
    ensures var bf := |img.slots|;
      var bytes := Encode(c, blockSize, img);
      SlotOffset(c.size, bf) <= |bytes|
      && (Decode(c, bf, bytes).Some? <==> forall i :: 0 <= i < bf ==> c.decode(EncodeSlot(c, img.slots[i])).Some?)
      && (Decode(c, bf, bytes).Some? ==>
            Decode(c, bf, bytes).value.validCount == img.validCount
            && forall i :: 0 <= i < bf ==> Decode(c, bf, bytes).value.slots[i] == c.decode(EncodeSlot(c, img.slots[i])))
  {
    var bf := |img.slots|;
    var bytes := Encode(c, blockSize, img);
    EncodeLayout(c, blockSize, img);
    Int32RoundTrip(img.validCount);
    forall i | 0 <= i < bf
      ensures SlotBytes(bytes, c.size, bf, i) == EncodeSlot(c, img.slots[i])
    {
    }
  }
}
