# Heap-file storage engine, modelled in Dafny

This project models the storage engine of a small Java heap-file
application. The engine has three parts.

- **Osoba** is the sample record: a person with a first name (meno), a
  surname (priezvisko), a birth date and a UUID that serves as the key. It is
  written as 98 bytes:
  - each string is a four-byte length prefix followed by a fixed-width field
    of UTF-16 characters padded with NUL;
  - the date is an eight-byte long.
- **Block** is a fixed array of `blockFactor = (blockSize − 4) / recordSize`
  record slots plus a `validCount`. It is serialised as `validCount`, then
  every slot, then zero padding up to `blockSize`.
- **HeapFile** is one data file of blocks. It keeps two FIFO lists of block
  indexes (`emptyBlocks` and `partiallyEmptyBlocks`) and two counters
  (`totalBlocks` and `totalRecords`). Its operations:
  - `insertRecord` chooses a target block;
  - `deleteRecord` and `findRecord` scan the blocks in index order;
  - after an insert or a delete the lists are re-filed, and the lists and
    a header are saved;
  - after a delete, trailing empty blocks are also truncated.

## How the model is laid out

The state-changing classes are Dafny classes: `Blocks.Block` (over an
`array<Option<R>>`) and `HeapFiles.HeapFile` (the data file is a
`seq<Byte>` field, the lists are `seq<int>` fields). Each method is proved
against a function on values:

- `BlockImages` for a block;
- `FreeLists` for the two lists;
- `HeapImages` for the heap file, whose state is a `HeapState` value.

`HeapProperties` proves what insert, delete and find promise about that
state. The record is a `Records.RecordCodec` with a size, an encoder, a
decoder and a key. `OsobaRecord.Codec` is the Osoba instance. Exceptions
become `Result` failures:

- `HeapImages.Fault`: a negative seek or end of file, a record that cannot
  be decoded, or an array index out of range;
- `OsobaRecord.DecodeError`: end of stream, or a substring out of range.

### Behaviour kept exactly as the code has it

These points are where the code's behaviour is easy to misread; the
model does what the code does.

- `saveHeader` writes `totalBlocks` and `totalRecords` into bytes 0..7 of
  the data file itself (src/DS/HeapFile.java:178-186). Those are the bytes
  of block 0's `validCount` and the start of its slot 0, so block 0 reads
  back with `validCount == totalBlocks`. The header is not kept in a
  separate area: the code writes it over block 0. Once `totalBlocks`
  reaches `blockFactor`, block 0 reads as full, so an insert that picks it
  leaves the block unchanged while `insertRecord` still answers 0 and
  counts one more record: the record is not stored
  (`HeapProperties.InsertIntoFullBlockDropsRecord`). With persons as
  records, bytes 4..7 are slot 0's first-name length prefix, so slot 0's
  first name reads back cut to `totalRecords` characters. Once
  `totalRecords` exceeds the characters that field keeps, block 0 no
  longer decodes (`HeapProperties.HeaderCorruptsPersonInBlockZero`), and
  every find, every delete and every insert that reads block 0 fails.
- `compact` writes the removed record's copy into the freed slot
  `validCount` (src/DS/Block.java:137), so the tail after the occupied
  records is not left empty.
- `removeRecord` and `getCopyOfRecord` scan all `blockFactor` slots.
  Together with the previous point, a record that was just removed is still
  found (`BlockImages.RemovedRecordStillFound`).
- `fromByteArray` decodes every slot, whatever `validCount` says. An empty
  slot of zero bytes decodes as the blank person.
- `readFixedString` deletes every NUL character, including interior ones,
  before `substring(0, len)` runs. A name with a NUL among its kept
  characters therefore cannot be read back.
- `deleteRecord(T)` and `findRecord(T)` take only the record and scan
  blocks `0..totalBlocks−1`. The code has no variants that take a block
  index, and none are modelled.
- `updateListsAfterDelete` appends an emptied block to `emptyBlocks`
  without checking whether it is already there.

## Model

| member | source | states |
|---|---|---|
| OsobaRecord.GetSize | src/Tester/Osoba.java:124-127 | The record size is the constant 98, the same for every instance. |
| OsobaRecord.IsEqualIsKeyEquality | src/Tester/Osoba.java:47-50 | `isEqual` is reflexive, symmetric and transitive. It ignores name, surname and date, and holds exactly when the keys (UUIDs) are equal. |
| OsobaRecord.CreateCopy | src/Tester/Osoba.java:52-55 | The copy has the same four fields and `isEqual` the original. |
| OsobaRecord.Encode | src/Tester/Osoba.java:84-108 | `toByteArray` always yields exactly `getSize()` bytes. |
| OsobaRecord.EncodeLayout | src/Tester/Osoba.java:85-114 | Each string is a four-byte prefix `min(len, max)` followed by `max` two-byte characters padded with NUL. The date is a big-endian long at bytes 66..73. |
| OsobaRecord.WriteFixedString | src/Tester/Osoba.java:109-114 | The loop emits the value's first `maxLen` characters, then NULs, two bytes each, high byte first. |
| OsobaRecord.ReadFixedString | src/Tester/Osoba.java:116-122 | The loop reads `maxLen` characters. The result is those characters with every NUL deleted. |
| OsobaRecord.CharsRoundTrip | src/Tester/Osoba.java:109-122 | `readChar` over the bytes `writeChar` produced gives back the characters. |
| OsobaRecord.StripNul | src/Tester/Osoba.java:121 | The replace leaves no NUL character. |
| OsobaRecord.StripNulLength | src/Tester/Osoba.java:121 | The result is shorter by exactly the number of NULs, so only NULs are deleted. |
| OsobaRecord.StripNulInterior | src/Tester/Osoba.java:121 | A NUL between any two parts is deleted too, not only trailing ones: stripping `a + [NUL] + b` gives stripped `a` followed by stripped `b`. |
| OsobaRecord.FixedStringRoundTrip | src/Tester/Osoba.java:109-122 | A fixed-width field reads back as the value cut to `maxLen` characters when those hold no NUL. |
| OsobaRecord.FixedStringLosesNul | src/Tester/Osoba.java:116-122 | With a NUL among the kept characters, the field reads back shorter than its length prefix. |
| OsobaRecord.ToByteArray | src/Tester/Osoba.java:84-108 | The stream-writing method produces exactly `Encode`'s bytes. |
| OsobaRecord.FromByteArray | src/Tester/Osoba.java:57-82 | The field-by-field reader returns exactly `Decode`'s result, including the end-of-stream and substring failures. |
| OsobaRecord.TruncatingRoundTrip | src/Tester/Osoba.java:58-108 | Decoding an encoding whose kept characters hold no NUL gives the person with every string cut to its field width. The date is kept. |
| OsobaRecord.RoundTrip | src/Tester/Osoba.java:58-108 | When the strings fit their fields and hold no NUL, decoding the encoding reproduces all four fields. |
| OsobaRecord.NulInMenoIsUnreadable | src/Tester/Osoba.java:58-64 | A NUL in the first 15 characters of the first name makes decoding fail with a substring error. |
| OsobaRecord.LongMenoPrefixIsUnreadable | src/Tester/Osoba.java:59-60 | A first-name length prefix larger than the characters left in the first-name field once its NULs are deleted makes decoding fail with a substring error, whatever the other bytes hold. |
| OsobaRecord.CodecRejectsLongMenoPrefix | src/Tester/Osoba.java:59-60 | Through the codec, such a slot does not decode. |
| OsobaRecord.DecodeZeros | src/Tester/Osoba.java:58-77 | An all-zero buffer decodes as empty strings and date 0. |
| OsobaRecord.Blank | src/Tester/Osoba.java:17-22 | The no-argument person (empty strings, date 0) is well formed, so it round-trips through the codec (`CodecRoundTrip`). `DecodeZeros` proves that an all-zero slot decodes to it. |
| OsobaRecord.BlankEncodesToZeros | src/Tester/Osoba.java:17-22 | The blank person encodes to exactly `getSize()` zero bytes, the content of an empty slot. |
| OsobaRecord.Codec | src/Tester/Osoba.java:47-127 | The Osoba codec is valid: positive size and every encoding of that size. Its key equality is exactly `isEqual`. |
| OsobaRecord.CodecRoundTrip | src/Tester/Osoba.java:58-108 | Through the codec, a well-formed person decodes from its encoding, and an empty slot decodes as the blank person. |
| Bytes.Int32RoundTrip | src/DS/Block.java:44-72 | `readInt` returns the int that `writeInt` wrote. |
| Bytes.Int64RoundTrip | src/Tester/Osoba.java:66-97 | `readLong` returns the long that `writeLong` wrote. |
| Bytes.WriteAtElsewhere | src/DS/HeapFile.java:148-149 | A write at one offset leaves the bytes of a disjoint range unchanged. |
| BlockImages.BlockFactor | src/DS/Block.java:22-23 | `blockFactor` is the largest count of records that fits after the four-byte header: `4 + bf·recordSize ≤ blockSize < 4 + (bf+1)·recordSize`. |
| BlockImages.BlockFactorIsQuotient | src/DS/Block.java:22-23 | `blockFactor` equals `(blockSize − 4) / recordSize`, the integer division the constructor performs. |
| Blocks.Block.constructor | src/DS/Block.java:18-26 | There are `(blockSize − 4) / recordSize` slots, all null, and `validCount` is 0. |
| Blocks.Block.ClearBlock | src/DS/Block.java:62-65 | Every slot is null and `validCount` is 0. |
| Blocks.Block.AddRecord | src/DS/Block.java:111-117 | A full block is unchanged. Otherwise the record goes into slot `validCount` and `validCount` grows by one. A negative `validCount` is reported as a failure and nothing changes. |
| BlockImages.AddAppends | src/DS/Block.java:111-117 | Adding to a dense block that is not full appends the record to its occupied records and keeps it dense. |
| Blocks.Block.GetCopyOfRecord | src/DS/Block.java:101-109 | The method returns the record of the first slot, among all `blockFactor`, whose key matches, or null. It changes nothing. |
| BlockImages.FirstMatch | src/DS/Block.java:102-106 | The index found holds a match and no lower slot does. None means no slot matches. |
| Blocks.Block.Compact | src/DS/Block.java:133-138 | Slots below the removed index are kept. Slots after it, up to `validCount`, move left by one. The copy lands in slot `validCount`. |
| Blocks.Block.RemoveRecord | src/DS/Block.java:120-131 | The result and the new contents are those of `Remove`: not found, the removed copy after the decrement and compaction, or the out-of-range fault. |
| BlockImages.RemoveMisses | src/DS/Block.java:120-131 | `removeRecord` answers null exactly when no slot matches, and then the block is unchanged. |
| BlockImages.RemoveDeletes | src/DS/Block.java:120-138 | Removing the first match below `validCount` returns that record and decrements `validCount` by one. The other records keep their order and the removed copy sits in slot `validCount`. |
| BlockImages.RemovedRecordStillFound | src/DS/Block.java:137 | After a removal, the scan still finds a record with the removed key. |
| BlockImages.AddThenRemove | src/DS/Block.java:111-138 | Adding a new key and then removing it restores `validCount` and the occupied records. The copy stays in the slot it was added to. |
| Blocks.Block.ToByteArray | src/DS/Block.java:68-88 | The loop yields `Encode` of the block's contents. |
| BlockImages.EncodeLayout | src/DS/Block.java:68-88 | The encoding is exactly `blockSize` bytes. It starts with `validCount` as a big-endian int, slot `i` is at `4 + i·recordSize` (zeros for null), and only zeros follow the last slot. |
| Blocks.Block.FromByteArray | src/DS/Block.java:39-60 | `validCount` is read from bytes 0..3, and every slot is filled from its own bytes. On a decode failure, the slots before the failing one are filled and the rest are null. |
| BlockImages.DecodeSlots | src/DS/Block.java:45-51 | Decoding succeeds exactly when every slot decodes, and slot `i` is the decoding of its own bytes. |
| BlockImages.Decode | src/DS/Block.java:39-51 | `validCount` is the int in bytes 0..3 and every one of the `blockFactor` slots is non-null, whatever `validCount` is. |
| BlockImages.RoundTrip | src/DS/Block.java:39-88 | Decoding a block's encoding restores `validCount`, and each slot decodes from its own encoding (zeros for a null slot). |
| FreeLists.RemoveValue | src/DS/HeapFile.java:113 | `remove(Integer)` keeps every other value and drops nothing when the value is absent. |
| FreeLists.RemoveValueSplices | src/DS/HeapFile.java:113 | It removes the first occurrence and keeps the order of the rest. |
| FreeLists.RemoveValueKeepsNoDup | src/DS/HeapFile.java:113 | On a list without duplicates, the value is gone afterwards and every other value stays. |
| FreeLists.AddIfAbsentKeepsNoDup | src/DS/HeapFile.java:115-116 | The guarded add never creates a duplicate and adds exactly the index. |
| FreeLists.TakeTargetFrees | src/DS/HeapFile.java:46-52 | With both lists empty, the target is `totalBlocks` and the lists are unchanged. Otherwise the taken index is in neither list afterwards, and the listed indexes lose exactly that one. Well-formed lists stay well formed. |
| FreeLists.AfterInsertClassifies | src/DS/HeapFile.java:111-123 | A full block leaves the partial list. A partial block is in the partial list once and not in the empty list. An empty block is in the empty list once and not in the partial list. Other indexes are unchanged. |
| FreeLists.AfterDeleteClassifies | src/DS/HeapFile.java:125-133 | For well-formed lists that do not list the block as empty: an emptied block is appended to the empty list and leaves the partial list. A partial block is in the partial list once. Other indexes are unchanged, and the lists stay well formed. |
| HeapImages.WithHeader | src/DS/HeapFile.java:178-186 | Bytes 0..3 hold `totalBlocks` and bytes 4..7 hold `totalRecords`, both big-endian. Every later byte is unchanged. |
| HeapImages.LoadHeader | src/DS/HeapFile.java:188-197 | The counters are read only when the file has at least eight bytes. |
| HeapImages.HeaderRoundTrip | src/DS/HeapFile.java:178-197 | `loadHeader` reads back what `saveHeader` wrote. |
| HeapImages.HeaderOverlapsBlockZero | src/DS/HeapFile.java:178-186 | The header takes block 0's `validCount` bytes and the first four bytes of its slot 0. Block 0 then reads with `validCount == totalBlocks`. |
| HeapImages.UndecodableSlotZero | src/DS/HeapFile.java:155-166 | When slot 0 of the file (the record-size bytes after the first four) does not decode, `getBlock(0)` fails with the corrupt-record fault. |
| HeapImages.HeaderKeepsOtherBlocks | src/DS/HeapFile.java:178-186 | `saveHeader` changes no block after block 0. |
| HeapImages.WriteThenReadBlock | src/DS/HeapFile.java:145-166 | `getBlock` after `writeBlockToFile` at the same index returns the decoding of the block's bytes. |
| HeapImages.WriteBlockFrame | src/DS/HeapFile.java:145-153 | Writing one block leaves every other block in the file as it was. |
| HeapImages.Trimmed | src/DS/HeapFile.java:135-141 | Trimming never adds blocks. Afterwards either no block is left or the last block is not listed as empty. |
| HeapImages.CutLength | src/DS/HeapFile.java:168-176 | `k` truncations shorten the file by `k` block sizes, floored at 0, and keep the bytes before the cut. |
| HeapImages.TrimmedCutsListedBlocks | src/DS/HeapFile.java:135-141 | Only blocks listed as empty are cut, and the empty list only loses entries. |
| HeapImages.TrimmedRemovesTrimmed | src/DS/HeapFile.java:135-141 | On a duplicate-free empty list, trimming removes exactly the cut indexes from it. |
| HeapImages.Scan | src/DS/HeapFile.java:100-107 | The scan stops at the first block, in index order, that fails to read or holds a match. Every earlier block reads and holds no match. |
| HeapImages.ScanNoMatch | src/DS/HeapFile.java:100-107 | The scan finds nothing exactly when every block reads and none holds a match. |
| HeapImages.OpenNew | src/DS/HeapFile.java:22-39 | A new heap file has an eight-byte data file whose header reads zero blocks and zero records, and both lists are empty. |
| HeapImages.Reopen | src/DS/HeapFile.java:188-207 | Opening files written by `saveHeader` and `saveLists` restores the counters and the lists. |
| HeapImages.DeleteSucceeded | src/DS/HeapFile.java:79-89 | A delete that answers true found a match and committed its removal from the matching block. |
| HeapImages.DeleteAtBlock | src/DS/HeapFile.java:79-89 | One step of the scan: a block with no match moves the delete on to the next block, an out-of-range slot fails with the index fault, and a removal commits the block's new fill and bytes. |
| HeapFiles.HeapFile.constructor | src/DS/HeapFile.java:22-39 | The new object's state is `Open` of the files found: lists, then header, loaded from existing files, or a zero header and empty lists saved for a new file. |
| HeapFiles.HeapFile.InsertRecord | src/DS/HeapFile.java:43-73 | The result and the new state are `Insert` of the old state, including every fault path. |
| HeapFiles.HeapFile.CommitInsert | src/DS/HeapFile.java:61-72 | Re-filing the lists, writing the block, updating the counters and saving lists and header leave exactly `InsertCommit`'s state. |
| HeapFiles.HeapFile.DeleteRecord | src/DS/HeapFile.java:75-98 | The result and the new state are `Delete` of the old state. |
| HeapFiles.HeapFile.CommitDelete | src/DS/HeapFile.java:83-95 | Decrementing, re-filing, writing back, trimming and saving leave exactly `DeleteCommit`'s state. |
| HeapFiles.HeapFile.FindRecord | src/DS/HeapFile.java:100-107 | The result is `Find` of the state, and nothing is modified. |
| HeapFiles.HeapFile.UpdateListsAfterInsert | src/DS/HeapFile.java:111-123 | Only the lists change, to `AfterInsert`. |
| HeapFiles.HeapFile.UpdateListsAfterDelete | src/DS/HeapFile.java:125-133 | Only the lists change, to `AfterDelete`. |
| HeapFiles.HeapFile.TrimTrailingEmptyBlocks | src/DS/HeapFile.java:135-141 | The loop leaves `Trimmed`'s count and empty list and the file cut by the trimmed blocks. Nothing else changes. |
| HeapFiles.HeapFile.WriteBlockToFile | src/DS/HeapFile.java:145-153 | Only the data file changes: the block's bytes are written at `index·blockSize`. A negative index fails and changes nothing. |
| HeapFiles.HeapFile.GetBlock | src/DS/HeapFile.java:155-166 | The result is a fresh block whose contents are `ReadBlock` at the index, or the fault `ReadBlock` reports. |
| HeapFiles.HeapFile.TruncateLastBlock | src/DS/HeapFile.java:168-176 | The file loses `blockSize` bytes, floored at 0, and `totalBlocks` drops by one. Nothing else changes. |
| HeapFiles.HeapFile.SaveHeader | src/DS/HeapFile.java:178-186 | Only the data file changes: the header is written over its first eight bytes. |
| HeapFiles.HeapFile.LoadHeader | src/DS/HeapFile.java:188-197 | The counters are read from the file when it has at least eight bytes. Otherwise nothing changes. |
| HeapFiles.HeapFile.SaveLists | src/DS/HeapFile.java:199-202 | Only the saved lists change: they become the in-memory lists. |
| HeapFiles.HeapFile.LoadLists | src/DS/HeapFile.java:204-207 | Only the in-memory lists change: they become the saved lists. |
| HeapProperties.InsertOutcome | src/DS/HeapFile.java:43-73 | On success, the result is the chosen index, `totalRecords` grows by one, `totalBlocks` grows exactly when the index was `totalBlocks`, and the lists are saved. On failure, the file, counters and saved lists are unchanged. |
| HeapProperties.InsertIntoFullBlockDropsRecord | src/DS/HeapFile.java:61-72 | When the chosen block already reads as full, `addRecord` leaves it unchanged, yet `insertRecord` still answers that block's index, counts one more record and writes the unchanged block back. |
| HeapProperties.HeaderCorruptsPersonInBlockZero | src/DS/HeapFile.java:178-186 | With persons as records, a header whose `totalRecords` exceeds the characters slot 0's first-name field keeps makes block 0 fail to read with the corrupt-record fault. |
| HeapProperties.TakeTargetKeepsOthers | src/DS/HeapFile.java:46-52 | Taking the target changes the lists of no other index. |
| HeapProperties.InsertFilesTarget | src/DS/HeapFile.java:111-123 | After a successful insert, a full target leaves the partial list, and a partial target is listed as partial and not as empty. Other indexes keep their lists, and the lists stay well formed. |
| HeapProperties.InsertKeepsListsWellFormed | src/DS/HeapFile.java:43-73 | Every path of `insertRecord` keeps the lists disjoint and free of duplicates. |
| HeapProperties.InsertWritesBlock | src/DS/HeapFile.java:61-71 | A target other than block 0 reads back as the decoding of the block with the record added. |
| HeapProperties.InsertPersists | src/DS/HeapFile.java:70-71 | Reopening the files after an insert gives the same state, while the counters fit in an int. |
| HeapProperties.DeleteReportsAbsence | src/DS/HeapFile.java:75-98 | `deleteRecord` answers false exactly when every block reads and none holds a match. Unless it answers true, nothing changes. |
| HeapProperties.DeleteRemovesFirstMatch | src/DS/HeapFile.java:79-89 | A successful delete removed from the first block with a match, at its first matching slot. Every earlier block reads and holds no match. |
| HeapProperties.DeleteOutcome | src/DS/HeapFile.java:83-95 | After a successful delete, `totalRecords` drops by one, no block is added, the last block is not listed as empty, and the lists are saved. |
| HeapProperties.DeleteCommitOutcome | src/DS/HeapFile.java:83-95 | The same counter, trim and save facts hold for the commit half, whatever fill and block bytes it is given. |
| HeapProperties.DeleteFilesBlock | src/DS/HeapFile.java:125-133 | For well-formed lists that do not list the matched block as empty (it held a record), after a successful delete an emptied block is listed as empty (unless trimmed) and not as partial. A partial block is listed as partial. Other remaining indexes keep their lists, and the lists stay well formed. |
| HeapProperties.DeleteCommitFiles | src/DS/HeapFile.java:125-141 | The same filing facts hold for the commit half, again for well-formed lists that do not list the block as empty. |
| HeapProperties.DeletePersists | src/DS/HeapFile.java:91-95 | Reopening the files after a delete gives the same state, while the counters fit in an int. |
| HeapProperties.FindReportsMatch | src/DS/HeapFile.java:100-107 | `findRecord` answers null exactly when every block reads and none matches. A record it returns comes from the first match and carries the searched key. |
| HeapProperties.FindAgreesWithDelete | src/DS/HeapFile.java:75-107 | Whenever `deleteRecord` would remove a record, `findRecord` finds one. `deleteRecord` answers false exactly when `findRecord` answers null. |

## Left out

- Blocks.Block.RemoveRecord: reports a `validCount` outside `1..blockFactor` before changing anything. Java throws only after decrementing `validCount` and shifting some slots. Every caller throws the block away on that path, so the file is the same either way.
- Blocks.Block.AddRecord: a negative `validCount`, where Java throws `ArrayIndexOutOfBoundsException`, is reported as a failure and leaves the block unchanged.
- Blocks.Block.FromByteArray: requires exactly `blockSize` bytes, which is what `getBlock` always passes. Java also accepts a shorter array: it throws end-of-file only when fewer than 4 bytes reach `readInt`, and otherwise `read` fills what it can and leaves the missing slot bytes zero, which decode as they are (an all-zero slot as the blank person, `OsobaRecord.DecodeZeros`). That shorter-array path is not modelled.
- Blocks.Block.constructor: requires `sizeOfBlock >= 4` and a positive record size. Java also accepts `4 − recordSize < sizeOfBlock < 4`, where its truncating division gives `blockFactor == 0` (Dafny's Euclidean division would give −1). Such a block cannot hold its own 4-byte count: `toByteArray` then returns 4 bytes, more than `blockSize`, and overruns its place in the file. Only `sizeOfBlock <= 4 − recordSize` makes Java allocate a negative-length array.
- HeapFiles.HeapFile.constructor: requires `blockSize >= 4`. The Java constructor builds no block and accepts any `blockSize`, but with `blockSize < 4` every block it later creates cannot hold its 4-byte count, and each write of one overruns its place in the file, as for `Blocks.Block.constructor`.
- HeapFiles.HeapFile.InsertRecord: `totalBlocks` and `totalRecords` are unbounded integers in memory, so 32-bit overflow of the counters is not modelled. The header stores them modulo 2^32, as `writeInt` does.
- HeapProperties.InsertPersists: assumes the counters fit in an int. Beyond that, the reopened counters differ by the wrap-around.
- HeapProperties.DeletePersists: assumes the counters fit in an int, as for insert.
- Bytes.WriteAt: a write past the end of the file fills the gap with zero bytes. Java leaves the content of that gap unspecified.
- Real file I/O (`RandomAccessFile`, `PrintWriter`, `BufferedReader`, `File.exists`) is left out. The data file is a byte sequence, and the list files are lists stored verbatim. I/O exceptions become `Fault` values, and the wrapping in `RuntimeException` is not modelled.
- The text format of the `_empty.txt` and `_partial.txt` files (decimal lines, `Integer.parseInt`, bad lines skipped) is left out: saving and loading store the list verbatim.
- Reflection (`getDeclaredConstructor().newInstance()`) is replaced by the record-codec parameter.
- `Block.printRecords`, `Osoba.toString` and `Date` formatting are output only and left out.
- Accessors are not separate members: the fields are read directly. This covers `getRecordAt`, `getSize`, `getValidCount` and `getBlockFactor` of Block, the HeapFile accessors and the Osoba getters.
- Osoba.fromByteArray overwrites the receiver's fields and returns it. The model returns a new value instead, which is the same thing for callers, because `Block.fromByteArray` always uses a fresh instance.
- Osoba.createCopy copies the `Date` object. With the date held as its milliseconds, the copy is the same value.
- Java `char` is a UTF-16 code unit, modelled as an integer below 2^16. A Dafny `char` is a Unicode scalar value, which is not the same thing.
- The GUI, `AppController`, `Main` and `StructureTester` are left out. They are Swing views, wiring and a randomised driver that prints. They also call two-argument `deleteRecord`/`findRecord` variants that `HeapFile.java` does not contain.
- Concurrency and crash consistency between the data file and the list files are left out: every operation runs to completion in one thread.
