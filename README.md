# minidb storage engine in Dafny

MiniDB is a log-structured key-value store. Its state is an append-only data file of records (a header with key size, value size and mark, then the key bytes, then the value bytes) together with an in-memory index that maps each key to the byte offset of the record holding its current value. `Put` appends a PUT record and points the key at it. `Del` appends a DEL record and drops the key. `Get` reads the record the index points at. Opening the database replays the file from offset 0 to rebuild the index. `Merge` copies the records the index still points at into a fresh file and repoints the index at their new offsets.

The model is split into these modules:

- `Errors` (errors.dfy): the error values, plus `Option` and `Result`.
- `Codec` (codec.dfy): the record and its encoding.
  - The entry codec's source is not part of this model. A concrete layout stands in for it: a 12-byte header of three 32-bit big-endian words.
  - The rest of the model relies on these facts about it, each proved there:
    - the header size is positive;
    - encoding fails, with SizeOverflow, exactly when the key or value size does not fit 32 bits (`Word` is 2^32);
    - an encoding is exactly `Size(e)` bytes: the header, then the key, then the value;
    - a decoded header's sizes fit 32 bits, so every record read back whole can be encoded again;
    - decoding the header of an encoding gives back its sizes and mark.
- `DataFile` (data_file.dfy): the append log `DBFile` as a class with two fields:
  - the file's bytes, which `WriteAt` overwrites or extends and where a short `ReadAt` is `EOF`;
  - the `Offset` cursor.

  Its methods `Write` and `Read` are specified by the functions `WriteStep` and `RecordAt`.
- `LogScan` (log_scan.dfy): the walk of the log from an offset, and the replay of `loadIndexesFromFile`. The replay is proved to be a left fold over the records walked.
- `Compaction` (compaction.dfy): what `Merge` keeps (the live records), and the offsets it writes them at (prefix sums of their sizes).
- `Engine` (engine.dfy): the handle's state as a value `Store`, with one step function per operation. It holds the lemmas about those steps: round trips, soundness of the index, and what Merge preserves.
- `Db` (db.dfy): the `MiniDB` class.
  - Its methods carry out the Go code step by step, loops included.
  - Each method's contract ties the new state and its results to the matching `Engine` step function.

Two outcomes that the environment decides are parameters of the model:

- whether a disk write fails (`ioFails`);
- what closing the file returns (`closeErr`).

The model follows the code in three places where a reader might expect otherwise:

- A `Read` whose key or value runs past the end of the file returns the entry decoded so far with `EOF`. `Get` then returns no value, together with the error `EOF` (db.go:158-166).
- `Put` updates the index even when its write fails (see Findings).
- `Write` advances `Offset` even when the disk write fails, so the next write leaves a zero-filled gap in the log (see Findings).

Two kinds of store appear in the lemmas:

- a store whose index is the replay of its file (`IndexIsReplay`), as every store `Open` returns is; the lookup and Merge results are stated for these;
- a consistent store (`Consistent`): in addition, the file is whole records and the cursor is at its end. Opening a well-formed file and performing only successful writes keeps a store consistent, and so does every Put and Del of the corrected write (`CommittedKeepsConsistent`).

## Model

| member | source | states |
|---|---|---|
| Codec.NewEntry | db.go:126 | the entry carries the given key, value and mark, and its size fields equal their lengths |
| Codec.Size | db_file.go:82 | a record occupies at least the header size, which is positive |
| Codec.Encode | db_file.go:77-80 | encoding succeeds exactly when both sizes fit 32 bits, and fails with SizeOverflow otherwise; an encoding is `Size(e)` bytes: the header, then the key, then the value |
| Codec.Decode | db_file.go:51-53 | a decoded header has sizes that fit 32 bits and carries no key or value yet; any failure is BadHeader |
| Codec.U32RoundTrip | db_file.go:51 | reading back a 32-bit word written from a value that fits gives that value |
| Codec.DecodeEncodedHeader | db_file.go:45-53 | decoding the first header-size bytes of an encoded entry gives back its key size, value size and mark |
| DataFile.ReadAt | db_file.go:47 | a positional read succeeds exactly when the whole span lies inside the file, returns that span, and otherwise fails with EOF |
| DataFile.WriteAt | db_file.go:81 | after a positional write the bytes are at the offset, every other byte is unchanged or zero fill, and the file grows only as far as the write reaches |
| DataFile.RecordAt | db_file.go:43-74 | Read at or past the end of the file (no whole header left) gives EOF and no entry; a successful read is well-sized, encodable and lies inside the file; Key or Value stays empty when its size is 0 |
| DataFile.ReadBody | db_file.go:55-72 | after the header, the key is the `KeySize` bytes just past it and the value the `ValueSize` bytes after those |
| DataFile.WriteStep | db_file.go:76-84 | Write never moves Offset back. An encode failure changes nothing and returns its error. Otherwise Offset advances by exactly Size(e), even when WriteAt fails, and a failed WriteAt leaves the bytes alone. A successful write puts the encoding at the old Offset; when Offset was at or past the end of the file, it also keeps the bytes before it |
| DataFile.RecordSpans | db_file.go:43-73 | a successful Read takes three consecutive spans: the header that decodes to the entry's sizes and mark, then the key, then the value |
| DataFile.ReadEncodedAt | db_file.go:43-74 | a record whose encoding lies at an offset is read back whole there |
| DataFile.ReadAfterWrite | db_file.go:43-84 | Read at the offset where a successful Write started returns that entry's key, value and mark |
| DataFile.RecordAtExtended | db_file.go:43-74 | a record read whole reads the same in any file that extends the file |
| DataFile.WriteKeepsRecords | db_file.go:81 | a write at or past the end of the file leaves every record that was readable reading the same |
| DataFile.Layout | db_file.go:81-82 | the bytes left by successive writes from offset 0 are as long as the sum of the entry sizes |
| DataFile.WriteExtendsLayout | db_file.go:81-82 | one more successful write at the cursor appends the entry's encoding and moves the cursor to the new sum of sizes |
| DataFile.LayoutPrefix | db_file.go:81-82 | the bytes of the first writes are a prefix of the bytes of all of them |
| DataFile.BackToBack | db_file.go:81-82 | successive writes are back to back: the j-th entry starts at the sum of the sizes of the earlier ones, and reads back whole there |
| DataFile.CommittedWriteStep | db_file.go:76-84 | the corrected Write fails exactly when the entry does not encode or the disk write fails, and then leaves bytes and Offset alone; a successful one is the as-written Write; a cursor at the end of the file stays at the end |
| DataFile.FailedWriteLeavesGap | db_file.go:81-82 | as written, a disk write that fails at the end of the file leaves Offset past the end of the file |
| DataFile.DBFile.WriteCommitted | db_file.go:76-84 | the corrected Write leaves the file and Offset as `CommittedWriteStep` describes and returns its error |
| DataFile.DBFile.Open | db_file.go:23-28 | on open, Offset equals the current length of the file |
| DataFile.DBFile.Write | db_file.go:76-84 | Write leaves the file and Offset as `WriteStep` describes and returns its error |
| DataFile.DBFile.Read | db_file.go:43-74 | header, key and value reads at successive positions give exactly `RecordAt` |
| LogScan.Reads | db_file.go:43-74 | the file's reader is `RecordAt` at every offset, and never returns a whole record that runs past the end of the file |
| LogScan.ExistResult | db.go:134-141 | exist succeeds exactly when the key is indexed, and then returns its offset; otherwise it returns 0 with ErrKeyNotExist |
| LogScan.Walk | db.go:202-211 | a walk whose first read fails finds no record and stops with that read's error |
| LogScan.WalkWithin | db.go:202-221 | the records a walk finds all lie before the end of the file |
| LogScan.Apply | db.go:213-218 | after one replay step a PUT record's key points at that record, and a DEL record's key is not indexed; every other key keeps its membership and its offset |
| LogScan.ReplayIsFold | db.go:196-223 | the replay loop's result is the left fold of "PUT sets key to offset, DEL removes key" over the records walked from the start offset |
| LogScan.FoldSnoc | db.go:213-218 | folding one more record applies it last |
| LogScan.WalkRecords | db.go:202-221 | every record walked reads back whole at its offset, the first offset is the walk's start, every offset is at or after it, and they strictly increase |
| LogScan.WellFormedWalk | db.go:202-211 | a log of whole records is walked to its end, stopping with the error read there, and the record sizes add up to the length walked |
| LogScan.WalkExtended | db.go:202-221 | when a reader gains one more record at the end, the walk finds the same records plus that one |
| LogScan.FoldPointsAtPuts | db.go:213-218 | replaying records that read back whole leaves every key pointing at a PUT record of that key |
| LogScan.FoldOrigin | db.go:213-218 | every offset the replay leaves in the index was already there for that key or is the offset of a record of that key |
| LogScan.EndOfFile | db_file.go:46-49 | at the end of the file Read returns EOF and no entry, which ends the walk |
| LogScan.ScanRecords | db.go:202-221 | every record of the walk of the file reads back whole at its offset, and offsets strictly increase |
| LogScan.ReplayNext | db.go:213-220 | a record read whole is applied to the index, and the replay goes on at the offset just past it |
| LogScan.ReplayStop | db.go:204-211 | any failed read, EOF or not, ends the replay and leaves the index built so far |
| LogScan.ReplayScan | db.go:196-223 | replaying the file is folding the records of its walk |
| LogScan.WellFormedScan | db.go:204-208 | a log of whole records is walked to its end and stops at EOF |
| LogScan.AppendRecord | db_file.go:81-82 | a record appended to a log of whole records is found at the end of the walk, and the log stays whole |
| Compaction.IsLive | db.go:65 | a record is live exactly when exist on its key returns that record's offset and no error |
| Compaction.Repoint | db.go:85-94 | after the copy loop the indexed keys are the old ones together with the written ones |
| Compaction.LiveRecords | db.go:65-68 | a record is kept exactly when the index maps its key to that record's offset, and nothing else is kept |
| Compaction.Entries | db.go:67 | the entries of the kept records, one per record, in order |
| Compaction.LiveCons | db.go:65-68 | the live entries of a list are its first record's entry, if that record is live, followed by the live entries of the rest |
| Compaction.CollectFromAcc | db.go:67 | the entries collected so far stay, in front of those collected later |
| Compaction.CollectFromIsLive | db.go:55-70 | the collecting loop gathers exactly the entries of the live records of the walk, in log order, and stops with the walk's error |
| Compaction.CollectIsLive | db.go:55-70 | the same for the file walked from offset 0 |
| Compaction.LiveIsKept | db.go:65-68 | the entry of every live record is among the collected entries |
| Compaction.CopyStep | db.go:85-94 | writing the next live entry at the cursor extends the new file by its encoding, and repoints its key at the sum of the sizes written before it |
| Compaction.KeysOfMember | db.go:93 | a key is among the written keys exactly when some entry carries it |
| Compaction.RepointLookup | db.go:85-94 | after the copy loop a key is indexed exactly when it was indexed before or was written; a written key's offset does not depend on the old index, and other keys keep theirs |
| Compaction.RepointOverwrites | db.go:85-94 | once every key of the old index has been written, the old offsets are all gone |
| Compaction.RepointAt | db.go:87-93 | a key written once points at the sum of the sizes of the entries written before it |
| Compaction.FoldRecords | db.go:213-218 | replaying the records of the new file gives the repointed index, when all of them are PUTs |
| Compaction.LayoutScan | db.go:85-94 | the new file is whole records, walked entry by entry at the prefix-sum offsets, ending at EOF |
| Compaction.ReplayLayout | db.go:104-109 | reopening the new file rebuilds exactly the repointed index |
| Compaction.SumSizesCons | db.go:69 | sizes add up the same from the front as from the back |
| Compaction.LiveSize | db.go:55-70 | the live entries take no more bytes than all the records walked |
| Compaction.LiveIncreasing | db.go:55-70 | the live records keep the log's order: their offsets strictly increase |
| Compaction.LiveKeysDistinct | db.go:65 | no two live records share a key |
| Engine.OpenStore | db.go:18-42 | the opened store holds the file's contents with the cursor at its end |
| Engine.PutStep | db.go:116-132 | Put of the empty key changes nothing; otherwise the key points at the Offset found before writing, whatever the write does. The cursor never moves back, and a cursor at or past the end of the file stays at or past it |
| Engine.PutCommittedStep | db.go:116-132 | the corrected Put changes nothing when its write fails, and is the as-written Put when the write succeeds; it keeps the cursor at the end of the file |
| Engine.GetResult | db.go:143-167 | Get of the empty key returns no value and no error. For an indexed key, a record read whole gives its value with no error, and a read error other than EOF gives no value and that error, and EOF gives no value and the error EOF. A key not indexed gives no value and ErrKeyNotExist. Conversely, a Get with no error of a non-empty key means the key is indexed and its record reads whole with that value |
| Engine.DelStep | db.go:169-193 | Del of the empty key or of a key not indexed changes nothing and returns nil; Del never adds a key to the index or moves the cursor back, and a cursor at or past the end of the file stays at or past it |
| Engine.DelCommittedStep | db.go:169-193 | the corrected Del changes nothing when its write fails, is the as-written Del when it succeeds, and keeps the cursor at the end of the file |
| Engine.MergeStep | db.go:44-114 | Merge that returns an error changes nothing; otherwise it changes nothing or leaves the cursor at the end of the new file |
| Engine.Merged | db.go:55-70 | the entries Merge copies (validEntries) are those of the live records of the walk from 0, and each carries an indexed key |
| Engine.MergedWritable | db.go:85-91 | every entry Merge copies can be encoded and is well-sized, so its write does not fail |
| Engine.OpenIsSound | db.go:196-223 | after opening any file, every indexed key points at a PUT record of that key |
| Engine.ReplayIndexIsSound | db.go:196-223 | a store whose index is its file's replay, with the cursor at or past the end of the file, is sound; every consistent store is one |
| Engine.ReopenRestoresIndex | db.go:18-42 | reopening the file of a consistent store rebuilds exactly its index and cursor |
| Engine.EmptyKeyIsNoOp | db.go:116-119 | with the empty key, Put and Del return nil and change nothing, and Get returns no value and no error |
| Engine.PutPointsAtOldOffset | db.go:124-129 | Put sets the key's index to the Offset it found before writing, whether or not Write errs. The log grows by the entry's size and Write's error is returned. When the entry does not encode, the error is SizeOverflow and neither bytes nor Offset change |
| Engine.PutThenGet | db.go:124-129 | on any store, Put(k, v) of a non-empty key whose sizes fit 32 bits succeeds when the disk write does, and Get(k) then returns v with no error |
| Engine.PutKeepsOthers | db.go:116-132 | a successful Put leaves every other key's Get result unchanged |
| Engine.PutKeepsSound | db.go:124-129 | a successful Put keeps every indexed key pointing at a PUT record of that key |
| Engine.FailedPutDangles | db.go:127-129 | a Put whose write fails leaves the key indexed at a record that is not there: Get returns EOF, not ErrKeyNotExist |
| Engine.PutCommittedKeepsSound | db.go:127-129 | for any non-empty key and any sizes, Put that updates the index only after a successful write keeps the store sound whether it succeeds, fails to encode or fails at the disk; a failed one changes no Get result, and a successful one is read back |
| Engine.CommittedKeepsConsistent | db.go:116-193 | with the corrected write, Put and Del keep a consistent store consistent whether or not the disk write fails |
| Engine.FailedDelCorruptsLog | db_file.go:81-82 | as written, Put([1,1,1,1], []), then a Del of that key whose disk write fails, then Put([2], [7]): the store is sound and Get([2]) returns [7], yet after Merge Get([2]) returns EOF, and reopening the file does not index [2] |
| Engine.PutKeepsConsistent | db.go:124-129 | a successful Put keeps the index equal to the replay of the file |
| Engine.AppendNext | db.go:213-218 | appending a record to a consistent store's file keeps it whole, and the file's replay applies the record last |
| Engine.WriteKeepsGet | db_file.go:81 | an append leaves the Get result of a key whose index entry did not change |
| Engine.WriteKeepsPut | db_file.go:81 | an append keeps an indexed key pointing at its PUT record |
| Engine.GetAbsent | db.go:151-155 | Get of a key the index does not hold returns ErrKeyNotExist without depending on the file |
| Engine.DelThenGet | db.go:184-191 | after a successful Del, Get reports ErrKeyNotExist |
| Engine.DelAppends | db.go:184-192 | Del of an indexed key appends a DEL record at the cursor and returns Write's error; the key leaves the index exactly when that write succeeded, and no other key changes |
| Engine.DelKeepsOthers | db.go:184-191 | a successful Del leaves every other key's Get result unchanged |
| Engine.DelKeepsSound | db.go:169-193 | for any key, Del keeps every indexed key pointing at a PUT record, whether its write succeeds, fails to encode or fails at the disk |
| Engine.DelIdempotent | db.go:177-190 | on any store, Del of a key the index does not hold returns nil and changes nothing, so a second Del is a no-op; a failed Del changes no Get result |
| Engine.DelKeepsConsistent | db.go:184-191 | a successful Del keeps the index equal to the replay of the file |
| Engine.MergeNoOp | db.go:44-72 | Merge changes nothing when Offset is 0 or no record is live, and returns the walk's error, changing nothing, when the walk stops at anything but EOF |
| Engine.IndexedIsWalked | db.go:55-65 | when the index is the file's replay, every indexed key points at a record of the walk that carries that key |
| Engine.IndexedIsMerged | db.go:65-68 | when the index is the file's replay, every indexed key's record is among the entries Merge copies, and it is the record Get reads |
| Engine.MergedAllPut | db.go:65-68 | on a sound store every entry Merge copies is a PUT |
| Engine.MergedKeysIndexed | db.go:65-68 | on any store every key Merge copies is indexed |
| Engine.MergedKeys | db.go:65-68 | when the index is the file's replay, the keys Merge copies are exactly the indexed keys |
| Engine.MergeRewrites | db.go:85-109 | Merge of a store whose index is its file's replay, whose walk ends at EOF and which has live records, succeeds; the data file becomes the live entries back to back, and each key points at its entry's new offset |
| Engine.MergeKeepsConsistent | db.go:104-109 | Merge of a consistent store succeeds and leaves it consistent: reopening the new file rebuilds the index |
| Engine.MergeShrinks | db.go:85-109 | on any store, the new log is no longer than the old one |
| Engine.MergeKeepsKeys | db.go:85-94 | on any store, the set of indexed keys is unchanged |
| Engine.MergeKeepsLookups | db.go:44-114 | when the index is the file's replay, the file does not grow, the indexed keys stay the same, and every key's Get result is unchanged |
| Engine.MergeLookup | db.go:85-109 | when the index is the file's replay, one key's Get result is unchanged across Merge |
| Engine.MergedAt | db.go:85-94 | the p-th copied entry's key is repointed at the sum of the sizes of the entries copied before it |
| Db.MiniDB.Open | db.go:18-42 | Open gives a handle whose file is the given contents, whose cursor is at its end, and whose index is the replay of the file from 0 |
| Db.MiniDB.LoadIndexesFromFile | db.go:196-223 | the loop leaves the index equal to the replay of the file from offset 0 over the index it started with; it stops at EOF or silently at any other read error |
| Db.MiniDB.Put | db.go:116-132 | Put leaves the file, cursor and index as `PutStep` (as written) describes, and returns Write's error |
| Db.MiniDB.PutCommitted | db.go:116-132 | the corrected Put leaves the state as `PutCommittedStep` describes |
| Db.MiniDB.Exist | db.go:134-141 | exist returns the indexed offset, or 0 with ErrKeyNotExist |
| Db.MiniDB.Get | db.go:143-167 | Get returns what `GetResult` gives on the handle's state |
| Db.MiniDB.Del | db.go:169-193 | Del leaves the state as `DelStep` describes and returns its error |
| Db.MiniDB.DelCommitted | db.go:169-193 | the corrected Del leaves the state as `DelCommittedStep` describes and returns its error |
| Db.MiniDB.Merge | db.go:44-114 | Merge leaves the state as `MergeStep` describes: live entries copied in order into a fresh file, which becomes the data file, with keys repointed |
| Db.MiniDB.LiveEntries | db.go:50-70 | the scan loop returns the walk's error unless it stopped at EOF, and otherwise exactly the live entries in log order |
| Db.MiniDB.CopyLive | db.go:84-94 | the write loop leaves the fresh file holding the entries back to back, its cursor at their total size, and each key pointing at its entry's offset |
| Db.MiniDB.Close | db.go:225-232 | Close of a handle without a data file returns ErrInvalidDBFile; otherwise it returns the result of closing the file |

## Left out

- Locking (`sync.RWMutex`): the model is sequential. It does not capture the Merge scan running before the lock is taken (db.go:55-81).
- Directory creation and opening or statting files in `Open` and `newInternal`. The data file's contents are a parameter of `Open`; errors from the operating system there are not modelled.
- Merge's file handling is not modelled. Creating the merge file, closing and removing the old file, renaming, and reopening (db.go:74-79, 96-109) become "the data file is a fresh file holding the merge file's bytes".
  - The merge file is assumed to start empty, so a stale merge file left by an earlier run is not modelled.
  - Errors from these steps are not modelled.
- Db.MiniDB.CopyLive: its writes are modelled as not failing. Every copied entry was read back whole, so it encodes; a disk-level write failure in the merge loop (db.go:88-91) is not modelled.
- A failed `WriteAt` is modelled as leaving the file unchanged. A partial write is not modelled.
- The replay loop (`ReplayFrom`, db.go:196-223) and Merge's scan loop (`CollectFrom`, db.go:55-70) are specification functions without contracts of their own; what they compute is stated by `ReplayIsFold`, `ReplayNext`, `ReplayStop`, `CollectFromAcc` and `CollectFromIsLive`.
- The lookup and Merge lemmas hold for stores whose index is the replay of their file. A store stops being one through a failed as-written write (see Findings), and also through any successful write after opening a file with a torn tail: `Open` puts the cursor at the end of the file, past the unreadable tail, so the walk on reopening reads the torn record together with the bytes written after it, and does not index what was written.
- Offsets are unbounded naturals: int64 overflow of `Offset` is not modelled.
- Go's nil and empty byte slices are not distinguished: an absent key or value is the empty sequence.
- Db.MiniDB.Close: closing the file is a parameter (`closeErr`), because the operating system decides it.
- Sentinel errors (error.go) and the codec's and the reader's errors are constructors of one `Error` datatype. The distinction between `io.EOF` and `io.ErrUnexpectedEOF` on a short read is not modelled: both are `EOF`.
- The entry codec (entry.go) is not part of this model. Its stand-in fixes a concrete header layout so that functions have bodies. The general properties of the engine depend on that layout only through the facts listed at the top; the concrete counterexamples under Findings (`FailedPutDangles`, `FailedDelCorruptsLog`) are computed for the stand-in's bytes, and their offsets and how the gap reads back differ under another layout.

## Findings

| source | as written | input that shows it | evidently intended | confidence | as-written member | corrected member |
|---|---|---|---|---|---|---|
| db.go:124-129 | Put points the key at the old Offset even when `Write` returns an error | on a freshly opened empty store, `Put([1], [2])` whose disk write fails: the index maps `[1]` to 0, the file is still empty, and `Get([1])` returns EOF instead of ErrKeyNotExist | update the index only after a successful write, so every indexed key keeps pointing at a PUT record | not executed | Engine.FailedPutDangles | Engine.PutCommittedKeepsSound |
| db_file.go:81-82 | Write adds the entry's size to Offset even when `WriteAt` returns an error | with the stand-in 12-byte header (other header layouts give other offsets): `Put([1,1,1,1], [])`, then `Del([1,1,1,1])` whose disk write fails (Offset goes from 16 to 32 past a 16-byte file), then `Put([2], [7])`: the new record lands at 32 behind sixteen zero bytes, the walk reads the zeros and the start of the new record's header as two records and never reaches it, so Merge leaves `[2]` pointing past the new file (Get returns EOF) and reopening loses `[2]` | advance Offset only after a successful write, so the file stays whole records with the cursor at its end | not executed | Engine.FailedDelCorruptsLog | Engine.CommittedKeepsConsistent |
