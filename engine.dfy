/** The storage engine of MiniDB (db.go) as a value: the data file's bytes,
    its write cursor and the in-memory index. Each operation is a step
    function on that value; the `MiniDB` class carries out the same steps
    on its fields, and the lemmas here say what the steps promise. */
module Engine {
  import opened Errors
  import opened Codec
  import opened DataFile
  import opened LogScan
  import opened Compaction

  /** The data file's contents, its `Offset` and the index. */
  datatype Store = Store(data: seq<Byte>, offset: nat, index: Index)

  /** What a lookup returns: the value (empty where Go returns nil) and the
      error. */
  datatype Lookup = Lookup(value: seq<Byte>, err: Option<Error>)

  /** What an update leaves behind, and the error it returns. */
  datatype Outcome = Outcome(store: Store, err: Option<Error>)

  /** Open: the cursor starts at the end of the existing file and the index
      is rebuilt by replaying the file from offset 0 into an empty map. */
  function OpenStore(contents: seq<Byte>): (s: Store)
    ensures s.data == contents && s.offset == |contents|
  {
    Store(contents, |contents|, Replay(contents, 0, map[]))
  }

  /** Every indexed key points at a PUT record of that key, and the cursor is
      at or past the end of the file. */
  predicate Sound(s: Store)
  {
    |s.data| <= s.offset && forall k :: k in s.index ==> IsPutAt(s.data, s.index[k], k)
  }

  /** The index is what replaying the file from offset 0 gives: true of
      every store `Open` returns, whatever the file holds. */
  predicate IndexIsReplay(s: Store)
  {
    s.index == Replay(s.data, 0, map[])
  }

  /** The state a store is in after opening a well-formed file and
      performing only successful writes: the file is whole records, the
      cursor at its end, and the index what replaying the file gives. */
  ghost predicate Consistent(s: Store)
  {
    s.offset == |s.data| && WellFormed(s.data, 0) && s.index == Replay(s.data, 0, map[])
  }

  /** Put as written: the index points `key` at the old cursor whether or not
      the write succeeded. */
  function PutStep(s: Store, key: Key, value: seq<Byte>, ioFails: bool): (o: Outcome)
    ensures |key| == 0 ==> o == Outcome(s, None)
    ensures o.store.offset >= s.offset
    ensures |s.data| <= s.offset ==> |o.store.data| <= o.store.offset
    ensures |key| > 0 ==> key in o.store.index && o.store.index[key] == s.offset
  {
    if |key| == 0 then Outcome(s, None)
    else
      var w := WriteStep(s.data, s.offset, NewEntry(key, value, Put), ioFails);
      Outcome(Store(w.data, w.offset, s.index[key := s.offset]), w.err)
  }

  /** Put as evidently intended: the write moves the cursor only once the
      record is on disk, and the index changes only when the write
      succeeded. */
  function PutCommittedStep(s: Store, key: Key, value: seq<Byte>, ioFails: bool): (o: Outcome)
    ensures o.err.Some? ==> o.store == s
    ensures o.err == None && |key| > 0 ==> o == PutStep(s, key, value, false)
    ensures s.offset == |s.data| ==> o.store.offset == |o.store.data|
  {
    if |key| == 0 then Outcome(s, None)
    else
      var w := CommittedWriteStep(s.data, s.offset, NewEntry(key, value, Put), ioFails);
      Outcome(Store(w.data, w.offset, if w.err == None then s.index[key := s.offset] else s.index), w.err)
  }

  /** Get: nothing for the empty key, `ErrKeyNotExist` for a key not
      indexed; otherwise the record at the indexed offset is read, a read
      error other than `EOF` gives no value, and otherwise the value read
      so far comes back together with the read's error. */
  function GetResult(s: Store, key: Key): (r: Lookup)
    ensures |key| == 0 ==> r == Lookup([], None)
    ensures |key| > 0 && key in s.index && RecordAt(s.data, s.index[key]).err == None ==>
      r == Lookup(RecordAt(s.data, s.index[key]).entry.value.value, None)
    ensures |key| > 0 && key in s.index && RecordAt(s.data, s.index[key]).err !in {None, Some(EOF)} ==>
      r == Lookup([], RecordAt(s.data, s.index[key]).err)
    ensures |key| > 0 && key in s.index && RecordAt(s.data, s.index[key]).err == Some(EOF) ==>
      r == Lookup([], Some(EOF))
    ensures |key| > 0 && key !in s.index ==> r == Lookup([], Some(KeyNotExist))
    ensures r.err == Some(EOF) ==> r.value == []
    ensures r.err == None && |key| > 0 ==>
      && key in s.index && RecordAt(s.data, s.index[key]).err == None
      && RecordAt(s.data, s.index[key]).entry.value.value == r.value
  {
    if |key| == 0 then Lookup([], None)
    else if ExistResult(s.index, key).1.Some? then Lookup([], Some(KeyNotExist))
    else
      var rr := RecordAt(s.data, ExistResult(s.index, key).0);
      if rr.err.Some? && rr.err != Some(EOF) then Lookup([], rr.err)
      else Lookup(if rr.entry.Some? then rr.entry.value.value else [], rr.err)
  }

  /** Del: nothing for the empty key or a key not indexed; otherwise a DEL
      record is appended and the key leaves the index only if that write
      succeeded. */
  function DelStep(s: Store, key: Key, ioFails: bool): (o: Outcome)
    ensures |key| == 0 || key !in s.index ==> o == Outcome(s, None)
    ensures o.store.index.Keys <= s.index.Keys
    ensures o.store.offset >= s.offset
    ensures |s.data| <= s.offset ==> |o.store.data| <= o.store.offset
  {
    if |key| == 0 || ExistResult(s.index, key).1.Some? then Outcome(s, None)
    else
      var w := WriteStep(s.data, s.offset, NewEntry(key, [], Del), ioFails);
      if w.err.Some? then Outcome(Store(w.data, w.offset, s.index), w.err)
      else Outcome(Store(w.data, w.offset, s.index - {key}), None)
  }

  /** Del as evidently intended: the write moves the cursor only once the
      DEL record is on disk. */
  function DelCommittedStep(s: Store, key: Key, ioFails: bool): (o: Outcome)
    ensures o.err.Some? ==> o.store == s
    ensures o.err == None ==> o == DelStep(s, key, false)
    ensures s.offset == |s.data| ==> o.store.offset == |o.store.data|
  {
    if |key| == 0 || ExistResult(s.index, key).1.Some? then Outcome(s, None)
    else
      var w := CommittedWriteStep(s.data, s.offset, NewEntry(key, [], Del), ioFails);
      if w.err.Some? then Outcome(Store(w.data, w.offset, s.index), w.err)
      else Outcome(Store(w.data, w.offset, s.index - {key}), None)
  }

  /** The entries Merge copies: the live records of the walk from 0. */
  function Merged(s: Store): (m: seq<Entry>)
    ensures forall i :: 0 <= i < |m| ==> m[i].key in s.index
  {
    var live := LiveRecords(Scan(s.data, 0).recs, s.index);
    assert forall i :: 0 <= i < |live| ==> live[i] in live && IsLive(live[i], s.index);
    Entries(live)
  }

  /** Merge: nothing when the cursor is 0; the walk's error when the walk
      stops at anything but `EOF`; nothing when no record is live; otherwise
      the live entries, written back to back into an empty file, become the
      data file, and each of their keys points at its new offset. */
  function MergeStep(s: Store): (o: Outcome)
    ensures o.err.Some? ==> o.store == s
    ensures o.store == s || o.store.offset == |o.store.data|
  {
    if s.offset == 0 then Outcome(s, None)
    else
      var sc := Scan(s.data, 0);
      if sc.stop != EOF then Outcome(s, Some(sc.stop))
      else
        var live := Merged(s);
        if live == [] then Outcome(s, None)
        else
          MergedWritable(s);
          Outcome(Store(Layout(live), |Layout(live)|, Repoint(s.index, live)), None)
  }

  /** Every record the walk reads is one that can be written back. */
  lemma MergedWritable(s: Store)
    ensures Writable(Merged(s))
  {
    var recs := Scan(s.data, 0).recs;
    var rs := LiveRecords(recs, s.index);
    WalkRecords(Reads(s.data), |s.data|, 0);
    forall i | 0 <= i < |rs| ensures Encodable(rs[i].entry) && WellSized(rs[i].entry) {
      assert rs[i] in recs;
      var j :| 0 <= j < |recs| && recs[j] == rs[i];
      assert RecordAt(s.data, recs[j].offset) == ReadResult(Some(recs[j].entry), None);
    }
  }

  // ---------------------------------------------------------------------
  // Opening and replay

  /** Opening any file gives a sound store: every key the replay leaves in
      the index points at a PUT record of that key. */
  lemma OpenIsSound(contents: seq<Byte>)
    ensures Sound(OpenStore(contents))
  {
    var read := Reads(contents);
    WalkRecords(read, |contents|, 0);
    ReplayIsFold(read, |contents|, 0, map[]);
    FoldPointsAtPuts(read, Walk(read, |contents|, 0).recs, 0, map[]);
  }

  /** A store whose index is its file's replay, with the cursor at or past
      the end of the file, is sound; every consistent store is one. */
  lemma ReplayIndexIsSound(s: Store)
    requires IndexIsReplay(s) && |s.data| <= s.offset
    ensures Sound(s)
  {
    OpenIsSound(s.data);
  }

  /** Reopening the file of a consistent store rebuilds exactly its index. */
  lemma ReopenRestoresIndex(s: Store)
    requires Consistent(s)
    ensures OpenStore(s.data) == s
  {
  }

  // ---------------------------------------------------------------------
  // Put

  /** The empty key is ignored: Put and Del return no error and change
      nothing, and Get returns no value and no error. */
  lemma EmptyKeyIsNoOp(s: Store, value: seq<Byte>, ioFails: bool)
    ensures PutStep(s, [], value, ioFails) == Outcome(s, None)
    ensures PutCommittedStep(s, [], value, ioFails) == Outcome(s, None)
    ensures DelStep(s, [], ioFails) == Outcome(s, None)
    ensures GetResult(s, []) == Lookup([], None)
  {
  }

  /** Put points the key at the cursor it found, whether or not the write
      fails; an entry that encodes advances the cursor by its size, one that
      does not leaves cursor and bytes alone. */
  lemma PutPointsAtOldOffset(s: Store, key: Key, value: seq<Byte>, ioFails: bool)
    requires |key| > 0
    ensures PutStep(s, key, value, ioFails).store.index == s.index[key := s.offset]
    ensures |key| < Word && |value| < Word ==>
      && PutStep(s, key, value, ioFails).store.offset == s.offset + HeaderSize + |key| + |value|
      && PutStep(s, key, value, ioFails).err == (if ioFails then Some(WriteFailed) else None)
    ensures !(|key| < Word && |value| < Word) ==>
      && PutStep(s, key, value, ioFails).store.data == s.data
      && PutStep(s, key, value, ioFails).store.offset == s.offset
      && PutStep(s, key, value, ioFails).err == Some(SizeOverflow)
  {
  }

  /** A successful Put is read back by Get. */
  lemma PutThenGet(s: Store, key: Key, value: seq<Byte>)
    requires 0 < |key| < Word && |value| < Word
    ensures PutStep(s, key, value, false).err == None
    ensures GetResult(PutStep(s, key, value, false).store, key) == Lookup(value, None)
  {
    ReadAfterWrite(s.data, s.offset, NewEntry(key, value, Put));
  }

  /** A successful Put leaves every other key's lookup as it was. */
  lemma PutKeepsOthers(s: Store, key: Key, value: seq<Byte>)
    requires Sound(s) && 0 < |key| < Word && |value| < Word
    ensures forall k :: k != key ==> GetResult(PutStep(s, key, value, false).store, k) == GetResult(s, k)
  {
    var t := PutStep(s, key, value, false).store;
    forall k | k != key ensures GetResult(t, k) == GetResult(s, k) {
      WriteKeepsGet(s, NewEntry(key, value, Put), false, t, k);
    }
  }

  /** A successful Put keeps the store sound: the key points at the PUT
      record just written, every other key where it pointed. */
  lemma PutKeepsSound(s: Store, key: Key, value: seq<Byte>)
    requires Sound(s) && 0 < |key| < Word && |value| < Word
    ensures Sound(PutStep(s, key, value, false).store)
  {
    var e := NewEntry(key, value, Put);
    var t := PutStep(s, key, value, false).store;
    ReadAfterWrite(s.data, s.offset, e);
    forall k | k in t.index ensures IsPutAt(t.data, t.index[k], k) {
      if k != key {
        WriteKeepsPut(s, e, false, k);
      }
    }
  }

  /** A Put whose write fails leaves a key pointing at a record that is not
      there: in an empty store, Get then fails with `EOF` rather than
      `ErrKeyNotExist`, and the store is no longer sound. */
  lemma FailedPutDangles()
    ensures var o := PutStep(OpenStore([]), [1], [2], true);
      && o.err == Some(WriteFailed)
      && o.store.index == map[[1] := 0]
      && GetResult(o.store, [1]) == Lookup([], Some(EOF))
      && !Sound(o.store)
  {
    EndOfFile([]);
    var o := PutStep(OpenStore([]), [1], [2], true);
    assert RecordAt(o.store.data, 0) == ReadResult(None, Some(EOF));
  }

  /** The corrected Put keeps the store sound whether or not its write
      fails; a failed one changes no lookup, a successful one is read back. */
  lemma PutCommittedKeepsSound(s: Store, key: Key, value: seq<Byte>, ioFails: bool)
    requires Sound(s) && 0 < |key|
    ensures Sound(PutCommittedStep(s, key, value, ioFails).store)
    ensures PutCommittedStep(s, key, value, ioFails).err.Some? ==>
      forall k :: GetResult(PutCommittedStep(s, key, value, ioFails).store, k) == GetResult(s, k)
    ensures PutCommittedStep(s, key, value, ioFails).err == None ==>
      GetResult(PutCommittedStep(s, key, value, ioFails).store, key) == Lookup(value, None)
  {
    if !ioFails && |key| < Word && |value| < Word {
      PutThenGet(s, key, value);
      PutKeepsSound(s, key, value);
      assert PutCommittedStep(s, key, value, false) == PutStep(s, key, value, false);
    }
  }

  /** Put and Del as evidently intended keep a consistent store consistent
      whether or not their writes fail: a failed write leaves no gap, so the
      file stays whole records and its replay stays the index. */
  lemma CommittedKeepsConsistent(s: Store, key: Key, value: seq<Byte>, ioFails: bool)
    requires Consistent(s)
    ensures Consistent(PutCommittedStep(s, key, value, ioFails).store)
    ensures Consistent(DelCommittedStep(s, key, ioFails).store)
  {
    if PutCommittedStep(s, key, value, ioFails).err == None && |key| > 0 {
      PutKeepsConsistent(s, key, value);
    }
    if DelCommittedStep(s, key, ioFails).err == None && |key| < Word {
      DelKeepsConsistent(s, key);
    }
  }

  /** As written, a Del whose write fails still moves the cursor, so the
      next Put leaves sixteen zero bytes in front of its record. Get still
      finds the new key, but the walk reads the zeros as two records that
      run past the new record's header: Merge then keeps the key pointing
      past the end of the rewritten file, and reopening the file loses it. */
  lemma FailedDelCorruptsLog()
    ensures var s1 := PutStep(OpenStore([]), [1, 1, 1, 1], [], false);
      var s2 := DelStep(s1.store, [1, 1, 1, 1], true);
      var s3 := PutStep(s2.store, [2], [7], false);
      && s1.err == None && s2.err == Some(WriteFailed) && s3.err == None
      && Sound(s3.store)
      && GetResult(s3.store, [2]) == Lookup([7], None)
      && MergeStep(s3.store).err == None
      && GetResult(MergeStep(s3.store).store, [2]) == Lookup([], Some(EOF))
      && [2] !in OpenStore(s3.store.data).index
  {
    GapSteps();
    GapSound();
    GapMerge();
    GapReopen();
  }

  /** The bytes the sequence of `FailedDelCorruptsLog` leaves: the first PUT
      record, the sixteen-byte gap, the second PUT record. */
  const GapBytes: seq<Byte> :=
    [0, 0, 0, 4, 0, 0, 0, 0, 0, 0, 0, 0, 1, 1, 1, 1]
    + [0, 0, 0, 0, 0, 0, 0, 0, 0, 0, 0, 0, 0, 0, 0, 0]
    + [0, 0, 0, 1, 0, 0, 0, 1, 0, 0, 0, 0, 2, 7]

  /** The store that sequence leaves. */
  const GapStore: Store := Store(GapBytes, 46, map[[1, 1, 1, 1] := 0, [2] := 32])

  lemma GapSteps()
    ensures var s1 := PutStep(OpenStore([]), [1, 1, 1, 1], [], false);
      var s2 := DelStep(s1.store, [1, 1, 1, 1], true);
      var s3 := PutStep(s2.store, [2], [7], false);
      && s1.err == None && s2.err == Some(WriteFailed) && s3.err == None
      && s3.store == GapStore
  {
    GapPut1();
    GapDel();
    GapPut2();
  }

  /** The first record's bytes. */
  const GapHead: seq<Byte> := [0, 0, 0, 4, 0, 0, 0, 0, 0, 0, 0, 0, 1, 1, 1, 1]

  lemma GapPut1()
    ensures PutStep(OpenStore([]), [1, 1, 1, 1], [], false) == Outcome(Store(GapHead, 16, map[[1, 1, 1, 1] := 0]), None)
  {
    assert Encode(NewEntry([1, 1, 1, 1], [], Put)).value == GapHead;
    EndOfFile([]);
    ReplayStop([], 0, map[]);
    assert OpenStore([]) == Store([], 0, map[]);
    WriteAtEnd([], GapHead);
  }

  lemma GapDel()
    ensures DelStep(Store(GapHead, 16, map[[1, 1, 1, 1] := 0]), [1, 1, 1, 1], true)
      == Outcome(Store(GapHead, 32, map[[1, 1, 1, 1] := 0]), Some(WriteFailed))
  {
  }

  lemma GapPut2()
    ensures PutStep(Store(GapHead, 32, map[[1, 1, 1, 1] := 0]), [2], [7], false) == Outcome(GapStore, None)
  {
    assert Encode(NewEntry([2], [7], Put)).value == [0, 0, 0, 1, 0, 0, 0, 1, 0, 0, 0, 0, 2, 7];
    var r := WriteAt(GapHead, [0, 0, 0, 1, 0, 0, 0, 1, 0, 0, 0, 0, 2, 7], 32);
    assert forall i :: 0 <= i < 46 ==> r[i] == GapBytes[i];
  }

  lemma GapSound()
    ensures Sound(GapStore)
    ensures GetResult(GapStore, [2]) == Lookup([7], None)
  {
    GapRecordAt0();
    GapRecordAt32();
  }

  /** The first record reads back whole. */
  lemma GapRecordAt0()
    ensures RecordAt(GapBytes, 0) == ReadResult(Some(NewEntry([1, 1, 1, 1], [], Put)), None)
  {
    assert GapBytes[0..12] == [0, 0, 0, 4, 0, 0, 0, 0, 0, 0, 0, 0];
    assert GapBytes[12..16] == [1, 1, 1, 1];
  }

  /** The second PUT reads back whole at 32. */
  lemma GapRecordAt32()
    ensures RecordAt(GapBytes, 32) == ReadResult(Some(NewEntry([2], [7], Put)), None)
  {
    assert GapBytes[32..44] == [0, 0, 0, 1, 0, 0, 0, 1, 0, 0, 0, 0];
    assert GapBytes[44..45] == [2];
    assert GapBytes[45..46] == [7];
  }

  /** The zero gap reads as an empty PUT at 16. */
  lemma GapRecordAt16()
    ensures RecordAt(GapBytes, 16) == ReadResult(Some(Entry([], [], 0, 0, Put)), None)
  {
    assert GapBytes[16..28] == [0, 0, 0, 0, 0, 0, 0, 0, 0, 0, 0, 0];
  }

  /** The header at 28 straddles the gap and the second record's header,
      and reads as a DEL with no key and a one-byte value. */
  lemma GapRecordAt28()
    ensures RecordAt(GapBytes, 28) == ReadResult(Some(Entry([], [0], 0, 1, Del)), None)
  {
    assert GapBytes[28..40] == [0, 0, 0, 0, 0, 0, 0, 1, 0, 0, 0, 1];
    assert GapBytes[40..41] == [0];
  }

  /** The walk of the gap log finds the first record, then the two records
      read from the gap, and stops at `EOF` without reaching the second PUT. */
  lemma GapWalk()
    ensures Scan(GapBytes, 0) == Scanned([Record(0, NewEntry([1, 1, 1, 1], [], Put)),
      Record(16, Entry([], [], 0, 0, Put)), Record(28, Entry([], [0], 0, 1, Del))], EOF)
  {
    GapWalk16();
    GapRecordAt0();
    assert Reads(GapBytes)(0) == ReadResult(Some(NewEntry([1, 1, 1, 1], [], Put)), None);
  }

  /** The walk from 16 reads the two gap records and stops at `EOF`. */
  lemma GapWalk16()
    ensures Scan(GapBytes, 16) == Scanned([Record(16, Entry([], [], 0, 0, Put)),
      Record(28, Entry([], [0], 0, 1, Del))], EOF)
  {
    GapWalk28();
    GapRecordAt16();
    assert Reads(GapBytes)(16) == ReadResult(Some(Entry([], [], 0, 0, Put)), None);
  }

  /** The walk from 28 reads the straddling record and stops at `EOF`. */
  lemma GapWalk28()
    ensures Scan(GapBytes, 28) == Scanned([Record(28, Entry([], [0], 0, 1, Del))], EOF)
  {
    GapRecordAt28();
    var read := Reads(GapBytes);
    assert read(28) == ReadResult(Some(Entry([], [0], 0, 1, Del)), None);
    assert read(41) == ReadResult(None, Some(EOF));
  }

  /** Merge of the gap store keeps only the first record, and leaves `[2]`
      pointing past the end of the new file. */
  lemma GapMerge()
    ensures MergeStep(GapStore).err == None
    ensures GetResult(MergeStep(GapStore).store, [2]) == Lookup([], Some(EOF))
  {
    var e1 := NewEntry([1, 1, 1, 1], [], Put);
    GapLive();
    assert [e1][..0] == [];
    assert |Layout([e1])| == 16;
    assert Repoint(GapStore.index, [e1]) == GapStore.index;
  }

  /** Of the three records the walk reads, only the first is live. */
  lemma GapLive()
    ensures Scan(GapBytes, 0).stop == EOF
    ensures Merged(GapStore) == [NewEntry([1, 1, 1, 1], [], Put)]
  {
    GapWalk();
    var idx := GapStore.index;
    var r0 := Record(0, NewEntry([1, 1, 1, 1], [], Put));
    var r16 := Record(16, Entry([], [], 0, 0, Put));
    var r28 := Record(28, Entry([], [0], 0, 1, Del));
    assert IsLive(r0, idx) && !IsLive(r16, idx) && !IsLive(r28, idx);
    assert [r28][1..] == [];
    assert LiveRecords([r28], idx) == [];
    assert [r16, r28][1..] == [r28];
    assert LiveRecords([r16, r28], idx) == [];
    assert [r0, r16, r28][1..] == [r16, r28];
    assert LiveRecords([r0, r16, r28], idx) == [r0];
    assert Entries([r0]) == [r0.entry];
  }

  /** Reopening the gap log does not index `[2]`. */
  lemma GapReopen()
    ensures [2] !in OpenStore(GapBytes).index
  {
    var recs := Scan(GapBytes, 0).recs;
    GapWalk();
    ReplayScan(GapBytes, 0, map[]);
    var k1: Key := [1, 1, 1, 1];
    assert FoldIndex(recs, map[]) == FoldIndex(recs[1..], map[k1 := 0]);
    assert FoldIndex(recs[1..], map[k1 := 0]) == FoldIndex(recs[2..], map[k1 := 0, [] := 16]) by {
      assert recs[1..][1..] == recs[2..];
    }
    assert FoldIndex(recs[2..], map[k1 := 0, [] := 16]) == map[k1 := 0] by {
      assert recs[2..][1..] == [];
      assert map[k1 := 0, [] := 16][[] := 28] - {[]} == map[k1 := 0];
    }
  }

  /** A successful Put on a consistent store keeps it consistent: the
      record lands at the end of the file and replaying it points the key
      there. */
  lemma PutKeepsConsistent(s: Store, key: Key, value: seq<Byte>)
    requires Consistent(s) && 0 < |key| < Word && |value| < Word
    ensures Consistent(PutStep(s, key, value, false).store)
  {
    var e := NewEntry(key, value, Put);
    AppendNext(s, e);
  }

  /** Appending a record to a consistent store's file: the file stays well
      formed and its replay applies the record last. */
  lemma AppendNext(s: Store, e: Entry)
    requires Consistent(s) && WellSized(e) && Encodable(e)
    ensures WriteStep(s.data, s.offset, e, false)
         == Written(s.data + Encode(e).value, s.offset + Size(e), None)
    ensures WellFormed(s.data + Encode(e).value, 0)
    ensures Replay(s.data + Encode(e).value, 0, map[]) == Apply(s.index, Record(s.offset, e))
  {
    var ext := s.data + Encode(e).value;
    WriteAtEnd(s.data, Encode(e).value);
    AppendRecord(s.data, 0, e);
    ReplayIsFold(Reads(s.data), |s.data|, 0, map[]);
    ReplayIsFold(Reads(ext), |ext|, 0, map[]);
    FoldSnoc(Scan(s.data, 0).recs, Record(|s.data|, e), map[]);
  }

  /** Appending to a sound store's file leaves the lookup of a key as it
      was, when the key's entry in the index is unchanged. */
  lemma WriteKeepsGet(s: Store, e: Entry, ioFails: bool, t: Store, k: Key)
    requires Sound(s)
    requires t.data == WriteStep(s.data, s.offset, e, ioFails).data
    requires k in t.index <==> k in s.index
    requires k in s.index ==> t.index[k] == s.index[k]
    ensures GetResult(t, k) == GetResult(s, k)
  {
    if k in s.index {
      WriteKeepsRecords(s.data, s.offset, e, ioFails, s.index[k]);
    }
  }

  /** Appending to a sound store's file keeps an indexed key pointing at its
      PUT record. */
  lemma WriteKeepsPut(s: Store, e: Entry, ioFails: bool, k: Key)
    requires Sound(s) && k in s.index
    ensures IsPutAt(WriteStep(s.data, s.offset, e, ioFails).data, s.index[k], k)
  {
    WriteKeepsRecords(s.data, s.offset, e, ioFails, s.index[k]);
  }

  // ---------------------------------------------------------------------
  // Del

  /** Get of a key the index does not hold reports `ErrKeyNotExist`, and
      what the file holds plays no part. */
  lemma GetAbsent(s: Store, key: Key, data: seq<Byte>)
    requires |key| > 0 && key !in s.index
    ensures GetResult(s, key) == Lookup([], Some(KeyNotExist))
    ensures GetResult(s.(data := data), key) == GetResult(s, key)
  {
  }

  /** Del of an indexed key appends a DEL record at the cursor; the key
      leaves the index exactly when that write succeeds. */
  lemma DelAppends(s: Store, key: Key, ioFails: bool)
    requires 0 < |key| < Word && key in s.index
    ensures DelStep(s, key, ioFails).store.data == WriteStep(s.data, s.offset, NewEntry(key, [], Del), ioFails).data
    ensures DelStep(s, key, ioFails).store.offset == s.offset + HeaderSize + |key|
    ensures DelStep(s, key, ioFails).err == (if ioFails then Some(WriteFailed) else None)
    ensures key !in DelStep(s, key, ioFails).store.index <==> !ioFails
    ensures DelStep(s, key, ioFails).store.index - {key} == s.index - {key}
  {
  }

  /** A successful Del makes Get report `ErrKeyNotExist`. */
  lemma DelThenGet(s: Store, key: Key)
    requires key in s.index && 0 < |key| < Word
    ensures DelStep(s, key, false).err == None
    ensures GetResult(DelStep(s, key, false).store, key) == Lookup([], Some(KeyNotExist))
  {
  }

  /** A successful Del leaves every other key's lookup as it was. */
  lemma DelKeepsOthers(s: Store, key: Key)
    requires Sound(s) && key in s.index && 0 < |key| < Word
    ensures forall k :: k != key ==> GetResult(DelStep(s, key, false).store, k) == GetResult(s, k)
  {
    var t := DelStep(s, key, false).store;
    forall k | k != key ensures GetResult(t, k) == GetResult(s, k) {
      WriteKeepsGet(s, NewEntry(key, [], Del), false, t, k);
    }
  }

  /** Del keeps a sound store sound whether or not its write fails. */
  lemma DelKeepsSound(s: Store, key: Key, ioFails: bool)
    requires Sound(s)
    ensures Sound(DelStep(s, key, ioFails).store)
  {
    var t := DelStep(s, key, ioFails).store;
    forall k | k in t.index ensures IsPutAt(t.data, t.index[k], k) {
      WriteKeepsPut(s, NewEntry(key, [], Del), ioFails, k);
    }
  }

  /** A Del whose write fails changes no lookup. A Del of a key not indexed
      changes nothing, so deleting twice is deleting once. */
  lemma DelIdempotent(s: Store, key: Key, ioFails: bool)
    ensures DelStep(s, key, ioFails).err.Some? ==>
      forall k :: GetResult(DelStep(s, key, ioFails).store, k) == GetResult(s, k)
    ensures key !in s.index ==> DelStep(s, key, ioFails) == Outcome(s, None)
    ensures DelStep(s, key, ioFails).err == None ==>
      DelStep(DelStep(s, key, ioFails).store, key, ioFails) == Outcome(DelStep(s, key, ioFails).store, None)
  {
  }

  /** A successful Del on a consistent store keeps it consistent. */
  lemma DelKeepsConsistent(s: Store, key: Key)
    requires Consistent(s) && |key| < Word
    ensures Consistent(DelStep(s, key, false).store)
  {
    if |key| > 0 && key in s.index {
      var e := NewEntry(key, [], Del);
      AppendNext(s, e);
      assert Apply(s.index, Record(s.offset, e)) == s.index - {key};
    }
  }

  // ---------------------------------------------------------------------
  // Merge

  /** Merge changes nothing when the cursor is 0, and when the walk reaches
      `EOF` without finding a live record. */
  lemma MergeNoOp(s: Store)
    ensures s.offset == 0 ==> MergeStep(s) == Outcome(s, None)
    ensures Scan(s.data, 0).stop == EOF && Merged(s) == [] ==> MergeStep(s) == Outcome(s, None)
    ensures s.offset != 0 && Scan(s.data, 0).stop != EOF ==> MergeStep(s) == Outcome(s, Some(Scan(s.data, 0).stop))
  {
  }

  /** When the index is the file's replay, every indexed key points at a
      record of the walk that carries that key. */
  lemma IndexedIsWalked(s: Store, k: Key)
    requires IndexIsReplay(s) && k in s.index
    ensures exists j :: (0 <= j < |Scan(s.data, 0).recs|
      && Scan(s.data, 0).recs[j].offset == s.index[k] && Scan(s.data, 0).recs[j].entry.key == k)
  {
    ReplayScan(s.data, 0, map[]);
    FoldOrigin(Scan(s.data, 0).recs, map[], k);
  }

  /** When the index is the file's replay, every indexed key has its record
      among the entries Merge copies, and it is the record Get reads. */
  lemma IndexedIsMerged(s: Store, k: Key)
    requires IndexIsReplay(s) && k in s.index
    ensures exists p :: (0 <= p < |Merged(s)| && Merged(s)[p].key == k
      && RecordAt(s.data, s.index[k]) == ReadResult(Some(Merged(s)[p]), None))
  {
    var recs := Scan(s.data, 0).recs;
    IndexedIsWalked(s, k);
    var j :| 0 <= j < |recs| && recs[j].offset == s.index[k] && recs[j].entry.key == k;
    ScanRecords(s.data, 0);
    LiveIsKept(recs, s.index, j);
    var live := Entries(LiveRecords(recs, s.index));
    assert live == Merged(s);
    var p :| 0 <= p < |live| && live[p] == recs[j].entry;
    assert RecordAt(s.data, s.index[k]) == ReadResult(Some(live[p]), None);
  }

  /** On a sound store every entry Merge copies is a PUT. */
  lemma MergedAllPut(s: Store)
    requires Sound(s)
    ensures AllPut(Merged(s))
  {
    var recs := Scan(s.data, 0).recs;
    var rs := LiveRecords(recs, s.index);
    WalkRecords(Reads(s.data), |s.data|, 0);
    forall i | 0 <= i < |rs| ensures rs[i].entry.mark == Put {
      assert rs[i] in recs;
      var j :| 0 <= j < |recs| && recs[j] == rs[i];
      assert RecordAt(s.data, recs[j].offset) == ReadResult(Some(recs[j].entry), None);
      assert IsPutAt(s.data, s.index[rs[i].entry.key], rs[i].entry.key);
    }
  }

  /** Every key Merge copies is indexed: a record is live only when the
      index points at it. */
  lemma MergedKeysIndexed(s: Store)
    ensures KeysOf(Merged(s)) <= s.index.Keys
  {
    var live := Merged(s);
    var rs := LiveRecords(Scan(s.data, 0).recs, s.index);
    forall k | k in KeysOf(live) ensures k in s.index {
      KeysOfMember(live, k);
      var i :| 0 <= i < |live| && live[i].key == k;
      assert rs[i] in rs;
    }
  }

  /** When the index is the file's replay, the keys Merge copies are exactly
      the indexed keys. */
  lemma MergedKeys(s: Store)
    requires IndexIsReplay(s)
    ensures KeysOf(Merged(s)) == s.index.Keys
  {
    MergedKeysIndexed(s);
    forall k | k in s.index ensures k in KeysOf(Merged(s)) {
      IndexedIsMerged(s, k);
      KeysOfMember(Merged(s), k);
    }
  }

  /** When Merge rewrites a store whose index is the file's replay, the new
      file is the live entries back to back and the index points every key
      at its entry there: the old offsets are all overwritten. */
  lemma MergeRewrites(s: Store)
    requires IndexIsReplay(s) && s.offset != 0 && Scan(s.data, 0).stop == EOF && Merged(s) != []
    ensures MergeStep(s).err == None
    ensures Writable(Merged(s))
    ensures MergeStep(s).store
         == Store(Layout(Merged(s)), |Layout(Merged(s))|, Repoint(map[], Merged(s)))
  {
    MergedWritable(s);
    MergedKeys(s);
    RepointOverwrites(s.index, Merged(s));
  }

  /** On a consistent store Merge succeeds and leaves a consistent store:
      reopening the new file rebuilds its index. */
  lemma MergeKeepsConsistent(s: Store)
    requires Consistent(s)
    ensures MergeStep(s).err == None
    ensures Consistent(MergeStep(s).store)
  {
    WellFormedScan(s.data, 0);
    var live := Merged(s);
    if s.offset != 0 && live != [] {
      MergeRewrites(s);
      ReplayIndexIsSound(s);
      MergedAllPut(s);
      LayoutScan(live);
      ReplayLayout(live, map[]);
    }
  }

  /** The file Merge leaves is never longer than the one it replaces. */
  lemma MergeShrinks(s: Store)
    ensures |MergeStep(s).store.data| <= |s.data|
  {
    var recs := Scan(s.data, 0).recs;
    if s.offset != 0 && Scan(s.data, 0).stop == EOF && Merged(s) != [] {
      MergedWritable(s);
      WalkWithin(Reads(s.data), |s.data|, 0);
      LiveSize(recs, s.index);
    }
  }

  /** Merge never changes the set of indexed keys. */
  lemma MergeKeepsKeys(s: Store)
    ensures MergeStep(s).store.index.Keys == s.index.Keys
  {
    MergedKeysIndexed(s);
  }

  /** When the index is the file's replay (as after `Open`), Merge leaves
      the file no longer, the same keys indexed, and every key's lookup as
      it was. */
  lemma MergeKeepsLookups(s: Store)
    requires IndexIsReplay(s)
    ensures |MergeStep(s).store.data| <= |s.data|
    ensures MergeStep(s).store.index.Keys == s.index.Keys
    ensures forall k :: GetResult(MergeStep(s).store, k) == GetResult(s, k)
  {
    MergeShrinks(s);
    MergeKeepsKeys(s);
    forall k ensures GetResult(MergeStep(s).store, k) == GetResult(s, k) {
      MergeLookup(s, k);
    }
  }

  /** One key's lookup across a Merge, when the index is the file's
      replay. */
  lemma MergeLookup(s: Store, k: Key)
    requires IndexIsReplay(s)
    ensures GetResult(MergeStep(s).store, k) == GetResult(s, k)
  {
    if s.offset != 0 && Scan(s.data, 0).stop == EOF && Merged(s) != [] {
      var live := Merged(s);
      MergedWritable(s);
      MergedKeysIndexed(s);
      RepointLookup(s.index, live, k);
      if k in s.index {
        IndexedIsMerged(s, k);
        var p :| 0 <= p < |live| && live[p].key == k
          && RecordAt(s.data, s.index[k]) == ReadResult(Some(live[p]), None);
        MergedAt(s, p);
        BackToBack(live, p);
      }
    }
  }

  /** Entry `p` of the merge is re-pointed at the offset it is written at:
      no other live record has its key. */
  lemma MergedAt(s: Store, p: nat)
    requires p < |Merged(s)|
    ensures Merged(s)[p].key in Repoint(s.index, Merged(s))
    ensures Repoint(s.index, Merged(s))[Merged(s)[p].key] == SumSizes(Merged(s)[..p])
  {
    var recs := Scan(s.data, 0).recs;
    var live := Merged(s);
    assert live == Entries(LiveRecords(recs, s.index));
    ScanRecords(s.data, 0);
    LiveKeysDistinct(recs, s.index);
    assert forall i :: 0 <= i < |live| && i != p ==> live[i].key != live[p].key;
    RepointAt(s.index, live, p);
  }
}
