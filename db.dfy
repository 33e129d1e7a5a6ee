/** The database handle (db.go): the in-memory index and the data file, and
    the operations on them. Each method does what the Go method does, step
    by step, and its contract ties the new state and the results to the
    step function of the `Engine` module, whose properties are proved there.
    Outcomes the environment decides (whether a write to the disk fails) are
    parameters. */
module Db {
  import opened Errors
  import opened Codec
  import opened DataFile
  import opened LogScan
  import opened Compaction
  import opened Engine

  class MiniDB {
    var indexes: Index
    var dbFile: DBFile?

    /** The handle as a store value. */
    function State(): Store
      requires dbFile != null
      reads this, dbFile
    {
      Store(dbFile.data, dbFile.offset, indexes)
    }

    /** Open: open the data file, then rebuild the index from it. */
    constructor Open(contents: seq<Byte>)
      ensures dbFile != null && fresh(dbFile)
      ensures State() == OpenStore(contents)
    {
      dbFile := new DBFile.Open(contents);
      indexes := map[];
      new;
      LoadIndexesFromFile();
    }

    /** loadIndexesFromFile: replay the file from offset 0 into the index,
        stopping quietly at the first read that fails. */
    method LoadIndexesFromFile()
      modifies this
      ensures dbFile == old(dbFile)
      ensures dbFile != null ==> indexes == Replay(dbFile.data, 0, old(indexes))
    {
      if dbFile == null {
        return;
      }
      var f := dbFile;
      var offset: nat := 0;
      while true
        invariant dbFile == f && offset <= |f.data|
        invariant Replay(f.data, offset, indexes) == Replay(f.data, 0, old(indexes))
        decreases |f.data| - offset
      {
        var e, err := f.Read(offset);
        if err.Some? {
          ReplayStop(f.data, offset, indexes);
          if err == Some(EOF) {
            break;
          }
          return;
        }
        var ent := e.value;
        ReplayNext(f.data, offset, indexes, ent);
        indexes := indexes[ent.key := offset];
        if ent.mark == Mark.Del {
          indexes := indexes - {ent.key};
        }
        offset := offset + Size(ent);
      }
    }

    /** Put: append a PUT record and point the key at the offset it was
        written at, whether or not the write succeeded. */
    method Put(key: Key, value: seq<Byte>, ioFails: bool) returns (err: Option<Error>)
      requires dbFile != null
      modifies this, dbFile
      ensures dbFile == old(dbFile)
      ensures Outcome(State(), err) == PutStep(old(State()), key, value, ioFails)
    {
      err := None;
      if |key| == 0 {
        return;
      }
      var offset := dbFile.offset;
      var ent := NewEntry(key, value, Mark.Put);
      err := dbFile.Write(ent, ioFails);
      indexes := indexes[key := offset];
    }

    /** Put as evidently intended: the cursor and the index move only after
        a successful write. */
    method PutCommitted(key: Key, value: seq<Byte>, ioFails: bool) returns (err: Option<Error>)
      requires dbFile != null
      modifies this, dbFile
      ensures dbFile == old(dbFile)
      ensures Outcome(State(), err) == PutCommittedStep(old(State()), key, value, ioFails)
    {
      err := None;
      if |key| == 0 {
        return;
      }
      var offset := dbFile.offset;
      var ent := NewEntry(key, value, Mark.Put);
      err := dbFile.WriteCommitted(ent, ioFails);
      if err == None {
        indexes := indexes[key := offset];
      }
    }

    /** exist: the offset the index holds for the key. */
    method Exist(key: Key) returns (offset: nat, err: Option<Error>)
      ensures (offset, err) == ExistResult(indexes, key)
    {
      if key !in indexes {
        return 0, Some(KeyNotExist);
      }
      return indexes[key], None;
    }

    /** Get: look the key up, then read the record at its offset. */
    method Get(key: Key) returns (val: seq<Byte>, err: Option<Error>)
      requires dbFile != null
      ensures Lookup(val, err) == GetResult(State(), key)
    {
      val, err := [], None;
      if |key| == 0 {
        return;
      }
      var offset;
      offset, err := Exist(key);
      if err == Some(KeyNotExist) {
        return;
      }
      var ent;
      ent, err := dbFile.Read(offset);
      if err.Some? && err != Some(EOF) {
        return;
      }
      if ent.Some? {
        val := ent.value.value;
      }
    }

    /** Del: for an indexed key, append a DEL record and, if that write
        succeeded, drop the key from the index. */
    method Del(key: Key, ioFails: bool) returns (err: Option<Error>)
      requires dbFile != null
      modifies this, dbFile
      ensures dbFile == old(dbFile)
      ensures Outcome(State(), err) == DelStep(old(State()), key, ioFails)
    {
      err := None;
      if |key| == 0 {
        return;
      }
      var _, notFound := Exist(key);
      if notFound == Some(KeyNotExist) {
        return;
      }
      var ent := NewEntry(key, [], Mark.Del);
      err := dbFile.Write(ent, ioFails);
      if err.Some? {
        return;
      }
      indexes := indexes - {key};
    }

    /** Del as evidently intended: the cursor moves only after the DEL
        record is on disk. */
    method DelCommitted(key: Key, ioFails: bool) returns (err: Option<Error>)
      requires dbFile != null
      modifies this, dbFile
      ensures dbFile == old(dbFile)
      ensures Outcome(State(), err) == DelCommittedStep(old(State()), key, ioFails)
    {
      err := None;
      if |key| == 0 {
        return;
      }
      var _, notFound := Exist(key);
      if notFound == Some(KeyNotExist) {
        return;
      }
      var ent := NewEntry(key, [], Mark.Del);
      err := dbFile.WriteCommitted(ent, ioFails);
      if err.Some? {
        return;
      }
      indexes := indexes - {key};
    }

    /** Merge: collect the records the index still points at, write them
        into a fresh file, point the index at their new offsets, and make
        that file the data file. */
    method Merge() returns (err: Option<Error>)
      requires dbFile != null
      modifies this
      ensures dbFile != null
      ensures Outcome(State(), err) == MergeStep(old(State()))
    {
      err := None;
      if dbFile.offset == 0 {
        return;
      }
      var valid;
      valid, err := LiveEntries();
      CollectIsLive(dbFile.data, indexes);
      if err.Some? {
        return;
      }
      if |valid| > 0 {
        MergedWritable(State());
        var mf := CopyLive(valid);
        dbFile := new DBFile.Open(mf.data);
      }
    }

    /** The first loop of Merge: walk the file from offset 0 and keep the
        entries whose key the index points at the offset they were read at.
        A walk that stops at anything but `EOF` gives its error. */
    method LiveEntries() returns (valid: seq<Entry>, err: Option<Error>)
      requires dbFile != null
      ensures var (live, stop) := Collect(dbFile.data, 0, indexes, []);
        && err == (if stop == EOF then None else Some(stop))
        && (err == None ==> valid == live)
    {
      var f := dbFile;
      var idx := indexes;
      valid := [];
      var offset: nat := 0;
      while true
        invariant offset <= |f.data|
        invariant Collect(f.data, offset, idx, valid) == Collect(f.data, 0, idx, [])
        decreases |f.data| - offset
      {
        var e, readErr := f.Read(offset);
        if readErr.Some? {
          if readErr == Some(EOF) {
            break;
          }
          return valid, readErr;
        }
        var ent := e.value;
        if ent.key in idx && idx[ent.key] == offset {
          valid := valid + [ent];
        }
        offset := offset + Size(ent);
      }
      return valid, None;
    }

    /** The second loop of Merge: write the entries back to back into a
        fresh, empty file, pointing each key at the offset its entry is
        written at. */
    method CopyLive(valid: seq<Entry>) returns (mf: DBFile)
      requires Writable(valid)
      modifies this
      ensures fresh(mf) && dbFile == old(dbFile)
      ensures mf.data == Layout(valid) && mf.offset == SumSizes(valid)
      ensures indexes == Repoint(old(indexes), valid)
    {
      mf := new DBFile.Open([]);
      var i := 0;
      while i < |valid|
        invariant 0 <= i <= |valid| && dbFile == old(dbFile)
        invariant mf.data == Layout(valid[..i]) && mf.offset == SumSizes(valid[..i])
        invariant indexes == Repoint(old(indexes), valid[..i])
      {
        var ent := valid[i];
        var writeOff := mf.offset;
        CopyStep(valid, i, old(indexes));
        // Every live entry was read back whole, so it encodes; a failure of
        // the disk itself is not modelled here.
        var _ := mf.Write(ent, false);
        indexes := indexes[ent.key := writeOff];
        i := i + 1;
      }
      assert valid[..i] == valid;
    }

    /** Close: a handle without a data file is invalid; otherwise the result
        of closing the file, which the environment decides. */
    method Close(closeErr: Option<Error>) returns (err: Option<Error>)
      ensures dbFile == null ==> err == Some(InvalidDBFile)
      ensures dbFile != null ==> err == closeErr
    {
      if dbFile == null {
        return Some(InvalidDBFile);
      }
      return closeErr;
    }
  }
}
