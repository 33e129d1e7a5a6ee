/** Walking the log from an offset (db.go, `loadIndexesFromFile` and the
    first loop of `Merge`): read the record there, go on at the offset just
    past it, stop at the first read that fails.
    The walk is defined for any record reader that never reports a record
    running past a given end; the file's own reader is `Reads(data)`. */
module LogScan {
  import opened Errors
  import opened Codec
  import opened DataFile

  /** A record together with the offset its header starts at. */
  datatype Record = Record(offset: nat, entry: Entry)

  /** The records read from an offset on, and the error the walk stopped at. */
  datatype Scanned = Scanned(recs: seq<Record>, stop: Error)

  /** The index maps keys to record offsets. */
  type Index = map<Key, nat>

  /** exist: the offset the index holds for `key`, or `ErrKeyNotExist`. */
  function ExistResult(index: Index, key: Key): (r: (nat, Option<Error>))
    ensures r.1 == None <==> key in index
    ensures r.1 == None ==> r.0 == index[key]
    ensures r.1 != None ==> r == (0, Some(KeyNotExist))
  {
    if key in index then (index[key], None) else (0, Some(KeyNotExist))
  }

  /** The outcome of `Read` at each offset. */
  type Reader = nat -> ReadResult

  /** Every record `read` returns whole lies before `end`. */
  ghost predicate Bounded(read: Reader, end: nat)
  {
    forall o: nat :: read(o).err == None ==>
      read(o).entry.Some? && o + Size(read(o).entry.value) <= end
  }

  /** `Read` on the file `data`. */
  function Reads(data: seq<Byte>): (read: Reader)
    ensures Bounded(read, |data|)
    ensures forall o: nat :: read(o) == RecordAt(data, o)
  {
    (o: nat) => RecordAt(data, o)
  }

  /** The walk from `off`. */
  function Walk(read: Reader, end: nat, off: nat): (w: Scanned)
    requires Bounded(read, end)
    ensures read(off).err.Some? ==> w == Scanned([], read(off).err.value)
    decreases end - off
  {
    var rr := read(off);
    if rr.err.Some? then Scanned([], rr.err.value)
    else
      var e := rr.entry.value;
      var rest := Walk(read, end, off + Size(e));
      Scanned([Record(off, e)] + rest.recs, rest.stop)
  }

  /** One replay step: a PUT points its key at the record, a DEL drops it. */
  function Apply(m: Index, r: Record): (m2: Index)
    ensures r.entry.mark == Put ==> r.entry.key in m2 && m2[r.entry.key] == r.offset
    ensures r.entry.mark == Del ==> r.entry.key !in m2
    ensures forall k :: k != r.entry.key ==> (k in m2 <==> k in m) && (k in m ==> m2[k] == m[k])
  {
    var m1 := m[r.entry.key := r.offset];
    if r.entry.mark == Del then m1 - {r.entry.key} else m1
  }

  /** The replay loop: apply each record read from `off`, until a read fails. */
  function ReplayFrom(read: Reader, end: nat, off: nat, m: Index): Index
    requires Bounded(read, end)
    decreases end - off
  {
    var rr := read(off);
    if rr.err.Some? then m
    else
      var e := rr.entry.value;
      ReplayFrom(read, end, off + Size(e), Apply(m, Record(off, e)))
  }

  /** The records from `off` on read back whole and end exactly at `end`. */
  ghost predicate WellFormedFrom(read: Reader, end: nat, off: nat)
    requires Bounded(read, end)
    decreases end - off
  {
    if off == end then true
    else read(off).err == None && WellFormedFrom(read, end, off + Size(read(off).entry.value))
  }

  /** The walk of the file `data` from `off`. */
  function Scan(data: seq<Byte>, off: nat): Scanned
  {
    Walk(Reads(data), |data|, off)
  }

  /** Replaying the file `data` from `off` into `m`. */
  function Replay(data: seq<Byte>, off: nat, m: Index): Index
  {
    ReplayFrom(Reads(data), |data|, off, m)
  }

  /** The file from `off` is a whole number of records ending exactly at the
      end of the file (no torn or undecodable tail). */
  ghost predicate WellFormed(data: seq<Byte>, off: nat)
  {
    WellFormedFrom(Reads(data), |data|, off)
  }

  /** Left fold of `Apply` over a list of records. */
  function FoldIndex(recs: seq<Record>, m: Index): Index
  {
    if recs == [] then m else FoldIndex(recs[1..], Apply(m, recs[0]))
  }

  /** The record at `off` is a PUT of key `k`. */
  predicate IsPutAt(data: seq<Byte>, off: nat, k: Key)
  {
    var rr := RecordAt(data, off);
    rr.err == None && rr.entry.value.key == k && rr.entry.value.mark == Put
  }

  /** Sum of the record sizes. */
  function RecSizes(recs: seq<Record>): nat
  {
    if recs == [] then 0 else Size(recs[0].entry) + RecSizes(recs[1..])
  }

  /** Folding over a record list that starts with `r`. */
  lemma FoldCons(r: Record, recs: seq<Record>, m: Index)
    ensures FoldIndex([r] + recs, m) == FoldIndex(recs, Apply(m, r))
  {
    assert ([r] + recs)[1..] == recs;
  }

  /** Replaying is the left fold of `Apply` over the records walked. */
  lemma {:induction false} ReplayIsFold(read: Reader, end: nat, off: nat, m: Index)
    requires Bounded(read, end)
    ensures ReplayFrom(read, end, off, m) == FoldIndex(Walk(read, end, off).recs, m)
    decreases end - off
  {
    if read(off).err == None {
      var r := Record(off, read(off).entry.value);
      var next := off + Size(r.entry);
      ReplayIsFold(read, end, next, Apply(m, r));
      FoldCons(r, Walk(read, end, next).recs, m);
    }
  }

  /** Folding over one more record applies it last. */
  lemma {:induction false} FoldSnoc(recs: seq<Record>, r: Record, m: Index)
    ensures FoldIndex(recs + [r], m) == Apply(FoldIndex(recs, m), r)
  {
    if recs != [] {
      assert (recs + [r])[1..] == recs[1..] + [r];
      FoldSnoc(recs[1..], r, Apply(m, recs[0]));
    }
  }

  /** Every record of `recs` is what `read` returns at its offset, which is
      at least `lo`. */
  ghost predicate ReadsBack(read: Reader, recs: seq<Record>, lo: nat)
  {
    forall j :: 0 <= j < |recs| ==>
      lo <= recs[j].offset && read(recs[j].offset) == ReadResult(Some(recs[j].entry), None)
  }

  /** Offsets strictly increase along `recs`. */
  predicate Increasing(recs: seq<Record>)
  {
    forall i, j :: 0 <= i < j < |recs| ==> recs[i].offset < recs[j].offset
  }

  /** Every record walked reads back whole at its offset; offsets start at
      `off` and strictly increase. */
  lemma {:induction false} WalkRecords(read: Reader, end: nat, off: nat)
    requires Bounded(read, end)
    ensures Walk(read, end, off).recs != [] ==> Walk(read, end, off).recs[0].offset == off
    ensures ReadsBack(read, Walk(read, end, off).recs, off)
    ensures Increasing(Walk(read, end, off).recs)
    decreases end - off
  {
    if read(off).err == None {
      var e := read(off).entry.value;
      var rest := Walk(read, end, off + Size(e)).recs;
      WalkRecords(read, end, off + Size(e));
      var recs := [Record(off, e)] + rest;
      assert forall j :: 1 <= j < |recs| ==> recs[j] == rest[j - 1];
    }
  }

  /** The records walked lie inside the file: their sizes add up to no
      more than the distance from the start offset to the end. */
  lemma {:induction false} WalkWithin(read: Reader, end: nat, off: nat)
    requires Bounded(read, end)
    ensures Walk(read, end, off).recs == [] || off + RecSizes(Walk(read, end, off).recs) <= end
    decreases end - off
  {
    if read(off).err == None {
      var e := read(off).entry.value;
      var rest := Walk(read, end, off + Size(e)).recs;
      WalkWithin(read, end, off + Size(e));
      assert ([Record(off, e)] + rest)[1..] == rest;
    }
  }

  /** A well-formed log is walked to its end: the walk stops with the error
      read at the end, and the record sizes add up to the length walked. */
  lemma {:induction false} WellFormedWalk(read: Reader, end: nat, off: nat)
    requires Bounded(read, end) && read(end).err.Some?
    requires WellFormedFrom(read, end, off)
    ensures Walk(read, end, off).stop == read(end).err.value
    ensures off + RecSizes(Walk(read, end, off).recs) == end
    decreases end - off
  {
    if off != end {
      var e := read(off).entry.value;
      var rest := Walk(read, end, off + Size(e)).recs;
      WellFormedWalk(read, end, off + Size(e));
      assert ([Record(off, e)] + rest)[1..] == rest;
    }
  }

  /** A reader that agrees with `read` on every record `read` returns whole,
      and has one more record `e` at `end`, walks one record further. */
  lemma {:induction false} WalkExtended(read: Reader, end: nat, read2: Reader, end2: nat, off: nat, e: Entry)
    requires Bounded(read, end) && Bounded(read2, end2)
    requires WellFormedFrom(read, end, off)
    requires forall o: nat :: read(o).err == None ==> read2(o) == read(o)
    requires read2(end) == ReadResult(Some(e), None) && end + Size(e) == end2
    requires read(end).err.Some? && read2(end2).err.Some?
    ensures WellFormedFrom(read2, end2, off)
    ensures Walk(read2, end2, off)
         == Scanned(Walk(read, end, off).recs + [Record(end, e)], read2(end2).err.value)
    decreases end - off
  {
    if off != end {
      var d := read(off).entry.value;
      var rest := Walk(read, end, off + Size(d)).recs;
      WalkExtended(read, end, read2, end2, off + Size(d), e);
      assert [Record(off, d)] + (rest + [Record(end, e)]) == ([Record(off, d)] + rest) + [Record(end, e)];
    }
  }

  /** Every key of `m` points at a record that `read` returns whole, a PUT
      of that key. */
  ghost predicate PointsAtPuts(read: Reader, m: Index)
  {
    forall k :: k in m ==>
      read(m[k]).err == None && read(m[k]).entry.Some?
      && read(m[k]).entry.value.key == k && read(m[k]).entry.value.mark == Put
  }

  /** Folding records that read back whole keeps every key pointing at a PUT
      of that key: a PUT points its key at itself, a DEL drops its key. */
  lemma {:induction false} FoldPointsAtPuts(read: Reader, recs: seq<Record>, lo: nat, m: Index)
    requires ReadsBack(read, recs, lo) && PointsAtPuts(read, m)
    ensures PointsAtPuts(read, FoldIndex(recs, m))
  {
    if recs != [] {
      var rest := recs[1..];
      assert ReadsBack(read, rest, lo) by {
        forall j | 0 <= j < |rest| ensures lo <= rest[j].offset && read(rest[j].offset) == ReadResult(Some(rest[j].entry), None) {
          assert rest[j] == recs[j + 1];
        }
      }
      assert read(recs[0].offset) == ReadResult(Some(recs[0].entry), None);
      FoldPointsAtPuts(read, rest, lo, Apply(m, recs[0]));
    }
  }

  /** Every offset the fold leaves in the index is either one `m` already
      had for that key or the offset of a record of that key. */
  lemma {:induction false} FoldOrigin(recs: seq<Record>, m: Index, k: Key)
    requires k in FoldIndex(recs, m)
    ensures (k in m && FoldIndex(recs, m)[k] == m[k])
         || exists j :: 0 <= j < |recs| && recs[j].offset == FoldIndex(recs, m)[k] && recs[j].entry.key == k
  {
    if recs != [] {
      var m1 := Apply(m, recs[0]);
      FoldOrigin(recs[1..], m1, k);
      if exists j :: 0 <= j < |recs[1..]| && recs[1..][j].offset == FoldIndex(recs, m)[k] && recs[1..][j].entry.key == k {
        var j :| 0 <= j < |recs[1..]| && recs[1..][j].offset == FoldIndex(recs, m)[k] && recs[1..][j].entry.key == k;
        assert recs[j + 1] == recs[1..][j];
      } else if recs[0].entry.key == k {
        assert recs[0].offset == FoldIndex(recs, m)[k];
      }
    }
  }

  /** The file's reader stops with `EOF` at the end of the file. */
  lemma EndOfFile(data: seq<Byte>)
    ensures Reads(data)(|data|) == ReadResult(None, Some(EOF))
  {
  }

  /** Every record of the walk of `data` reads back whole at its offset, and
      offsets strictly increase. */
  lemma ScanRecords(data: seq<Byte>, off: nat)
    ensures Increasing(Scan(data, off).recs)
    ensures forall j :: 0 <= j < |Scan(data, off).recs| ==>
      var r := Scan(data, off).recs[j];
      off <= r.offset && RecordAt(data, r.offset) == ReadResult(Some(r.entry), None)
  {
    WalkRecords(Reads(data), |data|, off);
  }

  /** A record read whole at `off` is applied, and the replay goes on just
      past it (one step of `loadIndexesFromFile`). */
  lemma ReplayNext(data: seq<Byte>, off: nat, m: Index, e: Entry)
    requires RecordAt(data, off) == ReadResult(Some(e), None)
    ensures off + Size(e) <= |data|
    ensures Replay(data, off, m) == Replay(data, off + Size(e), Apply(m, Record(off, e)))
  {
  }

  /** A failed read ends the replay. */
  lemma ReplayStop(data: seq<Byte>, off: nat, m: Index)
    requires RecordAt(data, off).err.Some?
    ensures Replay(data, off, m) == m
  {
  }

  /** Replaying a file is folding the records its walk reads. */
  lemma ReplayScan(data: seq<Byte>, off: nat, m: Index)
    ensures Replay(data, off, m) == FoldIndex(Scan(data, off).recs, m)
  {
    ReplayIsFold(Reads(data), |data|, off, m);
  }

  /** A well-formed file is walked to its end, stopping at `EOF`. */
  lemma WellFormedScan(data: seq<Byte>, off: nat)
    requires WellFormed(data, off)
    ensures Scan(data, off).stop == EOF
    ensures off + RecSizes(Scan(data, off).recs) == |data|
  {
    EndOfFile(data);
    WellFormedWalk(Reads(data), |data|, off);
  }

  /** A record appended to a well-formed file is read at the end of the
      walk, and the file stays well formed. */
  lemma AppendRecord(data: seq<Byte>, off: nat, e: Entry)
    requires WellFormed(data, off)
    requires WellSized(e) && Encodable(e)
    ensures WellFormed(data + Encode(e).value, off)
    ensures Scan(data + Encode(e).value, off)
         == Scanned(Scan(data, off).recs + [Record(|data|, e)], EOF)
  {
    var ext := data + Encode(e).value;
    ReadAppended(data, e, []);
    assert data + Encode(e).value + [] == ext;
    assert ext[..|data|] == data;
    forall o: nat | RecordAt(data, o).err == None
      ensures RecordAt(ext, o) == RecordAt(data, o)
    {
      RecordAtExtended(data, ext, o);
    }
    EndOfFile(data);
    EndOfFile(ext);
    WalkExtended(Reads(data), |data|, Reads(ext), |ext|, off, e);
  }
}
