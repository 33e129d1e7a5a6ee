/** What `Merge` (db.go) keeps and where it puts it: the records the index
    still points at, written back to back into a fresh file, with the index
    re-pointed at their new offsets. */
module Compaction {
  import opened Errors
  import opened Codec
  import opened DataFile
  import opened LogScan

  /** Merge keeps a record when the index still points at it. */
  predicate IsLive(r: Record, idx: Index)
    ensures IsLive(r, idx) <==> ExistResult(idx, r.entry.key) == (r.offset, None)
  {
    r.entry.key in idx && idx[r.entry.key] == r.offset
  }

  /** The live records, in log order (the first loop of Merge). */
  function LiveRecords(recs: seq<Record>, idx: Index): (live: seq<Record>)
    ensures |live| <= |recs|
    ensures forall r :: r in live ==> r in recs && IsLive(r, idx)
    ensures forall r :: r in recs && IsLive(r, idx) ==> r in live
  {
    if recs == [] then []
    else (if IsLive(recs[0], idx) then [recs[0]] else []) + LiveRecords(recs[1..], idx)
  }

  /** The entries of a list of records. */
  function Entries(rs: seq<Record>): (es: seq<Entry>)
    ensures |es| == |rs|
    ensures forall i :: 0 <= i < |rs| ==> es[i] == rs[i].entry
  {
    if rs == [] then [] else [rs[0].entry] + Entries(rs[1..])
  }

  /** The keys of a list of entries. */
  function KeysOf(es: seq<Entry>): set<Key>
  {
    if es == [] then {} else KeysOf(es[..|es| - 1]) + {es[|es| - 1].key}
  }

  /** The index after the merge loop has written `es` back to back from
      offset 0: each key points at the offset its entry was written at. */
  function Repoint(m: Index, es: seq<Entry>): (m2: Index)
    ensures m2.Keys == m.Keys + KeysOf(es)
  {
    if es == [] then m
    else Repoint(m, es[..|es| - 1])[es[|es| - 1].key := SumSizes(es[..|es| - 1])]
  }

  /** The records of `Layout(es)`: each entry at the sum of the sizes of the
      entries before it. */
  function Records(es: seq<Entry>): (rs: seq<Record>)
    ensures |rs| == |es|
  {
    if es == [] then [] else Records(es[..|es| - 1]) + [Record(SumSizes(es[..|es| - 1]), es[|es| - 1])]
  }

  /** Every entry can be written and reads back whole. */
  predicate Writable(es: seq<Entry>)
  {
    forall i :: 0 <= i < |es| ==> Encodable(es[i]) && WellSized(es[i])
  }

  /** Every entry is a PUT. */
  predicate AllPut(es: seq<Entry>)
  {
    forall i :: 0 <= i < |es| ==> es[i].mark == Put
  }

  /** The live entries of a list whose first record is `r`. */
  lemma LiveCons(r: Record, rest: seq<Record>, idx: Index)
    ensures Entries(LiveRecords([r] + rest, idx))
         == (if IsLive(r, idx) then [r.entry] else []) + Entries(LiveRecords(rest, idx))
  {
    assert ([r] + rest)[1..] == rest;
    var tail := LiveRecords(rest, idx);
    if IsLive(r, idx) {
      assert Entries([r] + tail) == [r.entry] + Entries(tail);
    } else {
      assert [] + tail == tail;
    }
  }

  /** Merge's first loop as a recursion on the offset: `acc` followed by
      the live entries `read` gives from `off` on, and the error it stops at. */
  function CollectFrom(read: Reader, end: nat, off: nat, idx: Index, acc: seq<Entry>): (seq<Entry>, Error)
    requires Bounded(read, end)
    decreases end - off
  {
    var rr := read(off);
    if rr.err.Some? then (acc, rr.err.value)
    else
      var e := rr.entry.value;
      CollectFrom(read, end, off + Size(e), idx,
                  if e.key in idx && idx[e.key] == off then acc + [e] else acc)
  }

  /** The entries collected so far are kept in front of the rest. */
  lemma {:induction false} CollectFromAcc(read: Reader, end: nat, off: nat, idx: Index, acc: seq<Entry>)
    requires Bounded(read, end)
    ensures CollectFrom(read, end, off, idx, acc)
         == (acc + CollectFrom(read, end, off, idx, []).0, CollectFrom(read, end, off, idx, []).1)
    decreases end - off
  {
    if read(off).err == None {
      var e := read(off).entry.value;
      var next := off + Size(e);
      var add := if e.key in idx && idx[e.key] == off then [e] else [];
      assert [] + add == add && acc + add == (if add == [] then acc else acc + [e]);
      CollectFromAcc(read, end, next, idx, acc + add);
      CollectFromAcc(read, end, next, idx, add);
      assert acc + add + CollectFrom(read, end, next, idx, []).0
          == acc + (add + CollectFrom(read, end, next, idx, []).0);
    } else {
      assert acc + [] == acc;
    }
  }

  /** The loop collects exactly the live records of the walk, and stops
      where the walk stops. */
  lemma {:induction false} CollectFromIsLive(read: Reader, end: nat, off: nat, idx: Index)
    requires Bounded(read, end)
    ensures CollectFrom(read, end, off, idx, [])
         == (Entries(LiveRecords(Walk(read, end, off).recs, idx)), Walk(read, end, off).stop)
    decreases end - off
  {
    if read(off).err == None {
      var e := read(off).entry.value;
      var next := off + Size(e);
      var r := Record(off, e);
      var add := if IsLive(r, idx) then [e] else [];
      assert [] + add == add;
      CollectFromAcc(read, end, next, idx, add);
      CollectFromIsLive(read, end, next, idx);
      LiveCons(r, Walk(read, end, next).recs, idx);
    }
  }

  /** Merge's first loop over the file `data`. */
  function Collect(data: seq<Byte>, off: nat, idx: Index, acc: seq<Entry>): (seq<Entry>, Error)
  {
    CollectFrom(Reads(data), |data|, off, idx, acc)
  }

  lemma CollectIsLive(data: seq<Byte>, idx: Index)
    ensures Collect(data, 0, idx, []) == (Entries(LiveRecords(Scan(data, 0).recs, idx)), Scan(data, 0).stop)
  {
    CollectFromIsLive(Reads(data), |data|, 0, idx);
  }

  /** A live record's entry is among the live entries. */
  lemma LiveIsKept(recs: seq<Record>, idx: Index, j: nat)
    requires j < |recs| && IsLive(recs[j], idx)
    ensures exists p :: (0 <= p < |Entries(LiveRecords(recs, idx))|
      && Entries(LiveRecords(recs, idx))[p] == recs[j].entry)
  {
    var rs := LiveRecords(recs, idx);
    assert recs[j] in recs;
    var p :| 0 <= p < |rs| && rs[p] == recs[j];
    assert Entries(rs)[p] == recs[j].entry;
  }

  /** One step of Merge's second loop: writing entry `i` where the first
      `i` entries end extends the layout by it, and re-pointing its key at
      that offset extends the re-pointed index. */
  lemma CopyStep(es: seq<Entry>, i: nat, m: Index)
    requires Writable(es) && i < |es|
    ensures WriteStep(Layout(es[..i]), SumSizes(es[..i]), es[i], false)
         == Written(Layout(es[..i + 1]), SumSizes(es[..i + 1]), None)
    ensures Repoint(m, es[..i + 1]) == Repoint(m, es[..i])[es[i].key := SumSizes(es[..i])]
  {
    assert es[..i + 1] == es[..i] + [es[i]];
    WriteExtendsLayout(es[..i], es[i]);
  }

  /** A key is among `KeysOf(es)` exactly when some entry carries it. */
  lemma {:induction false} KeysOfMember(es: seq<Entry>, k: Key)
    ensures k in KeysOf(es) <==> exists i :: 0 <= i < |es| && es[i].key == k
  {
    if es != [] {
      var init := es[..|es| - 1];
      KeysOfMember(init, k);
      if k in KeysOf(init) {
        var i :| 0 <= i < |init| && init[i].key == k;
        assert es[i].key == k;
      }
      if exists i :: 0 <= i < |es| && es[i].key == k {
        var i :| 0 <= i < |es| && es[i].key == k;
        if i < |init| {
          assert init[i].key == k;
        }
      }
    }
  }

  /** The keys of `Repoint(m, es)` are those of `m` and of `es`; a key of
      `es` gets the same offset whatever `m` was, other keys keep theirs. */
  lemma {:induction false} RepointLookup(m: Index, es: seq<Entry>, k: Key)
    ensures k in Repoint(m, es) <==> k in m || k in KeysOf(es)
    ensures k in KeysOf(es) ==> k in Repoint(map[], es) && Repoint(m, es)[k] == Repoint(map[], es)[k]
    ensures k !in KeysOf(es) && k in m ==> Repoint(m, es)[k] == m[k]
  {
    if es != [] {
      RepointLookup(m, es[..|es| - 1], k);
      RepointLookup(map[], es[..|es| - 1], k);
    }
  }

  /** Once every key of `m` is written again, `m` no longer matters. */
  lemma RepointOverwrites(m: Index, es: seq<Entry>)
    requires m.Keys <= KeysOf(es)
    ensures Repoint(m, es) == Repoint(map[], es)
  {
    forall k ensures k in Repoint(m, es) <==> k in Repoint(map[], es) {
      RepointLookup(m, es, k);
      RepointLookup(map[], es, k);
    }
    forall k | k in Repoint(m, es) ensures Repoint(m, es)[k] == Repoint(map[], es)[k] {
      RepointLookup(m, es, k);
      RepointLookup(map[], es, k);
    }
  }

  /** A key written once, by entry `j`, points at where entry `j` was written. */
  lemma {:induction false} RepointAt(m: Index, es: seq<Entry>, j: nat)
    requires j < |es|
    requires forall i :: 0 <= i < |es| && i != j ==> es[i].key != es[j].key
    ensures es[j].key in Repoint(m, es)
    ensures Repoint(m, es)[es[j].key] == SumSizes(es[..j])
  {
    var init := es[..|es| - 1];
    if j < |es| - 1 {
      assert init[j] == es[j];
      assert init[..j] == es[..j];
      RepointAt(m, init, j);
    } else {
      assert init == es[..j];
    }
  }

  /** Folding the records of `Layout(es)` re-points every key, when all the
      entries are PUTs. */
  lemma {:induction false} FoldRecords(es: seq<Entry>, m: Index)
    requires AllPut(es)
    ensures FoldIndex(Records(es), m) == Repoint(m, es)
  {
    if es != [] {
      var init := es[..|es| - 1];
      var last := es[|es| - 1];
      FoldRecords(init, m);
      FoldSnoc(Records(init), Record(SumSizes(init), last), m);
    }
  }

  /** The merged file is well formed and is walked record by record. */
  lemma {:induction false} LayoutScan(es: seq<Entry>)
    requires Writable(es)
    ensures WellFormed(Layout(es), 0)
    ensures Scan(Layout(es), 0) == Scanned(Records(es), EOF)
  {
    if es == [] {
      EndOfFile([]);
    } else {
      var init := es[..|es| - 1];
      var last := es[|es| - 1];
      LayoutScan(init);
      AppendRecord(Layout(init), 0, last);
    }
  }

  /** Reopening the merged file rebuilds the re-pointed index. */
  lemma ReplayLayout(es: seq<Entry>, m: Index)
    requires Writable(es) && AllPut(es)
    ensures Replay(Layout(es), 0, m) == Repoint(m, es)
  {
    LayoutScan(es);
    ReplayIsFold(Reads(Layout(es)), |Layout(es)|, 0, m);
    FoldRecords(es, m);
  }

  /** Sizes add up from the front as well as from the back. */
  lemma {:induction false} SumSizesCons(e: Entry, es: seq<Entry>)
    ensures SumSizes([e] + es) == Size(e) + SumSizes(es)
  {
    if es != [] {
      var all := [e] + es;
      assert all[..|all| - 1] == [e] + es[..|es| - 1];
      SumSizesCons(e, es[..|es| - 1]);
    }
  }

  /** The merged file is no longer than the log it replaces. */
  lemma {:induction false} LiveSize(recs: seq<Record>, idx: Index)
    ensures SumSizes(Entries(LiveRecords(recs, idx))) <= RecSizes(recs)
  {
    if recs != [] {
      LiveSize(recs[1..], idx);
      var rest := LiveRecords(recs[1..], idx);
      if IsLive(recs[0], idx) {
        assert Entries([recs[0]] + rest) == [recs[0].entry] + Entries(rest);
        SumSizesCons(recs[0].entry, Entries(rest));
      } else {
        assert [] + rest == rest;
      }
    }
  }

  /** Filtering keeps offsets strictly increasing. */
  lemma {:induction false} LiveIncreasing(recs: seq<Record>, idx: Index)
    requires Increasing(recs)
    ensures Increasing(LiveRecords(recs, idx))
  {
    if recs != [] {
      var rest := recs[1..];
      assert Increasing(rest) by {
        forall i, j | 0 <= i < j < |rest| ensures rest[i].offset < rest[j].offset {
          assert rest[i] == recs[i + 1] && rest[j] == recs[j + 1];
        }
      }
      LiveIncreasing(rest, idx);
      var live := LiveRecords(recs, idx);
      if IsLive(recs[0], idx) {
        var tail := LiveRecords(rest, idx);
        assert live == [recs[0]] + tail;
        forall j | 0 < j < |live| ensures recs[0].offset < live[j].offset {
          assert live[j] == tail[j - 1];
          assert tail[j - 1] in rest;
          var k :| 0 <= k < |rest| && rest[k] == tail[j - 1];
          assert rest[k] == recs[k + 1];
        }
      }
    }
  }

  /** Two live records never share a key, when offsets strictly increase:
      each would sit at the one offset the index holds for it. */
  lemma LiveKeysDistinct(recs: seq<Record>, idx: Index)
    requires Increasing(recs)
    ensures var live := Entries(LiveRecords(recs, idx));
      forall i, j :: 0 <= i < |live| && 0 <= j < |live| && i != j ==> live[i].key != live[j].key
  {
    var rs := LiveRecords(recs, idx);
    LiveIncreasing(recs, idx);
    forall i, j | 0 <= i < |rs| && 0 <= j < |rs| && i != j
      ensures rs[i].entry.key != rs[j].entry.key
    {
      assert rs[i] in rs && rs[j] in rs;
      assert rs[i].offset != rs[j].offset;
    }
  }
}
