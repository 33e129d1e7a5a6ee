/** The append log (db_file.go): a file of records plus the `Offset` cursor
    at which the next record is written. The file is its byte contents;
    `ReadAt` and `WriteAt` model the positional reads and writes of the
    operating system's file. */
module DataFile {
  import opened Errors
  import opened Codec

  /** Positional read of `n` bytes: a short read is `EOF`. */
  function ReadAt(file: seq<Byte>, n: nat, off: nat): (r: Result<seq<Byte>>)
    ensures r.Ok? <==> off + n <= |file|
    ensures r.Ok? ==> r.value == file[off..off + n]
    ensures r.Err? ==> r.error == EOF
  {
    if off + n <= |file| then Ok(file[off..off + n]) else Err(EOF)
  }

  /** Positional write: overwrites `b` at `off`, extending the file, with
      zero bytes filling any gap between the old end and `off`. */
  function WriteAt(file: seq<Byte>, b: seq<Byte>, off: nat): (r: seq<Byte>)
    ensures |r| == if off + |b| > |file| then off + |b| else |file|
    ensures r[off..off + |b|] == b
    ensures forall i :: 0 <= i < |r| && !(off <= i < off + |b|) ==>
      r[i] == if i < |file| then file[i] else 0
  {
    var base := if off <= |file| then file else file + seq(off - |file|, _ => 0);
    base[..off] + b + (if off + |b| < |base| then base[off + |b|..] else [])
  }

  /** What `Read` returns: the (possibly partial) entry and the error. */
  datatype ReadResult = ReadResult(entry: Option<Entry>, err: Option<Error>)

  /** The record found at `off`: a header, then `keySize` key bytes, then
      `valueSize` value bytes, each span read only when non-empty. A short
      header read yields no entry; a short key or value read yields the
      entry read so far together with `EOF`. */
  function RecordAt(data: seq<Byte>, off: nat): (r: ReadResult)
    ensures off + HeaderSize > |data| ==> r == ReadResult(None, Some(EOF))
    ensures r.err == None ==> r.entry.Some?
    ensures r.err == None ==>
      var e := r.entry.value;
      && WellSized(e) && Encodable(e)
      && off + Size(e) <= |data|
    ensures r.entry.Some? && r.entry.value.keySize == 0 ==> r.entry.value.key == []
    ensures r.entry.Some? && r.entry.value.valueSize == 0 ==> r.entry.value.value == []
  {
    if off + HeaderSize > |data| then ReadResult(None, Some(EOF))
    else match Decode(data[off..off + HeaderSize])
      case Err(x) => ReadResult(None, Some(x))
      case Ok(h) => ReadBody(data, off + HeaderSize, h)
  }

  /** The key and value reads that follow a decoded header `h`; `kOff` is
      the offset just past the header. */
  function ReadBody(data: seq<Byte>, kOff: nat, h: Entry): (r: ReadResult)
    requires h.key == [] && h.value == []
    requires kOff <= |data|
    ensures r.entry.Some?
    ensures r.err == None ==> kOff + h.keySize + h.valueSize <= |data|
    ensures r.err == None ==>
      r.entry.value == h.(key := data[kOff..kOff + h.keySize],
                          value := data[kOff + h.keySize..kOff + h.keySize + h.valueSize])
  {
    if h.keySize > 0 && kOff + h.keySize > |data| then ReadResult(Some(h), Some(EOF))
    else
      var withKey := if h.keySize > 0 then h.(key := data[kOff..kOff + h.keySize]) else h;
      var vOff := kOff + h.keySize;
      if h.valueSize > 0 && vOff + h.valueSize > |data| then ReadResult(Some(withKey), Some(EOF))
      else
        var full := if h.valueSize > 0 then withKey.(value := data[vOff..vOff + h.valueSize]) else withKey;
        ReadResult(Some(full), None)
  }

  /** The outcome of `Write`: new file contents, new `Offset`, error. */
  datatype Written = Written(data: seq<Byte>, offset: nat, err: Option<Error>)

  /** Write: encode, `WriteAt` the current offset, then advance the offset by
      `Size(e)` whether or not `WriteAt` failed. A failed `WriteAt` (decided
      by the environment, `ioFails`) leaves the bytes as they were. */
  function WriteStep(data: seq<Byte>, offset: nat, e: Entry, ioFails: bool): (w: Written)
    ensures w.offset >= offset
    ensures !Encodable(e) ==> w == Written(data, offset, Some(SizeOverflow))
    ensures Encodable(e) ==> w.offset == offset + Size(e)
    ensures Encodable(e) ==> w.err == (if ioFails then Some(WriteFailed) else None)
    ensures ioFails ==> w.data == data
    ensures Encodable(e) && !ioFails ==>
      && offset + Size(e) <= |w.data| && w.data[offset..offset + Size(e)] == Encode(e).value
      && (|data| <= offset ==> w.data[..|data|] == data)
    ensures |data| <= offset ==> |w.data| <= w.offset
  {
    match Encode(e)
    case Err(x) => Written(data, offset, Some(x))
    case Ok(enc) =>
      Written(if ioFails then data else WriteAt(data, enc, offset), offset + Size(e),
              if ioFails then Some(WriteFailed) else None)
  }

  /** Write as evidently intended: `Offset` advances only once the record
      is on disk, so a failed write leaves both the bytes and the cursor as
      they were, and a cursor at the end of the file stays there. */
  function CommittedWriteStep(data: seq<Byte>, offset: nat, e: Entry, ioFails: bool): (w: Written)
    ensures w.err.Some? ==> w.data == data && w.offset == offset
    ensures w.err.Some? <==> !Encodable(e) || ioFails
    ensures w.err == None ==> w == WriteStep(data, offset, e, false)
    ensures |data| == offset ==> |w.data| == w.offset
  {
    var full := WriteStep(data, offset, e, ioFails);
    if full.err.Some? then Written(data, offset, full.err) else full
  }

  /** As written, a write that fails at the disk still moves the cursor past
      the end of the file: the next write leaves a gap behind. */
  lemma FailedWriteLeavesGap(data: seq<Byte>, e: Entry)
    requires Encodable(e)
    ensures |WriteStep(data, |data|, e, true).data| < WriteStep(data, |data|, e, true).offset
  {
  }

  /** A record whose encoding sits at `off` is read back whole. */
  lemma ReadEncodedAt(data: seq<Byte>, off: nat, e: Entry)
    requires WellSized(e) && Encodable(e)
    requires off + Size(e) <= |data|
    requires data[off..off + Size(e)] == Encode(e).value
    ensures RecordAt(data, off) == ReadResult(Some(e), None)
  {
    EncodedSpans(data, off, e);
    DecodeEncodedHeader(e);
    RecordAtHeader(data, off, HeaderOf(e));
    ReadBodyWhole(data, off + HeaderSize, e);
  }

  /** Once the header at `off` decodes to `h`, the rest is the body read. */
  lemma RecordAtHeader(data: seq<Byte>, off: nat, h: Entry)
    requires off + HeaderSize <= |data| && Decode(data[off..off + HeaderSize]) == Ok(h)
    ensures RecordAt(data, off) == ReadBody(data, off + HeaderSize, h)
  {
  }

  /** A body whose key and value spans lie inside the file is read whole. */
  lemma ReadBodyWhole(data: seq<Byte>, kOff: nat, e: Entry)
    requires WellSized(e) && kOff + e.keySize + e.valueSize <= |data|
    requires data[kOff..kOff + e.keySize] == e.key
    requires data[kOff + e.keySize..kOff + e.keySize + e.valueSize] == e.value
    ensures ReadBody(data, kOff, HeaderOf(e)) == ReadResult(Some(e), None)
  {
  }

  /** The three spans of an encoding placed at `off`. */
  lemma EncodedSpans(data: seq<Byte>, off: nat, e: Entry)
    requires WellSized(e) && Encodable(e)
    requires off + Size(e) <= |data|
    requires data[off..off + Size(e)] == Encode(e).value
    ensures data[off..off + HeaderSize] == HeaderBytes(e)
    ensures data[off + HeaderSize..off + HeaderSize + e.keySize] == e.key
    ensures data[off + HeaderSize + e.keySize..off + HeaderSize + e.keySize + e.valueSize] == e.value
  {
    var enc := Encode(e).value;
    var hb := HeaderBytes(e);
    assert forall i :: 0 <= i < Size(e) ==> data[off + i] == enc[i] by {
      forall i | 0 <= i < Size(e) ensures data[off + i] == enc[i] {
        assert data[off..off + Size(e)][i] == data[off + i];
      }
    }
    forall i | 0 <= i < HeaderSize ensures data[off + i] == hb[i] {
      assert enc[i] == hb[i];
    }
    SliceAt(data, off, hb);
    forall i | 0 <= i < e.keySize ensures data[off + HeaderSize + i] == e.key[i] {
      assert enc[HeaderSize + i] == e.key[i];
    }
    SliceAt(data, off + HeaderSize, e.key);
    forall i | 0 <= i < e.valueSize ensures data[off + HeaderSize + e.keySize + i] == e.value[i] {
      assert enc[HeaderSize + e.keySize + i] == e.value[i];
    }
    SliceAt(data, off + HeaderSize + e.keySize, e.value);
  }

  /** An encoding between any prefix and any suffix is read back whole. */
  lemma ReadAppended(pre: seq<Byte>, e: Entry, post: seq<Byte>)
    requires WellSized(e) && Encodable(e)
    ensures RecordAt(pre + Encode(e).value + post, |pre|) == ReadResult(Some(e), None)
  {
    var enc := Encode(e).value;
    var d := pre + enc + post;
    forall i | 0 <= i < |enc| ensures d[|pre| + i] == enc[i] {
    }
    SliceAt(d, |pre|, enc);
    ReadEncodedAt(d, |pre|, e);
  }

  /** Pointwise agreement gives slice equality. */
  lemma SliceAt(s: seq<Byte>, a: nat, t: seq<Byte>)
    requires a + |t| <= |s|
    requires forall i :: 0 <= i < |t| ==> s[a + i] == t[i]
    ensures s[a..a + |t|] == t
  {
  }

  /** A successful read takes three consecutive spans: the header that
      decodes to the entry's sizes and mark, then the key, then the value. */
  lemma RecordSpans(data: seq<Byte>, off: nat)
    requires RecordAt(data, off).err == None
    ensures var e := RecordAt(data, off).entry.value;
      && Decode(data[off..off + HeaderSize]) == Ok(HeaderOf(e))
      && e.key == data[off + HeaderSize..off + HeaderSize + e.keySize]
      && e.value == data[off + HeaderSize + e.keySize..off + Size(e)]
  {
  }

  /** Read at the offset where a successful Write started returns the entry
      that was written, key, value and mark. */
  lemma ReadAfterWrite(data: seq<Byte>, offset: nat, e: Entry)
    requires WellSized(e)
    requires WriteStep(data, offset, e, false).err == None
    ensures RecordAt(WriteStep(data, offset, e, false).data, offset) == ReadResult(Some(e), None)
  {
    var w := WriteStep(data, offset, e, false);
    ReadEncodedAt(w.data, offset, e);
  }

  /** A successful read only looks at bytes before the end of its record,
      so it reads the same in any file that extends this one. */
  lemma RecordAtExtended(data: seq<Byte>, ext: seq<Byte>, off: nat)
    requires RecordAt(data, off).err == None
    requires |data| <= |ext| && ext[..|data|] == data
    ensures RecordAt(ext, off) == RecordAt(data, off)
  {
    var e := RecordAt(data, off).entry.value;
    var kOff := off + HeaderSize;
    SliceOfSlice(ext, 0, |data|, off, kOff);
    SliceOfSlice(ext, 0, |data|, kOff, kOff + e.keySize);
    SliceOfSlice(ext, 0, |data|, kOff + e.keySize, off + Size(e));
  }

  lemma SliceOfSlice(s: seq<Byte>, a: nat, b: nat, c: nat, d: nat)
    requires a <= b <= |s| && c <= d <= b - a
    ensures s[a..b][c..d] == s[a + c..a + d]
  {
    assert forall i | 0 <= i < d - c :: s[a..b][c..d][i] == s[a + c..a + d][i];
  }

  /** Sum of the sizes of `es`. */
  function SumSizes(es: seq<Entry>): nat
  {
    if es == [] then 0 else SumSizes(es[..|es| - 1]) + Size(es[|es| - 1])
  }

  /** The bytes that successful writes of `es`, one after another from
      offset 0, leave in an empty file. */
  function Layout(es: seq<Entry>): (d: seq<Byte>)
    requires forall i :: 0 <= i < |es| ==> Encodable(es[i])
    ensures |d| == SumSizes(es)
  {
    if es == [] then [] else Layout(es[..|es| - 1]) + Encode(es[|es| - 1]).value
  }

  /** One more successful Write at the end of `Layout(es)` gives
      `Layout(es + [e])`, and the offset moves to the sum of all sizes. */
  lemma WriteExtendsLayout(es: seq<Entry>, e: Entry)
    requires forall i :: 0 <= i < |es| ==> Encodable(es[i])
    requires Encodable(e)
    ensures WriteStep(Layout(es), SumSizes(es), e, false)
         == Written(Layout(es + [e]), SumSizes(es + [e]), None)
  {
    assert (es + [e])[..|es|] == es;
    WriteAtEnd(Layout(es), Encode(e).value);
  }

  /** A write at or past the end of the file leaves every record that was
      already readable reading the same. */
  lemma WriteKeepsRecords(data: seq<Byte>, offset: nat, e: Entry, ioFails: bool, off: nat)
    requires |data| <= offset && RecordAt(data, off).err == None
    ensures RecordAt(WriteStep(data, offset, e, ioFails).data, off) == RecordAt(data, off)
  {
    if Encodable(e) && !ioFails {
      WriteAtPrefix(data, Encode(e).value, offset);
      RecordAtExtended(data, WriteStep(data, offset, e, ioFails).data, off);
    }
  }

  /** Writing at or past the end of the file leaves its bytes in place. */
  lemma WriteAtPrefix(file: seq<Byte>, b: seq<Byte>, off: nat)
    requires |file| <= off
    ensures |file| <= |WriteAt(file, b, off)|
    ensures WriteAt(file, b, off)[..|file|] == file
  {
    var r := WriteAt(file, b, off);
    assert forall i :: 0 <= i < |file| ==> r[i] == file[i];
  }

  /** Writing at the end of the file appends. */
  lemma WriteAtEnd(file: seq<Byte>, b: seq<Byte>)
    ensures WriteAt(file, b, |file|) == file + b
  {
    assert file[..|file|] == file;
  }

  /** Layout of a prefix is a prefix of the layout. */
  lemma {:induction false} LayoutPrefix(es: seq<Entry>, j: nat)
    requires forall i :: 0 <= i < |es| ==> Encodable(es[i])
    requires j <= |es|
    ensures |Layout(es[..j])| <= |Layout(es)|
    ensures Layout(es)[..|Layout(es[..j])|] == Layout(es[..j])
  {
    if j < |es| {
      var init := es[..|es| - 1];
      assert es[..j] == init[..j];
      LayoutPrefix(init, j);
      assert Layout(es) == Layout(init) + Encode(es[|es| - 1]).value;
    } else {
      assert es[..j] == es;
    }
  }

  /** Successive writes are back to back: the j-th entry starts at the sum
      of the sizes of the entries written before it, and reads back whole. */
  lemma BackToBack(es: seq<Entry>, j: nat)
    requires forall i :: 0 <= i < |es| ==> Encodable(es[i]) && WellSized(es[i])
    requires j < |es|
    ensures RecordAt(Layout(es), SumSizes(es[..j])) == ReadResult(Some(es[j]), None)
  {
    var rest := LayoutSplit(es, j);
    ReadAppended(Layout(es[..j]), es[j], rest);
  }

  /** The layout around its j-th entry. */
  lemma LayoutSplit(es: seq<Entry>, j: nat) returns (rest: seq<Byte>)
    requires forall i :: 0 <= i < |es| ==> Encodable(es[i])
    requires j < |es|
    ensures Layout(es) == Layout(es[..j]) + Encode(es[j]).value + rest
  {
    LayoutPrefix(es, j + 1);
    LayoutSnoc(es, j);
    var d := Layout(es);
    var n := |Layout(es[..j + 1])|;
    rest := d[n..];
    SplitAt(d, Layout(es[..j]), Encode(es[j]).value);
  }

  /** The layout up to and including entry `j`. */
  lemma LayoutSnoc(es: seq<Entry>, j: nat)
    requires forall i :: 0 <= i < |es| ==> Encodable(es[i])
    requires j < |es|
    ensures Layout(es[..j + 1]) == Layout(es[..j]) + Encode(es[j]).value
  {
    var upTo := es[..j + 1];
    assert upTo[..|upTo| - 1] == es[..j] && upTo[|upTo| - 1] == es[j];
  }

  /** A sequence that starts with `p + q` is `p + q` followed by the rest. */
  lemma SplitAt(d: seq<Byte>, p: seq<Byte>, q: seq<Byte>)
    requires |p| + |q| <= |d| && d[..|p| + |q|] == p + q
    ensures d == p + q + d[|p| + |q|..]
  {
    assert forall i | 0 <= i < |d| :: d[i] == (p + q + d[|p| + |q|..])[i];
  }

  /** DBFile: the open log file and its write cursor. */
  class DBFile {
    var data: seq<Byte>
    var offset: nat

    /** newInternal: the cursor starts at the current length of the file. */
    constructor Open(contents: seq<Byte>)
      ensures data == contents && offset == |contents|
    {
      data := contents;
      offset := |contents|;
    }

    /** Write: the record goes at `offset`, which then advances by its size. */
    method Write(e: Entry, ioFails: bool) returns (err: Option<Error>)
      modifies this
      ensures Written(data, offset, err) == WriteStep(old(data), old(offset), e, ioFails)
    {
      var enc := Encode(e);
      if enc.Err? {
        err := Some(enc.error);
        return;
      }
      if ioFails {
        err := Some(WriteFailed);
      } else {
        data := WriteAt(data, enc.value, offset);
        err := None;
      }
      offset := offset + Size(e);
    }

    /** Write as evidently intended: the cursor moves only after a
        successful write. */
    method WriteCommitted(e: Entry, ioFails: bool) returns (err: Option<Error>)
      modifies this
      ensures Written(data, offset, err) == CommittedWriteStep(old(data), old(offset), e, ioFails)
    {
      var enc := Encode(e);
      if enc.Err? {
        err := Some(enc.error);
        return;
      }
      if ioFails {
        err := Some(WriteFailed);
        return;
      }
      data := WriteAt(data, enc.value, offset);
      offset := offset + Size(e);
      err := None;
    }

    /** Read: the header, then the key, then the value, each read at the
        position following the previous one. */
    method Read(off: nat) returns (e: Option<Entry>, err: Option<Error>)
      ensures ReadResult(e, err) == RecordAt(data, off)
    {
      e, err := None, None;
      var buf := ReadAt(data, HeaderSize, off);
      if buf.Err? {
        err := Some(buf.error);
        return;
      }
      var h := Decode(buf.value);
      if h.Err? {
        err := Some(h.error);
        return;
      }
      var ent := h.value;
      var pos := off + HeaderSize;
      if ent.keySize > 0 {
        var key := ReadAt(data, ent.keySize, pos);
        if key.Err? {
          e, err := Some(ent), Some(key.error);
          return;
        }
        ent := ent.(key := key.value);
      }
      pos := pos + ent.keySize;
      if ent.valueSize > 0 {
        var value := ReadAt(data, ent.valueSize, pos);
        if value.Err? {
          e, err := Some(ent), Some(value.error);
          return;
        }
        ent := ent.(value := value.value);
      }
      e := Some(ent);
    }
  }
}
