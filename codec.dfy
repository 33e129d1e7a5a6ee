/** The entry codec: one log record and its byte layout.
    The layout is a fixed 12-byte header holding key size, value size and
    mark as 32-bit big-endian words, followed by the key bytes and then the
    value bytes. The rest of the model relies on the facts proved here: the
    header size is positive; encoding fails, with `SizeOverflow`, exactly
    when a size does not fit 32 bits; an encoding is exactly `Size(e)` bytes
    long; a decoded header's sizes fit 32 bits; and decoding the header of
    an encoding gives back its sizes and mark. */
module Codec {
  import opened Errors

  type Byte = x: int | 0 <= x < 256
  type Key = seq<Byte>

  /** Size of the fixed header (entryHeaderSize). */
  const HeaderSize: nat := 12
  /** One more than the largest value of a 32-bit header field. */
  const Word: nat := 0x1_0000_0000

  /** Record kind: PUT = 0, DEL = 1 on disk. */
  datatype Mark = Put | Del

  /** One log record. `key` and `value` are empty where Go leaves them nil. */
  datatype Entry = Entry(key: Key, value: seq<Byte>, keySize: nat, valueSize: nat, mark: Mark)

  /** NewEntry: sizes are taken from the key and value. */
  function NewEntry(key: Key, value: seq<Byte>, mark: Mark): (e: Entry)
    ensures e.key == key && e.value == value && e.mark == mark
    ensures WellSized(e)
  {
    Entry(key, value, |key|, |value|, mark)
  }

  /** GetSize: the number of bytes the record occupies in the log. */
  function Size(e: Entry): (n: nat)
    ensures n >= HeaderSize > 0
  {
    HeaderSize + e.keySize + e.valueSize
  }

  /** The recorded sizes agree with the key and value actually carried. */
  predicate WellSized(e: Entry)
  {
    |e.key| == e.keySize && |e.value| == e.valueSize
  }

  /** Both sizes fit their 32-bit header fields. */
  predicate Encodable(e: Entry)
  {
    e.keySize < Word && e.valueSize < Word
  }

  /** What decoding a header yields: sizes and mark, no key or value yet. */
  function HeaderOf(e: Entry): Entry
  {
    Entry([], [], e.keySize, e.valueSize, e.mark)
  }

  /** Big-endian 32-bit word (binary.BigEndian.PutUint32): the four
      low-order bytes of `n`, most significant first. */
  function U32(n: nat): (b: seq<Byte>)
    ensures |b| == 4
  {
    var q1 := n / 0x100;
    var q2 := q1 / 0x100;
    var q3 := q2 / 0x100;
    [q3 % 0x100, q2 % 0x100, q1 % 0x100, n % 0x100]
  }

  /** The big-endian 32-bit word at `h[i..i + 4]` (binary.BigEndian.Uint32). */
  function ReadU32(h: seq<Byte>, i: nat): (n: nat)
    requires i + 4 <= |h|
    ensures n < Word
  {
    (h[i] as int) * 0x100_0000 + (h[i + 1] as int) * 0x1_0000 + (h[i + 2] as int) * 0x100 + h[i + 3]
  }

  /** Reading back a word written from a value that fits gives it back. */
  lemma U32RoundTrip(n: nat, h: seq<Byte>, i: nat)
    requires n < Word
    requires i + 4 <= |h| && h[i..i + 4] == U32(n)
    ensures ReadU32(h, i) == n
  {
    var q1 := n / 0x100;
    var q2 := q1 / 0x100;
    var q3 := q2 / 0x100;
    assert h[i] == q3 % 0x100 && h[i + 1] == q2 % 0x100 && h[i + 2] == q1 % 0x100 && h[i + 3] == n % 0x100 by {
      assert h[i..i + 4][0] == h[i] && h[i..i + 4][1] == h[i + 1];
      assert h[i..i + 4][2] == h[i + 2] && h[i..i + 4][3] == h[i + 3];
    }
    assert n == q1 * 0x100 + n % 0x100;
    assert q1 == q2 * 0x100 + q1 % 0x100;
    assert q2 == q3 * 0x100 + q2 % 0x100;
    assert q3 < 0x100;
  }

  function MarkWord(m: Mark): nat
  {
    if m == Put then 0 else 1
  }

  /** `s` copied into a zeroed buffer of `n` bytes (Go's `copy`). */
  function Fit(s: seq<Byte>, n: nat): (r: seq<Byte>)
    ensures |r| == n
    ensures |s| == n ==> r == s
  {
    if |s| >= n then s[..n] else s + seq(n - |s|, _ => 0)
  }

  /** The header bytes: key size, value size, mark. */
  function HeaderBytes(e: Entry): (h: seq<Byte>)
    requires Encodable(e)
    ensures |h| == HeaderSize
  {
    U32(e.keySize) + U32(e.valueSize) + U32(MarkWord(e.mark))
  }

  /** Encode: header, then key bytes, then value bytes; fails when a size
      does not fit its header field. */
  function Encode(e: Entry): (r: Result<seq<Byte>>)
    ensures r.Ok? <==> Encodable(e)
    ensures r.Err? ==> r.error == SizeOverflow
    ensures r.Ok? ==> |r.value| == Size(e)
    ensures r.Ok? && WellSized(e) ==> r.value == HeaderBytes(e) + e.key + e.value
  {
    if !Encodable(e) then Err(SizeOverflow)
    else Ok(HeaderBytes(e) + Fit(e.key, e.keySize) + Fit(e.value, e.valueSize))
  }

  /** Decode: parses a header only; an unknown mark word is rejected. */
  function Decode(h: seq<Byte>): (r: Result<Entry>)
    requires |h| == HeaderSize
    ensures r.Ok? ==> r.value.key == [] && r.value.value == [] && Encodable(r.value)
    ensures r.Err? ==> r.error == BadHeader
  {
    var m := ReadU32(h, 8);
    if m == 0 then Ok(Entry([], [], ReadU32(h, 0), ReadU32(h, 4), Put))
    else if m == 1 then Ok(Entry([], [], ReadU32(h, 0), ReadU32(h, 4), Del))
    else Err(BadHeader)
  }

  /** Decoding the header of an encoded entry gives back its sizes and mark. */
  lemma DecodeEncodedHeader(e: Entry)
    requires Encodable(e)
    ensures Encode(e).Ok?
    ensures Decode(Encode(e).value[..HeaderSize]) == Ok(HeaderOf(e))
    ensures Decode(HeaderBytes(e)) == Ok(HeaderOf(e))
  {
    var enc := Encode(e).value;
    var h := HeaderBytes(e);
    assert enc[..HeaderSize] == h;
    assert h[0..4] == U32(e.keySize);
    assert h[4..8] == U32(e.valueSize);
    assert h[8..12] == U32(MarkWord(e.mark));
    U32RoundTrip(e.keySize, h, 0);
    U32RoundTrip(e.valueSize, h, 4);
    U32RoundTrip(MarkWord(e.mark), h, 8);
  }
}
