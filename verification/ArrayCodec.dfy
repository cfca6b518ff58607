/**
 The Zenoh object and detection payloads: twenty fixed-size records of little-endian words with a type byte at the end,
 packed one after the other into a buffer by slice assignment.
 */
module ArrayCodec {
  import opened Common

  type byte = n: int | 0 <= n < 256

  const RECORDS: nat := 20

  /** How many 32-bit words a record has before its type byte. */
  datatype Format = Format(words: nat) {
    function Size(): nat {
      4 * words + 1
    }
  }

  const OBJECT := Format(14)
  const DETECTION := Format(19)

  /** The fields as the caller gives them, any integers. */
  datatype Record = Record(words: seq<int>, kind: int)

  predicate Fits(f: Format, r: Record) {
    |r.words| == f.words
  }

  ghost predicate AllFit(f: Format, records: seq<Record>) {
    forall i :: 0 <= i < |records| ==> Fits(f, records[i])
  }

  // ---------------------------------------------------------------- one record

  function LowByte(n: int): byte {
    n % 0x100
  }

  /** The bytes of a word, least significant first. */
  function BytesOf(w: u32): (b: seq<byte>)
    ensures |b| == 4
  {
    [LowByte(w), LowByte(w / 0x100), LowByte(w / 0x100 / 0x100), LowByte(w / 0x100 / 0x100 / 0x100)]
  }

  function PackWord(x: int): (b: seq<byte>)
    ensures |b| == 4
  {
    BytesOf(x % TWO_32)
  }

  function UnpackWord(b: seq<byte>): u32
    requires |b| == 4
  {
    var b0: int, b1: int, b2: int, b3: int := b[0], b[1], b[2], b[3];
    b0 + 0x100 * (b1 + 0x100 * (b2 + 0x100 * b3))
  }

  function PackWords(words: seq<int>): (b: seq<byte>)
    ensures |b| == 4 * |words|
  {
    if words == [] then [] else PackWord(words[0]) + PackWords(words[1..])
  }

  function UnpackWords(b: seq<byte>, n: nat): (words: seq<int>)
    requires |b| == 4 * n
    ensures |words| == n
  {
    if n == 0 then [] else [UnpackWord(b[..4])] + UnpackWords(b[4..], n - 1)
  }

  function PackOne(f: Format, r: Record): (b: seq<byte>)
    requires Fits(f, r)
    ensures |b| == f.Size()
  {
    PackWords(r.words) + [LowByte(r.kind)]
  }

  function UnpackOne(f: Format, b: seq<byte>): (r: Record)
    requires |b| == f.Size()
    ensures Fits(f, r)
  {
    Record(UnpackWords(b[..4 * f.words], f.words), b[4 * f.words])
  }

  /** What survives the masking: every word modulo 2^32, the type modulo 2^8. */
  function Masked(r: Record): Record {
    Record(seq(|r.words|, i requires 0 <= i < |r.words| => r.words[i] % TWO_32), LowByte(r.kind))
  }

  lemma {:induction false} WordRoundTrip(w: u32)
    ensures UnpackWord(BytesOf(w)) == w
  {
    assert w / 0x100 / 0x100 / 0x100 < 0x100;
  }

  /** The byte order on the wire: the bytes of a word, the least significant first, are its digits to base 256. */
  lemma {:induction false} WordIsLittleEndian(x: int)
    ensures var b := PackWord(x);
            b[0] as int + 256 * b[1] as int + 65536 * b[2] as int + 16777216 * b[3] as int == x % 0x1_0000_0000
  {
    WordRoundTrip(x % TWO_32);
  }

  /** Objects take 57 bytes and detections 77, and so twenty of them 1140 and 1540. */
  lemma {:induction false} PayloadSizes()
    ensures OBJECT.Size() == 57 && DETECTION.Size() == 77
    ensures OBJECT.Size() * RECORDS == 1140 && DETECTION.Size() * RECORDS == 1540
  {
  }

  lemma {:induction false} SplitByte(low: byte, high: nat)
    ensures (low + 0x100 * high) / 0x100 == high && LowByte(low + 0x100 * high) == low
  {
  }

  lemma {:induction false} WordBytes(b: seq<byte>)
    requires |b| == 4
    ensures BytesOf(UnpackWord(b)) == b
  {
    var b1: int, b2: int, b3: int := b[1], b[2], b[3];
    SplitByte(b[0], b1 + 0x100 * (b2 + 0x100 * b3));
    SplitByte(b[1], b2 + 0x100 * b3);
    SplitByte(b[2], b3);
  }

  lemma {:induction false} WordsRoundTrip(words: seq<int>)
    ensures UnpackWords(PackWords(words), |words|) == seq(|words|, i requires 0 <= i < |words| => words[i] % TWO_32)
  {
    if words == [] {
    } else {
      WordRoundTrip(words[0] % TWO_32);
      WordsRoundTrip(words[1..]);
      assert PackWords(words)[..4] == PackWord(words[0]) && PackWords(words)[4..] == PackWords(words[1..]);
    }
  }

  lemma {:induction false} WordsBytes(b: seq<byte>, n: nat)
    requires |b| == 4 * n
    ensures PackWords(UnpackWords(b, n)) == b
  {
    if n == 0 {
    } else {
      WordBytes(b[..4]);
      assert PackWord(UnpackWord(b[..4])) == BytesOf(UnpackWord(b[..4]));
      WordsBytes(b[4..], n - 1);
      assert UnpackWords(b, n)[1..] == UnpackWords(b[4..], n - 1);
      assert b == b[..4] + b[4..];
    }
  }

  /** Parsing a packed record gives its fields back, masked; packing a parsed record gives the bytes back. */
  lemma {:induction false} RecordRoundTrip(f: Format, r: Record)
    requires Fits(f, r)
    ensures UnpackOne(f, PackOne(f, r)) == Masked(r)
  {
    WordsRoundTrip(r.words);
    assert PackOne(f, r)[..4 * f.words] == PackWords(r.words);
  }

  lemma {:induction false} RecordBytes(f: Format, b: seq<byte>)
    requires |b| == f.Size()
    ensures PackOne(f, UnpackOne(f, b)) == b
  {
    WordsBytes(b[..4 * f.words], f.words);
    assert b == b[..4 * f.words] + [b[4 * f.words]];
  }

  // ---------------------------------------------------------------- the array

  /** Where record `i` starts: `i * size`. */
  function Offset(f: Format, i: nat): nat {
    if i == 0 then 0 else Offset(f, i - 1) + f.Size()
  }

  lemma {:induction false} OffsetIs(f: Format, i: nat)
    ensures Offset(f, i) == i * f.Size()
  {
    if i == 0 {
    } else {
      OffsetIs(f, i - 1);
      assert i * f.Size() == (i - 1) * f.Size() + f.Size();
    }
  }

  lemma {:induction false} OffsetMonotone(f: Format, i: nat, j: nat)
    requires i <= j
    ensures Offset(f, i) <= Offset(f, j)
  {
    if i == j {
    } else {
      OffsetMonotone(f, i, j - 1);
    }
  }

  function PackAll(f: Format, records: seq<Record>): (b: seq<byte>)
    requires AllFit(f, records)
    ensures |b| == Offset(f, |records|)
  {
    if records == [] then []
    else PackAll(f, records[..|records| - 1]) + PackOne(f, records[|records| - 1])
  }

  lemma {:induction false} SliceOfConcat(a: seq<byte>, b: seq<byte>, lo: nat, hi: nat)
    requires lo <= hi <= |a|
    ensures (a + b)[lo..hi] == a[lo..hi] && (a + b)[|a|..|a| + |b|] == b
  {
  }

  /** Each record's bytes are found at its own offset. */
  lemma {:induction false} RecordAt(f: Format, records: seq<Record>, i: nat)
    requires AllFit(f, records) && i < |records|
    ensures Offset(f, i) <= Offset(f, i + 1) <= Offset(f, |records|)
    ensures PackAll(f, records)[Offset(f, i)..Offset(f, i + 1)] == PackOne(f, records[i])
  {
    var n := |records| - 1;
    var front, last := PackAll(f, records[..n]), PackOne(f, records[n]);
    assert PackAll(f, records) == front + last;
    OffsetMonotone(f, i, i + 1);
    OffsetMonotone(f, i + 1, |records|);
    if i < n {
      OffsetMonotone(f, i + 1, n);
      assert records[..n][i] == records[i];
      RecordAt(f, records[..n], i);
      SliceOfConcat(front, last, Offset(f, i), Offset(f, i + 1));
    } else {
      SliceOfConcat(front, last, 0, 0);
    }
  }

  /** Parsing the array at every multiple of the record size gives every field back, masked. */
  lemma {:induction false} ArrayRoundTrip(f: Format, records: seq<Record>, i: nat)
    requires AllFit(f, records) && i < |records|
    ensures Offset(f, i) + f.Size() <= |PackAll(f, records)|
    ensures UnpackOne(f, PackAll(f, records)[Offset(f, i)..Offset(f, i) + f.Size()]) == Masked(records[i])
  {
    RecordAt(f, records, i);
    RecordRoundTrip(f, records[i]);
  }

  /** The slice assignment `buffer[at:at+len(data)] = data`. */
  method AssignSlice(buffer: array<byte>, at: nat, data: seq<byte>)
    requires at + |data| <= buffer.Length
    modifies buffer
    ensures buffer[..] == old(buffer[..at]) + data + old(buffer[at + |data|..])
  {
    forall j | 0 <= j < |data| {
      buffer[at + j] := data[j];
    }
  }

  /** Filling the buffer record by record. */
  method PackArray(f: Format, records: seq<Record>) returns (payload: array<byte>)
    requires AllFit(f, records)
    ensures fresh(payload) && payload[..] == PackAll(f, records)
  {
    OffsetIs(f, |records|);
    payload := new byte[|records| * f.Size()](_ => 0);
    for i := 0 to |records|
      invariant payload.Length == Offset(f, |records|)
      invariant Offset(f, i) <= payload.Length && payload[..Offset(f, i)] == PackAll(f, records[..i])
    {
      OffsetIs(f, i);
      OffsetMonotone(f, i + 1, |records|);
      ghost var before := payload[..];
      AssignSlice(payload, i * f.Size(), PackOne(f, records[i]));
      assert records[..i + 1][..i] == records[..i];
      assert payload[..Offset(f, i + 1)] == before[..Offset(f, i)] + PackOne(f, records[i]);
    }
    assert records[..|records|] == records;
    assert payload[..] == payload[..Offset(f, |records|)];
  }

  // ---------------------------------------------------------------- what the ECU reads

  datatype Header = Header(tsMs: int, seqNo: int) | SizeMismatch(got: nat, expected: nat)

  /** `unpack_object_array` and `unpack_detection_array`: the first record speaks for all of them. */
  function UnpackArray(f: Format, buf: seq<byte>): Header
    requires f.words >= 2
  {
    var expected := f.Size() * RECORDS;
    if |buf| != expected then SizeMismatch(|buf|, expected)
    else
      var first := UnpackOne(f, buf[0..f.Size()]);
      Header(first.words[0], first.words[1])
  }

  /** An array is accepted exactly if it has twenty records; what is read is the time and number common to them. */
  lemma {:induction false} HeaderIsCommon(f: Format, records: seq<Record>, ts: int, seqNo: int)
    requires f.words >= 2 && AllFit(f, records)
    requires forall i :: 0 <= i < |records| ==> records[i].words[0] == ts && records[i].words[1] == seqNo
    ensures UnpackArray(f, PackAll(f, records))
         == if |records| == RECORDS then Header(ts % TWO_32, seqNo % TWO_32)
            else SizeMismatch(|records| * f.Size(), RECORDS * f.Size())
  {
    OffsetIs(f, |records|);
    if |records| == RECORDS {
      ArrayRoundTrip(f, records, 0);
      assert Masked(records[0]).words[0] == ts % TWO_32 && Masked(records[0]).words[1] == seqNo % TWO_32;
    } else {
      DifferentCounts(|records|, RECORDS, f.Size());
    }
  }

  lemma {:induction false} DifferentCounts(a: nat, b: nat, size: nat)
    requires a != b && size > 0
    ensures a * size != b * size
  {
    if a < b {
      assert b * size == a * size + (b - a) * size;
    } else {
      assert a * size == b * size + (a - b) * size;
    }
  }

  // ---------------------------------------------------------------- clearing the types in place

  /** The buffer after the last byte of each of its first `n` records has been zeroed. */
  function Cleared(f: Format, b: seq<byte>, n: nat): (c: seq<byte>)
    requires Offset(f, n) <= |b|
    ensures |c| == |b|
  {
    if n == 0 then b else Cleared(f, b, n - 1)[Offset(f, n) - 1 := 0]
  }

  method ClearTypes(f: Format, payload: array<byte>, n: nat)
    requires payload.Length == n * f.Size()
    modifies payload
    ensures Offset(f, n) == payload.Length && payload[..] == Cleared(f, old(payload[..]), n)
  {
    OffsetIs(f, n);
    for i := 0 to n
      invariant Offset(f, i) <= payload.Length
      invariant payload[..] == Cleared(f, old(payload[..]), i)
    {
      OffsetIs(f, i);
      OffsetMonotone(f, i + 1, n);
      payload[i * f.Size() + (f.Size() - 1)] := 0;
    }
  }

  lemma {:induction false} ClearedPrefix(f: Format, a: seq<byte>, b: seq<byte>, n: nat)
    requires Offset(f, n) <= |a|
    ensures Cleared(f, a + b, n) == Cleared(f, a, n) + b
  {
    if n == 0 {
    } else {
      ClearedPrefix(f, a, b, n - 1);
    }
  }

  function Untyped(records: seq<Record>): (r: seq<Record>)
    ensures |r| == |records|
  {
    seq(|records|, i requires 0 <= i < |records| => records[i].(kind := 0))
  }

  lemma {:induction false} LastByteIsKind(f: Format, r: Record)
    requires Fits(f, r)
    ensures PackOne(f, r)[f.Size() - 1 := 0] == PackOne(f, r.(kind := 0))
  {
  }

  lemma {:induction false} UpdateInSecond(a: seq<byte>, b: seq<byte>, at: nat)
    requires at < |b|
    ensures (a + b)[|a| + at := 0] == a + b[at := 0]
  {
  }

  /** Clearing a packed array is packing the same records with type zero: no other field changes. */
  lemma {:induction false} ClearingUntypes(f: Format, records: seq<Record>)
    requires AllFit(f, records)
    ensures Cleared(f, PackAll(f, records), |records|) == PackAll(f, Untyped(records))
  {
    if records == [] {
    } else {
      var n := |records| - 1;
      var rest, last := records[..n], records[n];
      ClearingUntypes(f, rest);
      ClearedPrefix(f, PackAll(f, rest), PackOne(f, last), n);
      LastByteIsKind(f, last);
      UpdateInSecond(PackAll(f, Untyped(rest)), PackOne(f, last), f.Size() - 1);
      assert Untyped(records)[..n] == Untyped(rest);
    }
  }
}
