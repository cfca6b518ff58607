/**
 The 16-byte calibration frame. The vsomeip programs swap each word on a little-endian host and copy its memory, the
 Zenoh programs pack with the format ">IIII"; both put the same bytes on the wire.
 */
module CalFrame {
  import opened Common

  datatype U32x4 = U32x4(d1: bv32, d2: bv32, d3: bv32, d4: bv32)

  /** The byte order of the machine a program was compiled for. */
  datatype Host = LittleEndian | BigEndian

  const FRAME_SIZE: nat := 16
  const ZERO_FRAME := U32x4(0, 0, 0, 0)

  // ----- vsomeip -----

  function BSwap32(x: bv32): bv32 {
    ((x & 0x0000_00FF) << 24) | ((x & 0x0000_FF00) << 8) | ((x & 0x00FF_0000) >> 8) | ((x & 0xFF00_0000) >> 24)
  }

  /** `htobe32u`; `be32tohu` is the same function. */
  function HostToBe32(host: Host, x: bv32): bv32 {
    match host
    case LittleEndian => BSwap32(x)
    case BigEndian => x
  }

  /** The four bytes `memcpy` takes from a word. */
  function MemoryOf(host: Host, w: bv32): (bytes: seq<bv8>)
    ensures |bytes| == 4
  {
    var b0, b1 := (w & 0xFF) as bv8, ((w >> 8) & 0xFF) as bv8;
    var b2, b3 := ((w >> 16) & 0xFF) as bv8, ((w >> 24) & 0xFF) as bv8;
    match host
    case LittleEndian => [b0, b1, b2, b3]
    case BigEndian => [b3, b2, b1, b0]
  }

  /** The word `memcpy` makes of four bytes. */
  function WordAt(host: Host, b: seq<bv8>, i: nat): bv32
    requires i + 4 <= |b|
  {
    var b0, b1, b2, b3 := b[i] as bv32, b[i + 1] as bv32, b[i + 2] as bv32, b[i + 3] as bv32;
    match host
    case LittleEndian => b0 | (b1 << 8) | (b2 << 16) | (b3 << 24)
    case BigEndian => b3 | (b2 << 8) | (b1 << 16) | (b0 << 24)
  }

  function PackBe(host: Host, v: U32x4): (bytes: seq<bv8>)
    ensures |bytes| == FRAME_SIZE
  {
    MemoryOf(host, HostToBe32(host, v.d1)) + MemoryOf(host, HostToBe32(host, v.d2))
    + MemoryOf(host, HostToBe32(host, v.d3)) + MemoryOf(host, HostToBe32(host, v.d4))
  }

  /** A frame that is too short is read as zeros; bytes past the sixteenth are ignored. */
  function UnpackBe(host: Host, p: seq<bv8>): U32x4 {
    if |p| < FRAME_SIZE then ZERO_FRAME
    else
      U32x4(HostToBe32(host, WordAt(host, p, 0)), HostToBe32(host, WordAt(host, p, 4)),
            HostToBe32(host, WordAt(host, p, 8)), HostToBe32(host, WordAt(host, p, 12)))
  }

  // ----- Zenoh -----

  /** `struct.pack(">I", w)`: most significant byte first. */
  function PackWord(w: bv32): (bytes: seq<bv8>)
    ensures |bytes| == 4
  {
    [(w >> 24) as bv8, ((w >> 16) & 0xFF) as bv8, ((w >> 8) & 0xFF) as bv8, (w & 0xFF) as bv8]
  }

  function UnpackWord(b: seq<bv8>, i: nat): bv32
    requires i + 4 <= |b|
  {
    ((b[i] as bv32) << 24) | ((b[i + 1] as bv32) << 16) | ((b[i + 2] as bv32) << 8) | (b[i + 3] as bv32)
  }

  function EncodeCalibration(m: U32x4): (bytes: seq<bv8>)
    ensures |bytes| == FRAME_SIZE
  {
    PackWord(m.d1) + PackWord(m.d2) + PackWord(m.d3) + PackWord(m.d4)
  }

  /** A frame of any other length is rejected. */
  function DecodeCalibration(raw: seq<bv8>): Option<U32x4> {
    if |raw| != FRAME_SIZE then None
    else Some(U32x4(UnpackWord(raw, 0), UnpackWord(raw, 4), UnpackWord(raw, 8), UnpackWord(raw, 12)))
  }

  // ----- Agreement -----

  lemma {:induction false} BSwap32Involution(x: bv32)
    ensures BSwap32(BSwap32(x)) == x
  {
  }

  lemma {:induction false} SwappedBytes(w: bv32)
    ensures BSwap32(w) & 0xFF == w >> 24
    ensures (BSwap32(w) >> 8) & 0xFF == (w >> 16) & 0xFF
    ensures (BSwap32(w) >> 16) & 0xFF == (w >> 8) & 0xFF
    ensures (BSwap32(w) >> 24) & 0xFF == w & 0xFF
    ensures (w >> 24) & 0xFF == w >> 24
  {
  }

  lemma {:induction false} MemoryOfSwapped(w: bv32, s: bv32)
    requires s & 0xFF == w >> 24 && (s >> 8) & 0xFF == (w >> 16) & 0xFF
    requires (s >> 16) & 0xFF == (w >> 8) & 0xFF && (s >> 24) & 0xFF == w & 0xFF
    ensures MemoryOf(LittleEndian, s) == PackWord(w)
  {
  }

  /** Swapping on a little-endian host and not swapping on a big-endian one leave the same bytes in memory. */
  lemma {:induction false} MemoryIsBigEndian(host: Host, w: bv32)
    ensures MemoryOf(host, HostToBe32(host, w)) == PackWord(w)
  {
    SwappedBytes(w);
    var s := HostToBe32(host, w);
    match host
    case LittleEndian => MemoryOfSwapped(w, s);
    case BigEndian => assert s == w;
  }

  lemma {:induction false} WordIsBigEndian(host: Host, b: seq<bv8>, i: nat)
    requires i + 4 <= |b|
    ensures HostToBe32(host, WordAt(host, b, i)) == UnpackWord(b, i)
  {
    BytesSwap(b[i] as bv32, b[i + 1] as bv32, b[i + 2] as bv32, b[i + 3] as bv32);
  }

  lemma {:induction false} BytesSwap(b0: bv32, b1: bv32, b2: bv32, b3: bv32)
    requires b0 < 256 && b1 < 256 && b2 < 256 && b3 < 256
    ensures BSwap32(b0 | (b1 << 8) | (b2 << 16) | (b3 << 24)) == (b0 << 24) | (b1 << 16) | (b2 << 8) | b3
    ensures b3 | (b2 << 8) | (b1 << 16) | (b0 << 24) == (b0 << 24) | (b1 << 16) | (b2 << 8) | b3
  {
  }

  lemma {:induction false} WordRoundTrip(w: bv32)
    ensures UnpackWord(PackWord(w), 0) == w
  {
    assert ((w >> 24) << 24) | (((w >> 16) & 0xFF) << 16) | (((w >> 8) & 0xFF) << 8) | (w & 0xFF) == w;
  }

  lemma {:induction false} BytesRoundTrip(b: seq<bv8>, i: nat)
    requires i + 4 <= |b|
    ensures PackWord(UnpackWord(b, i)) == b[i..i + 4]
  {
    var b0, b1, b2, b3 := b[i] as bv32, b[i + 1] as bv32, b[i + 2] as bv32, b[i + 3] as bv32;
    BytesOfWord(b0, b1, b2, b3);
    assert b[i..i + 4] == [b[i], b[i + 1], b[i + 2], b[i + 3]];
  }

  lemma {:induction false} BytesOfWord(b0: bv32, b1: bv32, b2: bv32, b3: bv32)
    requires b0 < 256 && b1 < 256 && b2 < 256 && b3 < 256
    ensures var w := (b0 << 24) | (b1 << 16) | (b2 << 8) | b3;
            w >> 24 == b0 && (w >> 16) & 0xFF == b1 && (w >> 8) & 0xFF == b2 && w & 0xFF == b3
  {
  }

  /** Every host puts the same sixteen bytes on the wire, and they are the ones the Zenoh programs send. */
  lemma {:induction false} FramesAgree(host: Host, v: U32x4)
    ensures PackBe(host, v) == EncodeCalibration(v)
  {
    MemoryIsBigEndian(host, v.d1);
    MemoryIsBigEndian(host, v.d2);
    MemoryIsBigEndian(host, v.d3);
    MemoryIsBigEndian(host, v.d4);
  }

  /** Every host reads a frame of the right length as the Zenoh programs do. */
  lemma {:induction false} ReadersAgree(host: Host, p: seq<bv8>)
    requires |p| == FRAME_SIZE
    ensures DecodeCalibration(p) == Some(UnpackBe(host, p))
  {
    WordIsBigEndian(host, p, 0);
    WordIsBigEndian(host, p, 4);
    WordIsBigEndian(host, p, 8);
    WordIsBigEndian(host, p, 12);
  }

  lemma {:induction false} UnpackSlice(p: seq<bv8>, i: nat, q: seq<bv8>)
    requires i + 4 <= |p| && p[i..i + 4] == q
    ensures UnpackWord(p, i) == UnpackWord(q, 0)
  {
    assert q[0] == p[i] && q[1] == p[i + 1] && q[2] == p[i + 2] && q[3] == p[i + 3];
  }

  lemma {:induction false} ConcatSlices(a: seq<bv8>, b: seq<bv8>, c: seq<bv8>, d: seq<bv8>)
    requires |a| == |b| == |c| == |d| == 4
    ensures var p := a + b + c + d;
            |p| == FRAME_SIZE && p[0..4] == a && p[4..8] == b && p[8..12] == c && p[12..16] == d
  {
  }

  lemma {:induction false} FrameSlices(p: seq<bv8>)
    requires |p| == FRAME_SIZE
    ensures p == p[0..4] + p[4..8] + p[8..12] + p[12..16]
  {
  }

  /** What one host packs, any other host or implementation unpacks to the same four words. */
  lemma {:induction false} FrameRoundTrip(sender: Host, receiver: Host, v: U32x4)
    ensures UnpackBe(receiver, PackBe(sender, v)) == v
    ensures DecodeCalibration(PackBe(sender, v)) == Some(v)
  {
    FramesAgree(sender, v);
    var p := EncodeCalibration(v);
    ReadersAgree(receiver, p);
    var a, b, c, d := PackWord(v.d1), PackWord(v.d2), PackWord(v.d3), PackWord(v.d4);
    ConcatSlices(a, b, c, d);
    UnpackSlice(p, 0, a);
    UnpackSlice(p, 4, b);
    UnpackSlice(p, 8, c);
    UnpackSlice(p, 12, d);
    WordRoundTrip(v.d1);
    WordRoundTrip(v.d2);
    WordRoundTrip(v.d3);
    WordRoundTrip(v.d4);
  }

  /** Where the words lie: the first in the first four bytes, and so on, each with its most significant byte first. */
  lemma {:induction false} FrameBytes(host: Host, v: U32x4)
    ensures var p := PackBe(host, v);
            && ((p[0] as bv32) << 24) | ((p[1] as bv32) << 16) | ((p[2] as bv32) << 8) | (p[3] as bv32) == v.d1
            && ((p[4] as bv32) << 24) | ((p[5] as bv32) << 16) | ((p[6] as bv32) << 8) | (p[7] as bv32) == v.d2
            && ((p[8] as bv32) << 24) | ((p[9] as bv32) << 16) | ((p[10] as bv32) << 8) | (p[11] as bv32) == v.d3
            && ((p[12] as bv32) << 24) | ((p[13] as bv32) << 16) | ((p[14] as bv32) << 8) | (p[15] as bv32) == v.d4
  {
    var p := PackBe(host, v);
    FrameRoundTrip(host, host, v);
    assert v == U32x4(UnpackWord(p, 0), UnpackWord(p, 4), UnpackWord(p, 8), UnpackWord(p, 12));
  }

  /** Frames of any length: one that is too short is read as zeros, what follows the sixteenth byte is ignored. */
  lemma {:induction false} AnyFrameIsRead(host: Host, p: seq<bv8>)
    ensures |p| < 16 ==> UnpackBe(host, p) == U32x4(0, 0, 0, 0)
    ensures |p| >= 16 ==> DecodeCalibration(p[..16]) == Some(UnpackBe(host, p))
  {
    if |p| >= 16 {
      ReadersAgree(host, p[..16]);
    }
  }

  /** No frame is lost in reading either: packing what was unpacked gives the frame back. */
  lemma {:induction false} EncodeDecoded(p: seq<bv8>)
    requires |p| == FRAME_SIZE
    ensures EncodeCalibration(DecodeCalibration(p).value) == p
  {
    BytesRoundTrip(p, 0);
    BytesRoundTrip(p, 4);
    BytesRoundTrip(p, 8);
    BytesRoundTrip(p, 12);
    FrameSlices(p);
  }

  /** The Zenoh decoder accepts exactly the frames that the encoder makes. */
  lemma {:induction false} DecodesExactly(raw: seq<bv8>, m: U32x4)
    ensures DecodeCalibration(raw) == Some(m) <==> raw == EncodeCalibration(m)
  {
    if |raw| == FRAME_SIZE {
      EncodeDecoded(raw);
      FramesAgree(BigEndian, m);
      FrameRoundTrip(BigEndian, BigEndian, m);
    }
  }

  lemma {:induction false} FrameIsDetermined(host: Host, p: seq<bv8>)
    requires |p| == FRAME_SIZE
    ensures PackBe(host, UnpackBe(host, p)) == p
  {
    ReadersAgree(host, p);
    FramesAgree(host, UnpackBe(host, p));
    EncodeDecoded(p);
  }
}
