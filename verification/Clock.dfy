/**
 Timestamps are milliseconds of a monotonic clock, cut to 32 bits on the wire. Three pieces of code subtract them:
 OpenDDS casts both operands to `int` first, vsomeip subtracts as `uint32_t` and casts the difference, and the stream
 monitors subtract a 32-bit source timestamp from a 64-bit receive time. Each lemma says for which true times the
 result is the true latency.
 */
module Clock {
  import opened Common

  const NS_PER_MS: int := 1_000_000

  /** Milliseconds of a nanosecond clock, as `duration_cast<milliseconds>` truncates them. */
  function Ms(ns: nat): nat {
    ns / NS_PER_MS
  }

  /** A reading in whole milliseconds is at most a millisecond old. */
  lemma {:induction false} MsTruncates(ns: nat)
    ensures Ms(ns) * 1_000_000 <= ns < (Ms(ns) + 1) * 1_000_000
  {
  }

  /** The low 32 bits of a millisecond count. */
  function Wire(ms: nat): u32 {
    ms % TWO_32
  }

  /** The cast of a `uint32_t` to a 32-bit `int`. */
  function Signed32(x: u32): int {
    if x < TWO_31 then x else x - TWO_32
  }

  /** `(int)a - (int)b`: undefined when the difference does not fit an `int`. */
  function IntDifference(a: u32, b: u32): Option<int> {
    var d := Signed32(a) - Signed32(b);
    if -TWO_31 <= d < TWO_31 then Some(d) else None
  }

  /** `(int32_t)(a - b)` with the subtraction done modulo 2^32. */
  function WrappedDifference(a: u32, b: u32): int {
    Signed32((a - b) % TWO_32)
  }

  /** `ts_rx - (uint64_t)ts_src` in 64-bit unsigned arithmetic. */
  function E2e64(rx: u64, tsSrc: u32): u64 {
    (rx - tsSrc) % TWO_64
  }

  /** Between two successive multiples of 2^32 shifted by 2^31 the cast to `int` is monotone. */
  function SignWindow(t: nat): nat {
    (t + TWO_31) / TWO_32
  }

  lemma {:induction false} SignedOfWire(t: nat)
    ensures Signed32(Wire(t)) == t - TWO_32 * SignWindow(t)
  {
    var q, r := t / TWO_32, t % TWO_32;
    assert t == TWO_32 * q + r;
    if r < TWO_31 {
      assert (t + TWO_31) / TWO_32 == q;
    } else {
      assert (t + TWO_31) / TWO_32 == q + 1;
    }
  }

  /** OpenDDS: the computed latency is the true one exactly when no 2^31 boundary was crossed and it fits an `int`. */
  lemma {:induction false} IntDifferenceExact(later: nat, earlier: nat)
    ensures IntDifference(Wire(later), Wire(earlier)) == Some(later - earlier)
       <==> SignWindow(later) == SignWindow(earlier) && -TWO_31 <= later - earlier < TWO_31
  {
    SignedOfWire(later);
    SignedOfWire(earlier);
  }

  /** vsomeip: the computed latency is the true one exactly when it fits 32 signed bits, also across a wrap. */
  lemma {:induction false} WrappedDifferenceExact(later: nat, earlier: nat)
    ensures WrappedDifference(Wire(later), Wire(earlier)) == later - earlier <==> -TWO_31 <= later - earlier < TWO_31
  {
    var q := later / TWO_32 - earlier / TWO_32;
    var d := Wire(later) - Wire(earlier);
    assert later - earlier == TWO_32 * q + d;
    ModShift(d, q);
  }

  lemma {:induction false} ModShift(d: int, q: int)
    ensures (TWO_32 * q + d) % TWO_32 == d % TWO_32
  {
    var m := TWO_32 * q + d;
    assert m == TWO_32 * (q + d / TWO_32) + d % TWO_32;
  }

  /** The three vsomeip latency columns add up to the whole round trip modulo 2^32, whatever the timestamps are. */
  lemma {:induction false} LatenciesTelescope(send: u32, ack: u32, resp: u32, ecu: u32)
    ensures (WrappedDifference(ack, send) + WrappedDifference(resp, ack) + WrappedDifference(ecu, resp)
             - WrappedDifference(ecu, send)) % TWO_32 == 0
  {
    var l1, q1 := Residue(ack, send);
    var l2, q2 := Residue(resp, ack);
    var l3, q3 := Residue(ecu, resp);
    var l, q := Residue(ecu, send);
    calc {
      (l1 + l2 + l3 - l) % TWO_32;
      (TWO_32 * (q1 + q2 + q3 - q) + 0) % TWO_32;
      { ModShift(0, q1 + q2 + q3 - q); }
      0;
    }
  }

  lemma {:induction false} Residue(later: u32, earlier: u32) returns (l: int, q: int)
    ensures l == WrappedDifference(later, earlier) && l == later - earlier + TWO_32 * q
  {
    l := WrappedDifference(later, earlier);
    q := SignedResidue(later - earlier);
  }

  lemma {:induction false} SignedResidue(d: int) returns (q: int)
    ensures Signed32(d % TWO_32) == d + TWO_32 * q
  {
    q := -(d / TWO_32) - if d % TWO_32 < TWO_31 then 0 else 1;
  }

  /**
   The stream monitors' end-to-end delay of a message stamped at true time `tx` overshoots by 2^32 for every wrap of
   the sender's timestamp, so it is exact for `tx` below 2^32 and above every threshold from then on.
   */
  lemma {:induction false} E2eOfTrueTimes(rx: u64, tx: nat)
    requires tx <= rx
    ensures E2e64(rx, Wire(tx)) == rx - tx + TWO_32 * (tx / TWO_32)
    ensures E2e64(rx, Wire(tx)) == rx - tx <==> tx < TWO_32
    ensures tx >= TWO_32 ==> E2e64(rx, Wire(tx)) >= TWO_32
  {
    assert tx == TWO_32 * (tx / TWO_32) + tx % TWO_32;
    assert 0 <= rx - Wire(tx) < TWO_64;
  }
}
