/**
 The vsomeip stream monitors. Each of the three streams has one handler, which runs a small machine per radar: the first
 decodable message primes it, every later one is judged by its end-to-end delay and by how far its spacing from the
 previous one is off the period. Object and detection messages that fail to decode or are judged bad add to one
 streak, which becomes a fault at three and starts again.

 `Step` is what a handler does. The lemmas say what its counters mean for the whole trace of a radar's messages.
 */
module VsomeipMonitor {
  import opened Common
  import opened Clock
  import opened Streams
  import opened FaultRuns

  datatype Status = Ok | Violation | Primed | DecodeError

  datatype Sample = Sample(seqNo: u32, tsSrc: u32, rx: u64, e2e: u64, jitter: u64, status: Status)

  datatype Reason = DecodeX3 | ThreeViolations

  datatype Fault = Fault(seqNo: int, reason: Reason, e2e: int, jitter: int)

  datatype State = State(primed: bool, lastRx: u64, streak: nat)

  datatype Agg = Agg(total: nat, ok: nat, viol: nat, decodeErr: nat, faults: nat, maxE2e: u64, maxJitter: u64)

  const INITIAL_STATE := State(false, 0, 0)
  const INITIAL_AGG := Agg(0, 0, 0, 0, 0, 0, 0)

  /** Everything the handlers keep about one radar on one stream. */
  datatype Record = Record(state: State, agg: Agg, samples: seq<Sample>, faults: seq<Fault>)

  const INITIAL := Record(INITIAL_STATE, INITIAL_AGG, [], [])

  /** The cast of a `uint64_t` to `int64_t`. */
  function Signed64(x: u64): int {
    if x < TWO_63 then x else x - TWO_64
  }

  function Max(a: u64, b: u64): u64 {
    if a < b then b else a
  }

  /** How far the spacing of two messages is off the period, in the source's 64-bit unsigned arithmetic. */
  function Jitter(periodMs: u64, rx: u64, lastRx: u64): u64 {
    var delta := (rx - lastRx) % TWO_64;
    if delta > periodMs then delta - periodMs else periodMs - delta
  }

  // ---------------------------------------------------------------- one message

  function Step(stream: Stream, r: Record, m: Msg): Record {
    match m
    case Undecodable(rx) => StepUndecodable(stream, r, rx)
    case Decoded(seqNo, tsSrc, rx) =>
      var e2e := E2e64(rx, tsSrc);
      if !r.state.primed then
        r.(state := r.state.(primed := true, lastRx := rx, streak := 0),
           samples := r.samples + [Sample(seqNo, tsSrc, rx, e2e, 0, Primed)])
      else
        StepPrimed(stream, r, seqNo, tsSrc, rx, e2e, Jitter(stream.Bounds().periodMs, rx, r.state.lastRx))
  }

  function StepUndecodable(stream: Stream, r: Record, rx: u64): Record {
    var agg := r.agg.(decodeErr := r.agg.decodeErr + 1);
    var samples := r.samples + [Sample(0, 0, rx, 0, 0, DecodeError)];
    if stream.HB? then
      Record(r.state, agg, samples, r.faults)
    else if r.state.streak + 1 >= CONSEC_FAULT then
      Record(r.state.(streak := 0), agg.(faults := agg.faults + 1), samples, r.faults + [Fault(-1, DecodeX3, -1, -1)])
    else
      Record(r.state.(streak := r.state.streak + 1), agg, samples, r.faults)
  }

  function StepPrimed(stream: Stream, r: Record, seqNo: u32, tsSrc: u32, rx: u64, e2e: u64, jitter: u64): Record {
    var state := r.state.(lastRx := rx);
    var agg := r.agg.(total := r.agg.total + 1,
                      maxE2e := Max(r.agg.maxE2e, e2e), maxJitter := Max(r.agg.maxJitter, jitter));
    if e2e > stream.Bounds().e2eMaxMs || jitter > stream.Bounds().jitterMaxMs then
      var agg := agg.(viol := agg.viol + 1);
      var samples := r.samples + [Sample(seqNo, tsSrc, rx, e2e, jitter, Violation)];
      if stream.HB? then
        Record(state, agg.(faults := agg.faults + 1), samples, r.faults)
      else if state.streak + 1 >= CONSEC_FAULT then
        Record(state.(streak := 0), agg.(faults := agg.faults + 1), samples,
               r.faults + [Fault(Signed32(seqNo), ThreeViolations, Signed64(e2e), Signed64(jitter))])
      else
        Record(state.(streak := state.streak + 1), agg, samples, r.faults)
    else
      Record(if stream.HB? then state else state.(streak := 0), agg.(ok := agg.ok + 1),
             r.samples + [Sample(seqNo, tsSrc, rx, e2e, jitter, Ok)], r.faults)
  }

  /** The record after a whole trace of one radar's messages. */
  function Run(stream: Stream, tr: seq<Msg>): Record {
    if tr == [] then INITIAL else Step(stream, Run(stream, tr[..|tr| - 1]), tr[|tr| - 1])
  }

  lemma {:induction false} RunSnoc(stream: Stream, tr: seq<Msg>, m: Msg)
    ensures Run(stream, tr + [m]) == Step(stream, Run(stream, tr), m)
  {
    assert (tr + [m])[..|tr|] == tr;
  }

  /** A message moves the record of its own radar by one step and leaves the others. */
  lemma {:induction false} RunOfRadarSnoc(stream: Stream, tr: seq<(RadarId, Msg)>, rid: RadarId, m: Msg, other: RadarId)
    ensures Run(stream, OfRadar(tr + [(rid, m)], other))
         == if other == rid then Step(stream, Run(stream, OfRadar(tr, rid)), m) else Run(stream, OfRadar(tr, other))
  {
    OfRadarSnoc(tr, rid, m, other);
    RunSnoc(stream, OfRadar(tr, other), m);
  }

  // ---------------------------------------------------------------- what the verdicts are

  /** The sample row of message `j`, from the trace alone. */
  function SampleAt(stream: Stream, tr: seq<Msg>, j: nat): Sample
    requires j < |tr|
  {
    match tr[j]
    case Undecodable(rx) => Sample(0, 0, rx, 0, 0, DecodeError)
    case Decoded(seqNo, tsSrc, rx) =>
      var e2e := E2e64(rx, tsSrc);
      match LastRx(tr[..j])
      case None => Sample(seqNo, tsSrc, rx, e2e, 0, Primed)
      case Some(last) =>
        var jitter := Jitter(20, rx, last);
        var bad := TooLate(stream, e2e) || TooIrregular(stream, jitter);
        Sample(seqNo, tsSrc, rx, e2e, jitter, if bad then Violation else Ok)
  }

  lemma {:induction false} StateFollowsTrace(stream: Stream, tr: seq<Msg>)
    ensures Run(stream, tr).state.primed <==> LastRx(tr).Some?
    ensures LastRx(tr).Some? ==> Run(stream, tr).state.lastRx == LastRx(tr).value
  {
    if tr == [] {
    } else {
      StateFollowsTrace(stream, tr[..|tr| - 1]);
    }
  }

  lemma {:induction false} SampleAtPrefix(stream: Stream, tr: seq<Msg>, n: nat, j: nat)
    requires j < n <= |tr|
    ensures SampleAt(stream, tr[..n], j) == SampleAt(stream, tr, j)
  {
    assert tr[..n][..j] == tr[..j];
  }

  lemma {:induction false} SampleOfStep(stream: Stream, tr: seq<Msg>)
    requires tr != []
    ensures Run(stream, tr).samples
         == Run(stream, tr[..|tr| - 1]).samples + [SampleAt(stream, tr, |tr| - 1)]
  {
    StateFollowsTrace(stream, tr[..|tr| - 1]);
  }

  /** Every message leaves one sample row, in order, and the row is the one its own trace position determines. */
  lemma {:induction false} SamplesAreVerdicts(stream: Stream, tr: seq<Msg>)
    ensures |Run(stream, tr).samples| == |tr|
    ensures forall j :: 0 <= j < |tr| ==> Run(stream, tr).samples[j] == SampleAt(stream, tr, j)
  {
    if tr == [] {
    } else {
      var n := |tr| - 1;
      var before := tr[..n];
      SamplesAreVerdicts(stream, before);
      SampleOfStep(stream, tr);
      forall j | 0 <= j < n ensures SampleAt(stream, before, j) == SampleAt(stream, tr, j) {
        SampleAtPrefix(stream, tr, n, j);
      }
    }
  }

  // ---------------------------------------------------------------- what the counters count

  predicate IsBad(s: Sample) {
    s.status == Violation || s.status == DecodeError
  }

  predicate IsJudged(s: Sample) {
    s.status == Violation || s.status == Ok
  }

  function Count(samples: seq<Sample>, status: Status): nat {
    if samples == [] then 0
    else Count(samples[..|samples| - 1], status) + if samples[|samples| - 1].status == status then 1 else 0
  }

  datatype Column = E2eColumn | JitterColumn {
    function Of(s: Sample): u64 {
      if E2eColumn? then s.e2e else s.jitter
    }
  }

  /** `v` is the maximum of a column over the judged samples, and zero if there are none. */
  ghost predicate IsLargest(samples: seq<Sample>, column: Column, v: u64) {
    && (forall i :: 0 <= i < |samples| && IsJudged(samples[i]) ==> column.Of(samples[i]) <= v)
    && (v == 0 || exists i :: 0 <= i < |samples| && IsJudged(samples[i]) && column.Of(samples[i]) == v)
  }

  /** What the fault row of a faulty sample says. */
  function FaultRow(s: Sample): Fault {
    if s.status == DecodeError then Fault(-1, DecodeX3, -1, -1)
    else Fault(Signed32(s.seqNo), ThreeViolations, Signed64(s.e2e), Signed64(s.jitter))
  }

  /** The row counters. */
  ghost predicate Accounted(r: Record) {
    && r.agg.ok == Count(r.samples, Ok)
    && r.agg.viol == Count(r.samples, Violation)
    && r.agg.decodeErr == Count(r.samples, DecodeError)
    && r.agg.total == r.agg.ok + r.agg.viol
    && Count(r.samples, Primed) == (if r.state.primed then 1 else 0)
    && (!r.state.primed ==> r.agg.total == 0)
    && |r.samples| == r.agg.total + r.agg.decodeErr + if r.state.primed then 1 else 0
  }

  ghost predicate MaximaAttained(r: Record) {
    && IsLargest(r.samples, E2eColumn, r.agg.maxE2e)
    && IsLargest(r.samples, JitterColumn, r.agg.maxJitter)
  }

  /** The fault counter, the streak and the fault rows, from the samples alone. */
  ghost predicate FaultsExplained(stream: Stream, r: Record) {
    var bad := BitsOf(r.samples, IsBad);
    if stream.HB? then
      r.agg.faults == r.agg.viol && r.faults == []
    else
      && r.agg.faults == FaultsOfRuns(bad)
      && r.state.streak == TrailingRun(bad) % 3
      && RowsDescribe(r.faults, r.samples, FaultIndices(bad))
  }

  /** The fault rows are those of the samples at the given positions, in that order. */
  ghost predicate RowsDescribe(rows: seq<Fault>, samples: seq<Sample>, at: seq<nat>) {
    && |rows| == |at|
    && forall k :: 0 <= k < |rows| ==> at[k] < |samples| && rows[k] == FaultRow(samples[at[k]])
  }

  lemma {:induction false} CountSnoc(samples: seq<Sample>, s: Sample, status: Status)
    ensures Count(samples + [s], status) == Count(samples, status) + if s.status == status then 1 else 0
  {
    assert (samples + [s])[..|samples|] == samples;
  }

  /** How one more sample moves the counters. */
  ghost predicate Extends(stream: Stream, r: Record, s: Sample, r': Record) {
    && r'.samples == r.samples + [s]
    && MovesCounters(r, s, r')
    && MovesFaults(stream, r, s, r')
  }

  predicate MovesCounters(r: Record, s: Sample, r': Record) {
    && r'.agg.ok == r.agg.ok + (if s.status == Ok then 1 else 0)
    && r'.agg.viol == r.agg.viol + (if s.status == Violation then 1 else 0)
    && r'.agg.decodeErr == r.agg.decodeErr + (if s.status == DecodeError then 1 else 0)
    && r'.agg.total == r.agg.total + (if IsJudged(s) then 1 else 0)
    && r'.agg.maxE2e == (if IsJudged(s) then Max(r.agg.maxE2e, s.e2e) else r.agg.maxE2e)
    && r'.agg.maxJitter == (if IsJudged(s) then Max(r.agg.maxJitter, s.jitter) else r.agg.maxJitter)
    && (s.status == Primed <==> !r.state.primed && r'.state.primed)
    && (r.state.primed ==> r'.state.primed)
    && (IsJudged(s) ==> r.state.primed)
  }

  predicate MovesFaults(stream: Stream, r: Record, s: Sample, r': Record) {
    if stream.HB? then
      r'.agg.faults == r.agg.faults + (if s.status == Violation then 1 else 0) && r'.faults == r.faults
    else if !IsBad(s) then
      r'.state.streak == 0 && r'.agg.faults == r.agg.faults && r'.faults == r.faults
    else if r.state.streak + 1 >= CONSEC_FAULT then
      r'.state.streak == 0 && r'.agg.faults == r.agg.faults + 1 && r'.faults == r.faults + [FaultRow(s)]
    else
      r'.state.streak == r.state.streak + 1 && r'.agg.faults == r.agg.faults && r'.faults == r.faults
  }

  lemma {:induction false} StepExtends(stream: Stream, r: Record, m: Msg) returns (s: Sample)
    ensures Extends(stream, r, s, Step(stream, r, m))
  {
    s := Step(stream, r, m).samples[|r.samples|];
    if m.Undecodable? {
      assert Step(stream, r, m) == StepUndecodable(stream, r, m.rx);
    } else if r.state.primed {
      var e2e := E2e64(m.rx, m.tsSrc);
      var jitter := Jitter(stream.Bounds().periodMs, m.rx, r.state.lastRx);
      assert Step(stream, r, m) == StepPrimed(stream, r, m.seqNo, m.tsSrc, m.rx, e2e, jitter);
    }
  }

  lemma {:induction false} AccountedSnoc(stream: Stream, r: Record, s: Sample, r': Record)
    requires Accounted(r) && Extends(stream, r, s, r')
    ensures Accounted(r')
  {
    CountSnoc(r.samples, s, Ok);
    CountSnoc(r.samples, s, Violation);
    CountSnoc(r.samples, s, DecodeError);
    CountSnoc(r.samples, s, Primed);
  }

  lemma {:induction false} IsLargestSnoc(samples: seq<Sample>, s: Sample, column: Column, v: u64)
    requires IsLargest(samples, column, v)
    ensures IsLargest(samples + [s], column, if IsJudged(s) then Max(v, column.Of(s)) else v)
  {
    var all := samples + [s];
    assert all[|samples|] == s;
    if v != 0 {
      var i :| 0 <= i < |samples| && IsJudged(samples[i]) && column.Of(samples[i]) == v;
      assert all[i] == samples[i];
    }
  }

  lemma {:induction false} MaximaSnoc(stream: Stream, r: Record, s: Sample, r': Record)
    requires MaximaAttained(r) && Extends(stream, r, s, r')
    ensures MaximaAttained(r')
  {
    IsLargestSnoc(r.samples, s, E2eColumn, r.agg.maxE2e);
    IsLargestSnoc(r.samples, s, JitterColumn, r.agg.maxJitter);
  }

  lemma {:induction false} RowsDescribeSnoc(rows: seq<Fault>, samples: seq<Sample>, at: seq<nat>, s: Sample)
    requires RowsDescribe(rows, samples, at)
    ensures RowsDescribe(rows, samples + [s], at)
    ensures RowsDescribe(rows + [FaultRow(s)], samples + [s], at + [|samples|])
  {
  }

  lemma {:induction false} FaultsSnoc(stream: Stream, r: Record, s: Sample, r': Record)
    requires FaultsExplained(stream, r) && Extends(stream, r, s, r')
    ensures FaultsExplained(stream, r')
  {
    if !stream.HB? {
      var bad := BitsOf(r.samples, IsBad);
      BitsOfSnoc(r.samples, s, IsBad);
      StreakSnoc(bad, IsBad(s), r.state.streak);
      RowsDescribeSnoc(r.faults, r.samples, FaultIndices(bad), s);
    }
  }

  /**
   Over any trace: every message is counted once, as judged, undecodable or priming; a heartbeat fault is a violation;
   object and detection faults are the sum of length / 3 over the maximal runs of bad messages, the streak is the
   length of the last run modulo three, and the fault rows are those of the messages that complete a group of three;
   the two maxima are attained by judged messages.
   */
  lemma {:induction false} CountersAreExplained(stream: Stream, tr: seq<Msg>)
    ensures Accounted(Run(stream, tr))
    ensures FaultsExplained(stream, Run(stream, tr))
    ensures MaximaAttained(Run(stream, tr))
  {
    if tr == [] {
      assert BitsOf([], IsBad) == [];
    } else {
      var before := Run(stream, tr[..|tr| - 1]);
      var m := tr[|tr| - 1];
      CountersAreExplained(stream, tr[..|tr| - 1]);
      var s := StepExtends(stream, before, m);
      var after := Run(stream, tr);
      AccountedSnoc(stream, before, s, after);
      FaultsSnoc(stream, before, s, after);
      MaximaSnoc(stream, before, s, after);
    }
  }

  // ---------------------------------------------------------------- figures

  /** A fault row shows the true delay, also a negative one, if and only if that is below 2^63. */
  lemma {:induction false} SignedDelayExact(rx: u64, tsSrc: u32)
    ensures Signed64(E2e64(rx, tsSrc)) == rx - tsSrc <==> rx - tsSrc < 0x8000_0000_0000_0000
  {
  }

  // ---------------------------------------------------------------- drift

  function Abs(x: int): nat {
    if x < 0 then -x else x
  }

  /** The unsigned branches compute the true deviation of the spacing exactly when the clock did not run backwards. */
  lemma {:induction false} JitterExact(periodMs: u64, rx: u64, lastRx: u64)
    requires rx + periodMs < TWO_63 && lastRx + periodMs < TWO_63
    ensures Jitter(periodMs, rx, lastRx) == Abs(rx - lastRx - periodMs) <==> rx >= lastRx
    ensures Jitter(periodMs, rx, lastRx) >= Abs(rx - lastRx - periodMs)
  {
  }

  lemma {:induction false} LastRxBelow(tr: seq<Msg>, bound: int)
    requires forall j :: 0 <= j < |tr| ==> tr[j].rx < bound
    ensures LastRx(tr).Some? ==> LastRx(tr).value < bound
  {
    if tr == [] {
    } else {
      LastRxBelow(tr[..|tr| - 1], bound);
    }
  }

  lemma {:induction false} OneMoreSpacing(drift: int, spacing: int, n: nat, period: int, jitter: int, jitter': int)
    requires Abs(drift - n * period) <= n * jitter && jitter <= jitter' && Abs(spacing - period) <= jitter'
    ensures Abs(drift + spacing - (n + 1) * period) <= (n + 1) * jitter'
  {
    assert n * jitter <= n * jitter';
    assert (n + 1) * period == n * period + period && (n + 1) * jitter' == n * jitter' + jitter';
  }

  ghost predicate DriftWithin(first: u64, last: u64, n: nat, period: u64, jitter: u64) {
    Abs(last - first - n * period) <= n * jitter
  }

  lemma {:induction false} DriftSnoc(stream: Stream, r: Record, first: u64, m: Msg)
    requires m.Decoded? && r.state.primed
    requires m.rx < TWO_63 - stream.Bounds().periodMs && r.state.lastRx < TWO_63 - stream.Bounds().periodMs
    requires DriftWithin(first, r.state.lastRx, r.agg.total, stream.Bounds().periodMs, r.agg.maxJitter)
    ensures var agg' := Step(stream, r, m).agg;
            DriftWithin(first, m.rx, agg'.total, stream.Bounds().periodMs, agg'.maxJitter)
  {
    var period := stream.Bounds().periodMs;
    var agg' := Step(stream, r, m).agg;
    JitterExact(period, m.rx, r.state.lastRx);
    OneMoreSpacing(r.state.lastRx - first, m.rx - r.state.lastRx, r.agg.total, period, r.agg.maxJitter, agg'.maxJitter);
    assert agg'.total == r.agg.total + 1;
  }

  /**
   After n judged messages the last receive time is within n times the reported maximal jitter of where a perfectly
   periodic sender would have put it. A clock below 2^63 is enough; it need not be monotone.
   */
  lemma {:induction false} DriftIsBounded(stream: Stream, tr: seq<Msg>)
    requires forall j :: 0 <= j < |tr| ==> tr[j].rx < TWO_63 - 20
    requires FirstRx(tr).Some? && LastRx(tr).Some?
    ensures var agg := Run(stream, tr).agg;
            Abs(LastRx(tr).value - FirstRx(tr).value - agg.total * 20) <= agg.total * agg.maxJitter
  {
    var n := |tr| - 1;
    var before, m := tr[..n], tr[n];
    assert tr == before + [m];
    FirstRxSnoc(before, m);
    FirstAndLastRx(before);
    StateFollowsTrace(stream, before);
    var r := Run(stream, before);
    if FirstRx(before).None? {
      UnprimedJudgesNothing(stream, before);
    } else {
      DriftIsBounded(stream, before);
      LastRxBelow(before, TWO_63 - 20);
      if m.Decoded? {
        DriftSnoc(stream, r, FirstRx(before).value, m);
      }
    }
  }

  lemma {:induction false} UnprimedJudgesNothing(stream: Stream, tr: seq<Msg>)
    requires LastRx(tr).None?
    ensures Run(stream, tr).agg.total == 0
  {
    CountersAreExplained(stream, tr);
    StateFollowsTrace(stream, tr);
  }

  // ---------------------------------------------------------------- the handlers

  /**
   One stream's tables, shared by all radars. `Valid` is the demultiplexing property: whatever the interleaving, what
   is kept about a radar is the result of the machine on that radar's messages alone.
   */
  class StreamMonitor {
    const stream: Stream
    var states: map<RadarId, State>
    var aggs: map<RadarId, Agg>
    var samples: seq<(RadarId, Sample)>
    var faults: seq<(RadarId, Fault)>
    ghost var trace: seq<(RadarId, Msg)>

    ghost function RecordOf(rid: RadarId): Record
      reads `states, `aggs, `samples, `faults
    {
      Record(GetOr(states, rid, INITIAL_STATE), GetOr(aggs, rid, INITIAL_AGG),
             OfRadar(samples, rid), OfRadar(faults, rid))
    }

    ghost predicate Valid()
      reads this
    {
      && |samples| == |trace|
      && (forall i :: 0 <= i < |trace| ==> samples[i].0 == trace[i].0)
      && forall rid :: RecordOf(rid) == Run(stream, OfRadar(trace, rid))
    }

    constructor (stream: Stream)
      ensures Valid() && trace == [] && this.stream == stream
    {
      this.stream := stream;
      states, aggs, samples, faults, trace := map[], map[], [], [], [];
    }

    method PushSample(rid: RadarId, s: Sample)
      modifies `samples
      ensures samples == old(samples) + [(rid, s)]
      ensures OfRadar(samples, rid) == old(OfRadar(samples, rid)) + [s]
      ensures forall other :: other != rid ==> OfRadar(samples, other) == old(OfRadar(samples, other))
    {
      forall other {
        OfRadarSnoc(samples, rid, s, other);
      }
      samples := samples + [(rid, s)];
    }

    method PushFault(rid: RadarId, f: Fault)
      modifies `faults
      ensures faults == old(faults) + [(rid, f)]
      ensures OfRadar(faults, rid) == old(OfRadar(faults, rid)) + [f]
      ensures forall other :: other != rid ==> OfRadar(faults, other) == old(OfRadar(faults, other))
    {
      forall other {
        OfRadarSnoc(faults, rid, f, other);
      }
      faults := faults + [(rid, f)];
    }

    method Store(rid: RadarId, st: State, ag: Agg)
      modifies `states, `aggs
      ensures GetOr(states, rid, INITIAL_STATE) == st && GetOr(aggs, rid, INITIAL_AGG) == ag
      ensures forall other :: other != rid ==>
        && GetOr(states, other, INITIAL_STATE) == old(GetOr(states, other, INITIAL_STATE))
        && GetOr(aggs, other, INITIAL_AGG) == old(GetOr(aggs, other, INITIAL_AGG))
    {
      states, aggs := states[rid := st], aggs[rid := ag];
    }

    /** One more sample row, a new record for its radar, and nothing else. */
    twostate predicate OnlyMoves(rid: RadarId, r': Record)
      reads this
    {
      && |samples| == |old(samples)| + 1
      && samples[..|old(samples)|] == old(samples)
      && samples[|old(samples)|].0 == rid
      && RecordOf(rid) == r'
      && forall other :: other != rid ==> RecordOf(other) == old(RecordOf(other))
    }

    /** Takes note of a handled message, which moved its own radar's record by one step and no other record. */
    ghost method Handled(rid: RadarId, m: Msg)
      requires |samples| == |trace| + 1 && samples[|trace|].0 == rid
      requires forall i :: 0 <= i < |trace| ==> samples[i].0 == trace[i].0
      requires RecordOf(rid) == Step(stream, Run(stream, OfRadar(trace, rid)), m)
      requires forall other :: other != rid ==> RecordOf(other) == Run(stream, OfRadar(trace, other))
      modifies `trace
      ensures Valid() && trace == old(trace) + [(rid, m)]
    {
      forall other ensures RecordOf(other) == Run(stream, OfRadar(trace + [(rid, m)], other)) {
        RunOfRadarSnoc(stream, trace, rid, m, other);
      }
      trace := trace + [(rid, m)];
    }

    method Prime(rid: RadarId, m: Msg)
      requires m.Decoded? && !RecordOf(rid).state.primed
      modifies `states, `samples
      ensures OnlyMoves(rid, Step(stream, old(RecordOf(rid)), m))
    {
      states := states[rid := State(true, m.rx, 0)];
      PushSample(rid, Sample(m.seqNo, m.tsSrc, m.rx, E2e64(m.rx, m.tsSrc), 0, Primed));
    }

    method HandleHb(rid: RadarId, m: Msg)
      requires Valid() && stream.HB?
      modifies this
      ensures Valid() && trace == old(trace) + [(rid, m)]
    {
      var st, ag := GetOr(states, rid, INITIAL_STATE), GetOr(aggs, rid, INITIAL_AGG);
      if m.Undecodable? {
        aggs := aggs[rid := ag.(decodeErr := ag.decodeErr + 1)];
        PushSample(rid, Sample(0, 0, m.rx, 0, 0, DecodeError));
      } else if !st.primed {
        Prime(rid, m);
      } else {
        JudgeHb(rid, m.seqNo, m.tsSrc, m.rx, E2e64(m.rx, m.tsSrc), Jitter(stream.Bounds().periodMs, m.rx, st.lastRx));
      }
      Handled(rid, m);
    }

    method JudgeHb(rid: RadarId, seqNo: u32, tsSrc: u32, rx: u64, e2e: u64, jitter: u64)
      requires stream.HB?
      modifies `states, `aggs, `samples
      ensures OnlyMoves(rid, StepPrimed(stream, old(RecordOf(rid)), seqNo, tsSrc, rx, e2e, jitter))
    {
      var st, ag := GetOr(states, rid, INITIAL_STATE), GetOr(aggs, rid, INITIAL_AGG);
      ag := ag.(total := ag.total + 1, maxE2e := Max(ag.maxE2e, e2e), maxJitter := Max(ag.maxJitter, jitter));
      if e2e > stream.Bounds().e2eMaxMs || jitter > stream.Bounds().jitterMaxMs {
        ag := ag.(viol := ag.viol + 1, faults := ag.faults + 1);
        PushSample(rid, Sample(seqNo, tsSrc, rx, e2e, jitter, Violation));
      } else {
        ag := ag.(ok := ag.ok + 1);
        PushSample(rid, Sample(seqNo, tsSrc, rx, e2e, jitter, Ok));
      }
      Store(rid, st.(lastRx := rx), ag);
    }

    /** The object and the detection handler. */
    method HandleList(rid: RadarId, m: Msg)
      requires Valid() && !stream.HB?
      modifies this
      ensures Valid() && trace == old(trace) + [(rid, m)]
    {
      var st := GetOr(states, rid, INITIAL_STATE);
      if m.Undecodable? {
        DecodeErrorInList(rid, m.rx);
      } else if !st.primed {
        Prime(rid, m);
      } else {
        JudgeList(rid, m.seqNo, m.tsSrc, m.rx, E2e64(m.rx, m.tsSrc), Jitter(stream.Bounds().periodMs, m.rx, st.lastRx));
      }
      Handled(rid, m);
    }

    method DecodeErrorInList(rid: RadarId, rx: u64)
      requires !stream.HB?
      modifies `states, `aggs, `samples, `faults
      ensures OnlyMoves(rid, StepUndecodable(stream, old(RecordOf(rid)), rx))
    {
      var st, ag := GetOr(states, rid, INITIAL_STATE), GetOr(aggs, rid, INITIAL_AGG);
      st, ag := st.(streak := st.streak + 1), ag.(decodeErr := ag.decodeErr + 1);
      PushSample(rid, Sample(0, 0, rx, 0, 0, DecodeError));
      if st.streak >= CONSEC_FAULT {
        st, ag := st.(streak := 0), ag.(faults := ag.faults + 1);
        PushFault(rid, Fault(-1, DecodeX3, -1, -1));
      }
      Store(rid, st, ag);
    }

    method JudgeList(rid: RadarId, seqNo: u32, tsSrc: u32, rx: u64, e2e: u64, jitter: u64)
      requires !stream.HB?
      modifies `states, `aggs, `samples, `faults
      ensures OnlyMoves(rid, StepPrimed(stream, old(RecordOf(rid)), seqNo, tsSrc, rx, e2e, jitter))
    {
      if e2e > stream.Bounds().e2eMaxMs || jitter > stream.Bounds().jitterMaxMs {
        ViolationInList(rid, seqNo, tsSrc, rx, e2e, jitter);
      } else {
        var st, ag := GetOr(states, rid, INITIAL_STATE), GetOr(aggs, rid, INITIAL_AGG);
        ag := ag.(total := ag.total + 1, maxE2e := Max(ag.maxE2e, e2e), maxJitter := Max(ag.maxJitter, jitter));
        PushSample(rid, Sample(seqNo, tsSrc, rx, e2e, jitter, Ok));
        Store(rid, st.(lastRx := rx, streak := 0), ag.(ok := ag.ok + 1));
      }
    }

    method ViolationInList(rid: RadarId, seqNo: u32, tsSrc: u32, rx: u64, e2e: u64, jitter: u64)
      requires !stream.HB?
      requires e2e > stream.Bounds().e2eMaxMs || jitter > stream.Bounds().jitterMaxMs
      modifies `states, `aggs, `samples, `faults
      ensures OnlyMoves(rid, StepPrimed(stream, old(RecordOf(rid)), seqNo, tsSrc, rx, e2e, jitter))
    {
      var st, ag := GetOr(states, rid, INITIAL_STATE), GetOr(aggs, rid, INITIAL_AGG);
      ag := ag.(total := ag.total + 1, maxE2e := Max(ag.maxE2e, e2e), maxJitter := Max(ag.maxJitter, jitter));
      st, ag := st.(lastRx := rx, streak := st.streak + 1), ag.(viol := ag.viol + 1);
      PushSample(rid, Sample(seqNo, tsSrc, rx, e2e, jitter, Violation));
      if st.streak >= CONSEC_FAULT {
        st, ag := st.(streak := 0), ag.(faults := ag.faults + 1);
        PushFault(rid, Fault(Signed32(seqNo), ThreeViolations, Signed64(e2e), Signed64(jitter)));
      }
      Store(rid, st, ag);
    }
  }
}
