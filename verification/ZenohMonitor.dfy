/**
 The Zenoh stream monitors. They differ from the vsomeip ones in that every message counts towards `total`, the priming
 message is judged by its delay alone and is a fault at once if it is late, a heartbeat that fails to decode is a fault
 too, and the arithmetic is over unbounded integers. Radars that are not expected are ignored.
 */
module ZenohMonitor {
  import opened Common
  import opened Streams
  import opened FaultRuns

  datatype Status = Ok | Violation | OkPrime | ViolationPrime | DecodeError

  datatype Sample = Sample(seqNo: Option<u32>, tsSrc: Option<u32>, rx: int,
                           e2e: Option<int>, jitter: Option<int>, status: Status)

  datatype Reason = PrimeViolation | HeartbeatViolation | DecodeX3 | ThreeViolations

  datatype FaultEvent = FaultEvent(seqNo: Option<u32>, reason: Reason, e2e: Option<int>, jitter: Option<int>)

  datatype State = State(primed: bool, lastRx: int, streak: nat)

  datatype Agg = Agg(total: nat, ok: nat, viol: nat, decodeErr: nat, faults: nat, maxE2e: int, maxJitter: int)

  const INITIAL_STATE := State(false, 0, 0)
  const INITIAL_AGG := Agg(0, 0, 0, 0, 0, 0, 0)

  datatype Record = Record(state: State, agg: Agg, samples: seq<Sample>, events: seq<FaultEvent>)

  const INITIAL := Record(INITIAL_STATE, INITIAL_AGG, [], [])

  function Max(a: int, b: int): int {
    if a < b then b else a
  }

  function Abs(x: int): nat {
    if x < 0 then -x else x
  }

  // ---------------------------------------------------------------- one message

  function Step(stream: Stream, r: Record, m: Msg): Record {
    match m
    case Undecodable(rx) => StepUndecodable(stream, r, rx)
    case Decoded(seqNo, tsSrc, rx) =>
      if !r.state.primed then CountPrimed(stream, r, seqNo, tsSrc, rx)
      else StepPrimed(stream, r, seqNo, tsSrc, rx, Abs(rx - r.state.lastRx - stream.Bounds().periodMs))
  }

  function StepUndecodable(stream: Stream, r: Record, rx: int): Record {
    var agg := r.agg.(total := r.agg.total + 1, decodeErr := r.agg.decodeErr + 1);
    var samples := r.samples + [Sample(None, None, rx, None, None, DecodeError)];
    if stream.HB? then
      Record(r.state, agg.(faults := agg.faults + 1), samples, r.events)
    else if r.state.streak + 1 >= CONSEC_FAULT then
      Record(r.state.(streak := 0), agg.(faults := agg.faults + 1), samples,
             r.events + [FaultEvent(None, DecodeX3, None, None)])
    else
      Record(r.state.(streak := r.state.streak + 1), agg, samples, r.events)
  }

  function CountPrimed(stream: Stream, r: Record, seqNo: u32, tsSrc: u32, rx: int): Record {
    var e2e := rx - tsSrc;
    var agg := r.agg.(total := r.agg.total + 1, maxE2e := Max(r.agg.maxE2e, e2e));
    if e2e > stream.Bounds().e2eMaxMs then
      Record(State(true, rx, 0), agg.(viol := agg.viol + 1, faults := agg.faults + 1),
             r.samples + [Sample(Some(seqNo), Some(tsSrc), rx, Some(e2e), None, ViolationPrime)],
             r.events + [FaultEvent(Some(seqNo), PrimeViolation, Some(e2e), None)])
    else
      Record(State(true, rx, 0), agg.(ok := agg.ok + 1),
             r.samples + [Sample(Some(seqNo), Some(tsSrc), rx, Some(e2e), None, OkPrime)], r.events)
  }

  function StepPrimed(stream: Stream, r: Record, seqNo: u32, tsSrc: u32, rx: int, jitter: int): Record {
    var e2e := rx - tsSrc;
    var state := r.state.(lastRx := rx);
    var agg := r.agg.(total := r.agg.total + 1,
                      maxE2e := Max(r.agg.maxE2e, e2e), maxJitter := Max(r.agg.maxJitter, jitter));
    if e2e > stream.Bounds().e2eMaxMs || jitter > stream.Bounds().jitterMaxMs then
      var agg := agg.(viol := agg.viol + 1);
      var samples := r.samples + [Sample(Some(seqNo), Some(tsSrc), rx, Some(e2e), Some(jitter), Violation)];
      if stream.HB? then
        Record(state, agg.(faults := agg.faults + 1), samples,
               r.events + [FaultEvent(Some(seqNo), HeartbeatViolation, Some(e2e), Some(jitter))])
      else if state.streak + 1 >= CONSEC_FAULT then
        Record(state.(streak := 0), agg.(faults := agg.faults + 1), samples,
               r.events + [FaultEvent(Some(seqNo), ThreeViolations, Some(e2e), Some(jitter))])
      else
        Record(state.(streak := state.streak + 1), agg, samples, r.events)
    else
      Record(if stream.HB? then state else state.(streak := 0), agg.(ok := agg.ok + 1),
             r.samples + [Sample(Some(seqNo), Some(tsSrc), rx, Some(e2e), Some(jitter), Ok)], r.events)
  }

  function Run(stream: Stream, tr: seq<Msg>): Record {
    if tr == [] then INITIAL else Step(stream, Run(stream, tr[..|tr| - 1]), tr[|tr| - 1])
  }

  lemma {:induction false} RunSnoc(stream: Stream, tr: seq<Msg>, m: Msg)
    ensures Run(stream, tr + [m]) == Step(stream, Run(stream, tr), m)
  {
    assert (tr + [m])[..|tr|] == tr;
  }

  /** A message moves the record of its own radar by one step and leaves the others. */
  lemma {:induction false} RunOfRadarSnoc(stream: Stream, tr: seq<(RadarId, Msg)>, rid: RadarId, m: Msg, other: RadarId)
    ensures Run(stream, OfRadar(tr + [(rid, m)], other))
         == if other == rid then Step(stream, Run(stream, OfRadar(tr, rid)), m) else Run(stream, OfRadar(tr, other))
  {
    OfRadarSnoc(tr, rid, m, other);
    RunSnoc(stream, OfRadar(tr, other), m);
  }

  // ---------------------------------------------------------------- what the verdicts are

  /** The sample of message `j`, from the trace alone. */
  function SampleAt(stream: Stream, tr: seq<Msg>, j: nat): Sample
    requires j < |tr|
  {
    match tr[j]
    case Undecodable(rx) => Sample(None, None, rx, None, None, DecodeError)
    case Decoded(seqNo, tsSrc, rx) =>
      var e2e := rx - tsSrc;
      var late := TooLate(stream, e2e);
      match LastRx(tr[..j])
      case None =>
        Sample(Some(seqNo), Some(tsSrc), rx, Some(e2e), None, if late then ViolationPrime else OkPrime)
      case Some(last) =>
        var jitter := Abs(rx - last - 20);
        var bad := late || TooIrregular(stream, jitter);
        Sample(Some(seqNo), Some(tsSrc), rx, Some(e2e), Some(jitter), if bad then Violation else Ok)
  }

  lemma {:induction false} StateFollowsTrace(stream: Stream, tr: seq<Msg>)
    ensures Run(stream, tr).state.primed <==> LastRx(tr).Some?
    ensures LastRx(tr).Some? ==> Run(stream, tr).state.lastRx == LastRx(tr).value
  {
    if tr == [] {
    } else {
      StateFollowsTrace(stream, tr[..|tr| - 1]);
    }
  }

  lemma {:induction false} SampleAtPrefix(stream: Stream, tr: seq<Msg>, n: nat, j: nat)
    requires j < n <= |tr|
    ensures SampleAt(stream, tr[..n], j) == SampleAt(stream, tr, j)
  {
    assert tr[..n][..j] == tr[..j];
  }

  lemma {:induction false} SampleOfStep(stream: Stream, tr: seq<Msg>)
    requires tr != []
    ensures Run(stream, tr).samples
         == Run(stream, tr[..|tr| - 1]).samples + [SampleAt(stream, tr, |tr| - 1)]
  {
    StateFollowsTrace(stream, tr[..|tr| - 1]);
  }

  /** Every message leaves one sample row, in order, and the row is the one its own trace position determines. */
  lemma {:induction false} SamplesAreVerdicts(stream: Stream, tr: seq<Msg>)
    ensures |Run(stream, tr).samples| == |tr|
    ensures forall j :: 0 <= j < |tr| ==> Run(stream, tr).samples[j] == SampleAt(stream, tr, j)
  {
    if tr == [] {
    } else {
      var n := |tr| - 1;
      var before := tr[..n];
      SamplesAreVerdicts(stream, before);
      SampleOfStep(stream, tr);
      forall j | 0 <= j < n ensures SampleAt(stream, before, j) == SampleAt(stream, tr, j) {
        SampleAtPrefix(stream, tr, n, j);
      }
    }
  }

  // ---------------------------------------------------------------- what the counters count

  /** The samples that make up a run of losses. A late priming message is not one of them. */
  predicate IsBad(s: Sample) {
    s.status == Violation || s.status == DecodeError
  }

  function Count(samples: seq<Sample>, status: Status): nat {
    if samples == [] then 0
    else Count(samples[..|samples| - 1], status) + if samples[|samples| - 1].status == status then 1 else 0
  }

  datatype Column = E2eColumn | JitterColumn {
    function Of(s: Sample): Option<int> {
      if E2eColumn? then s.e2e else s.jitter
    }
  }

  /** `v` is the maximum of zero and of the values a column holds. */
  ghost predicate IsLargest(samples: seq<Sample>, column: Column, v: int) {
    && (forall i :: 0 <= i < |samples| && column.Of(samples[i]).Some? ==> column.Of(samples[i]).value <= v)
    && (v == 0 || (v > 0 && exists i :: 0 <= i < |samples| && column.Of(samples[i]) == Some(v)))
  }

  function EventOf(stream: Stream, s: Sample): FaultEvent {
    FaultEvent(s.seqNo,
               match s.status {
                 case ViolationPrime => PrimeViolation
                 case DecodeError => DecodeX3
                 case _ => if stream.HB? then HeartbeatViolation else ThreeViolations
               },
               s.e2e, s.jitter)
  }

  /** Whether the last of these samples is reported as a fault event. */
  predicate EndsWithEvent(stream: Stream, samples: seq<Sample>)
    requires samples != []
  {
    var s := samples[|samples| - 1];
    s.status == ViolationPrime || if stream.HB? then s.status == Violation else CompletesGroup(BitsOf(samples, IsBad))
  }

  /** The fault events of a list of samples, in order. */
  function EventsOf(stream: Stream, samples: seq<Sample>): seq<FaultEvent> {
    if samples == [] then []
    else
      var rest := EventsOf(stream, samples[..|samples| - 1]);
      if EndsWithEvent(stream, samples) then rest + [EventOf(stream, samples[|samples| - 1])] else rest
  }

  ghost predicate Accounted(r: Record) {
    && r.agg.ok == Count(r.samples, Ok) + Count(r.samples, OkPrime)
    && r.agg.viol == Count(r.samples, Violation) + Count(r.samples, ViolationPrime)
    && r.agg.decodeErr == Count(r.samples, DecodeError)
    && r.agg.total == r.agg.ok + r.agg.viol + r.agg.decodeErr == |r.samples|
    && Count(r.samples, OkPrime) + Count(r.samples, ViolationPrime) == (if r.state.primed then 1 else 0)
  }

  ghost predicate MaximaAttained(r: Record) {
    && IsLargest(r.samples, E2eColumn, r.agg.maxE2e)
    && IsLargest(r.samples, JitterColumn, r.agg.maxJitter)
  }

  ghost predicate FaultsExplained(stream: Stream, r: Record) {
    var bad := BitsOf(r.samples, IsBad);
    && r.events == EventsOf(stream, r.samples)
    && if stream.HB? then
         && r.agg.faults == r.agg.viol + r.agg.decodeErr
         && |r.events| == r.agg.viol
       else
         && r.agg.faults == FaultsOfRuns(bad) + Count(r.samples, ViolationPrime)
         && r.state.streak == TrailingRun(bad) % 3
         && |r.events| == r.agg.faults
  }

  lemma {:induction false} CountSnoc(samples: seq<Sample>, s: Sample, status: Status)
    ensures Count(samples + [s], status) == Count(samples, status) + if s.status == status then 1 else 0
  {
    assert (samples + [s])[..|samples|] == samples;
  }

  /** How one more sample moves the counters. */
  ghost predicate Extends(stream: Stream, r: Record, s: Sample, r': Record) {
    && r'.samples == r.samples + [s]
    && MovesCounters(r, s, r')
    && MovesFaults(stream, r, s, r')
  }

  predicate IsPriming(s: Sample) {
    s.status == OkPrime || s.status == ViolationPrime
  }

  predicate MovesCounters(r: Record, s: Sample, r': Record) {
    && r'.agg.total == r.agg.total + 1
    && r'.agg.ok == r.agg.ok + (if s.status == Ok || s.status == OkPrime then 1 else 0)
    && r'.agg.viol == r.agg.viol + (if s.status == Violation || s.status == ViolationPrime then 1 else 0)
    && r'.agg.decodeErr == r.agg.decodeErr + (if s.status == DecodeError then 1 else 0)
    && r'.agg.maxE2e == (if s.e2e.Some? then Max(r.agg.maxE2e, s.e2e.value) else r.agg.maxE2e)
    && r'.agg.maxJitter == (if s.jitter.Some? then Max(r.agg.maxJitter, s.jitter.value) else r.agg.maxJitter)
    && (IsPriming(s) <==> !r.state.primed && r'.state.primed)
    && (r.state.primed ==> r'.state.primed)
  }

  predicate MovesFaults(stream: Stream, r: Record, s: Sample, r': Record) {
    if s.status == ViolationPrime then
      && r'.agg.faults == r.agg.faults + 1 && r'.events == r.events + [EventOf(stream, s)]
      && (!stream.HB? ==> r'.state.streak == 0)
    else if stream.HB? then
      && r'.agg.faults == r.agg.faults + (if IsBad(s) then 1 else 0)
      && r'.events == if s.status == Violation then r.events + [EventOf(stream, s)] else r.events
    else if !IsBad(s) then
      r'.state.streak == 0 && r'.agg.faults == r.agg.faults && r'.events == r.events
    else if r.state.streak + 1 >= CONSEC_FAULT then
      && r'.state.streak == 0 && r'.agg.faults == r.agg.faults + 1
      && r'.events == r.events + [EventOf(stream, s)]
    else
      r'.state.streak == r.state.streak + 1 && r'.agg.faults == r.agg.faults && r'.events == r.events
  }

  lemma {:induction false} StepExtends(stream: Stream, r: Record, m: Msg) returns (s: Sample)
    ensures Extends(stream, r, s, Step(stream, r, m))
  {
    s := Step(stream, r, m).samples[|r.samples|];
    if m.Undecodable? {
      assert Step(stream, r, m) == StepUndecodable(stream, r, m.rx);
    } else if r.state.primed {
      var jitter := Abs(m.rx - r.state.lastRx - stream.Bounds().periodMs);
      assert Step(stream, r, m) == StepPrimed(stream, r, m.seqNo, m.tsSrc, m.rx, jitter);
    } else {
      assert Step(stream, r, m) == CountPrimed(stream, r, m.seqNo, m.tsSrc, m.rx);
    }
  }

  lemma {:induction false} AccountedSnoc(stream: Stream, r: Record, s: Sample, r': Record)
    requires Accounted(r) && Extends(stream, r, s, r')
    ensures Accounted(r')
  {
    CountSnoc(r.samples, s, Ok);
    CountSnoc(r.samples, s, OkPrime);
    CountSnoc(r.samples, s, Violation);
    CountSnoc(r.samples, s, ViolationPrime);
    CountSnoc(r.samples, s, DecodeError);
  }

  lemma {:induction false} IsLargestSnoc(samples: seq<Sample>, s: Sample, column: Column, v: int)
    requires IsLargest(samples, column, v)
    ensures IsLargest(samples + [s], column, if column.Of(s).Some? then Max(v, column.Of(s).value) else v)
  {
    var all := samples + [s];
    assert all[|samples|] == s;
    if v > 0 {
      var i :| 0 <= i < |samples| && column.Of(samples[i]) == Some(v);
      assert all[i] == samples[i];
    }
  }

  lemma {:induction false} MaximaSnoc(stream: Stream, r: Record, s: Sample, r': Record)
    requires MaximaAttained(r) && Extends(stream, r, s, r')
    ensures MaximaAttained(r')
  {
    IsLargestSnoc(r.samples, s, E2eColumn, r.agg.maxE2e);
    IsLargestSnoc(r.samples, s, JitterColumn, r.agg.maxJitter);
  }

  lemma {:induction false} EventsSnoc(stream: Stream, samples: seq<Sample>, s: Sample)
    ensures EventsOf(stream, samples + [s])
         == if EndsWithEvent(stream, samples + [s]) then EventsOf(stream, samples) + [EventOf(stream, s)]
            else EventsOf(stream, samples)
  {
    assert (samples + [s])[..|samples|] == samples;
  }

  lemma {:induction false} HbFaultsSnoc(r: Record, s: Sample, r': Record)
    requires FaultsExplained(HB, r) && Extends(HB, r, s, r')
    ensures FaultsExplained(HB, r')
  {
    EventsSnoc(HB, r.samples, s);
  }

  lemma {:induction false} ListFaultsSnoc(stream: Stream, r: Record, s: Sample, r': Record)
    requires !stream.HB? && FaultsExplained(stream, r) && Extends(stream, r, s, r')
    ensures FaultsExplained(stream, r')
  {
    EventsSnoc(stream, r.samples, s);
    CountSnoc(r.samples, s, ViolationPrime);
    BitsOfSnoc(r.samples, s, IsBad);
    StreakSnoc(BitsOf(r.samples, IsBad), IsBad(s), r.state.streak);
  }

  lemma {:induction false} FaultsSnoc(stream: Stream, r: Record, s: Sample, r': Record)
    requires FaultsExplained(stream, r) && Extends(stream, r, s, r')
    ensures FaultsExplained(stream, r')
  {
    if stream.HB? {
      HbFaultsSnoc(r, s, r');
    } else {
      ListFaultsSnoc(stream, r, s, r');
    }
  }

  /**
   Over any trace: every message is counted once, as fine, violating or undecodable; a heartbeat fault is any message
   that is not fine, and the fault events omit the undecodable ones; object and detection faults are the sum of
   length / 3 over the maximal runs, plus one if the priming message was late, and each has its fault event.
   */
  lemma {:induction false} CountersAreExplained(stream: Stream, tr: seq<Msg>)
    ensures Accounted(Run(stream, tr))
    ensures FaultsExplained(stream, Run(stream, tr))
    ensures MaximaAttained(Run(stream, tr))
  {
    if tr == [] {
      assert BitsOf([], IsBad) == [];
    } else {
      var before := Run(stream, tr[..|tr| - 1]);
      CountersAreExplained(stream, tr[..|tr| - 1]);
      var s := StepExtends(stream, before, tr[|tr| - 1]);
      var after := Run(stream, tr);
      AccountedSnoc(stream, before, s, after);
      FaultsSnoc(stream, before, s, after);
      MaximaSnoc(stream, before, s, after);
    }
  }

  // ---------------------------------------------------------------- the callbacks

  function Totals(aggs: map<RadarId, Agg>): RadarId -> nat {
    (rid: RadarId) => GetOr(aggs, rid, INITIAL_AGG).total
  }

  /**
   One stream's tables in the ECU, shared by all expected radars. `Valid` is the demultiplexing property: what is kept
   about a radar is the result of the machine on that radar's messages alone.
   */
  class EcuMonitor {
    const stream: Stream
    const expected: set<RadarId>
    var states: map<RadarId, State>
    var aggs: map<RadarId, Agg>
    var samples: seq<(RadarId, Sample)>
    var events: seq<(RadarId, FaultEvent)>
    var rxCount: nat
    ghost var trace: seq<(RadarId, Msg)>

    ghost function RecordOf(rid: RadarId): Record
      reads `states, `aggs, `samples, `events
    {
      Record(GetOr(states, rid, INITIAL_STATE), GetOr(aggs, rid, INITIAL_AGG),
             OfRadar(samples, rid), OfRadar(events, rid))
    }

    ghost predicate Valid()
      reads this
    {
      && |samples| == |trace| == rxCount
      && (forall i :: 0 <= i < |trace| ==> samples[i].0 == trace[i].0 && trace[i].0 in expected)
      && forall rid :: RecordOf(rid) == Run(stream, OfRadar(trace, rid))
    }

    constructor (stream: Stream, expected: set<RadarId>)
      ensures Valid() && trace == [] && this.stream == stream && this.expected == expected
    {
      this.stream, this.expected := stream, expected;
      states, aggs, samples, events, rxCount, trace := map[], map[], [], [], 0, [];
    }

    /** The receive counter, the sample rows and the radars' totals all count the same messages. */
    lemma {:induction false} AccountingCloses()
      requires Valid()
      ensures rxCount == |samples| == SumOver(expected, Totals(aggs))
    {
      SharesAddUp(trace, expected);
      forall rid | rid in expected ensures Lengths(trace)(rid) == Totals(aggs)(rid) {
        assert RecordOf(rid).agg == Run(stream, OfRadar(trace, rid)).agg;
        CountersAreExplained(stream, OfRadar(trace, rid));
        SamplesAreVerdicts(stream, OfRadar(trace, rid));
      }
      SumSame(expected, Lengths(trace), Totals(aggs));
    }

    method PushSample(rid: RadarId, s: Sample)
      modifies `samples
      ensures samples == old(samples) + [(rid, s)]
      ensures OfRadar(samples, rid) == old(OfRadar(samples, rid)) + [s]
      ensures forall other :: other != rid ==> OfRadar(samples, other) == old(OfRadar(samples, other))
    {
      forall other {
        OfRadarSnoc(samples, rid, s, other);
      }
      samples := samples + [(rid, s)];
    }

    method PushEvent(rid: RadarId, e: FaultEvent)
      modifies `events
      ensures events == old(events) + [(rid, e)]
      ensures OfRadar(events, rid) == old(OfRadar(events, rid)) + [e]
      ensures forall other :: other != rid ==> OfRadar(events, other) == old(OfRadar(events, other))
    {
      forall other {
        OfRadarSnoc(events, rid, e, other);
      }
      events := events + [(rid, e)];
    }

    method Store(rid: RadarId, st: State, ag: Agg)
      modifies `states, `aggs
      ensures GetOr(states, rid, INITIAL_STATE) == st && GetOr(aggs, rid, INITIAL_AGG) == ag
      ensures forall other :: other != rid ==>
        && GetOr(states, other, INITIAL_STATE) == old(GetOr(states, other, INITIAL_STATE))
        && GetOr(aggs, other, INITIAL_AGG) == old(GetOr(aggs, other, INITIAL_AGG))
    {
      states, aggs := states[rid := st], aggs[rid := ag];
    }

    /** One more sample row, a new record for its radar, and nothing else. */
    twostate predicate OnlyMoves(rid: RadarId, r': Record)
      reads this
    {
      && |samples| == |old(samples)| + 1
      && samples[..|old(samples)|] == old(samples)
      && samples[|old(samples)|].0 == rid
      && RecordOf(rid) == r'
      && forall other :: other != rid ==> RecordOf(other) == old(RecordOf(other))
    }

    /** Takes note of a handled message, which moved its own radar's record by one step and no other record. */
    ghost method Handled(rid: RadarId, m: Msg)
      requires rid in expected && |samples| == |trace| + 1 == rxCount && samples[|trace|].0 == rid
      requires forall i :: 0 <= i < |trace| ==> samples[i].0 == trace[i].0 && trace[i].0 in expected
      requires RecordOf(rid) == Step(stream, Run(stream, OfRadar(trace, rid)), m)
      requires forall other :: other != rid ==> RecordOf(other) == Run(stream, OfRadar(trace, other))
      modifies `trace
      ensures Valid() && trace == old(trace) + [(rid, m)]
    {
      forall other ensures RecordOf(other) == Run(stream, OfRadar(trace + [(rid, m)], other)) {
        RunOfRadarSnoc(stream, trace, rid, m, other);
      }
      trace := trace + [(rid, m)];
    }

    method HbCallback(rid: RadarId, m: Msg)
      requires Valid() && stream.HB?
      modifies this
      ensures Valid() && trace == if rid in expected then old(trace) + [(rid, m)] else old(trace)
    {
      if rid !in expected {
        return;
      }
      rxCount := rxCount + 1;
      var st := GetOr(states, rid, INITIAL_STATE);
      if m.Undecodable? {
        DecodeErrorInHb(rid, m.rx);
      } else if !st.primed {
        Prime(rid, m.seqNo, m.tsSrc, m.rx);
      } else {
        JudgeHb(rid, m.seqNo, m.tsSrc, m.rx, Abs(m.rx - st.lastRx - stream.Bounds().periodMs));
      }
      Handled(rid, m);
    }

    /** The object and the detection callback. */
    method ListCallback(rid: RadarId, m: Msg)
      requires Valid() && !stream.HB?
      modifies this
      ensures Valid() && trace == if rid in expected then old(trace) + [(rid, m)] else old(trace)
    {
      if rid !in expected {
        return;
      }
      rxCount := rxCount + 1;
      var st := GetOr(states, rid, INITIAL_STATE);
      if m.Undecodable? {
        DecodeErrorInList(rid, m.rx);
      } else if !st.primed {
        Prime(rid, m.seqNo, m.tsSrc, m.rx);
      } else {
        JudgeList(rid, m.seqNo, m.tsSrc, m.rx, Abs(m.rx - st.lastRx - stream.Bounds().periodMs));
      }
      Handled(rid, m);
    }

    method Prime(rid: RadarId, seqNo: u32, tsSrc: u32, rx: int)
      modifies `states, `aggs, `samples, `events
      ensures OnlyMoves(rid, CountPrimed(stream, old(RecordOf(rid)), seqNo, tsSrc, rx))
    {
      var ag, e2e := GetOr(aggs, rid, INITIAL_AGG), rx - tsSrc;
      ag := ag.(total := ag.total + 1, maxE2e := Max(ag.maxE2e, e2e));
      if e2e > stream.Bounds().e2eMaxMs {
        ag := ag.(viol := ag.viol + 1, faults := ag.faults + 1);
        PushEvent(rid, FaultEvent(Some(seqNo), PrimeViolation, Some(e2e), None));
        PushSample(rid, Sample(Some(seqNo), Some(tsSrc), rx, Some(e2e), None, ViolationPrime));
      } else {
        ag := ag.(ok := ag.ok + 1);
        PushSample(rid, Sample(Some(seqNo), Some(tsSrc), rx, Some(e2e), None, OkPrime));
      }
      Store(rid, State(true, rx, 0), ag);
    }

    method DecodeErrorInHb(rid: RadarId, rx: int)
      requires stream.HB?
      modifies `states, `aggs, `samples
      ensures OnlyMoves(rid, StepUndecodable(stream, old(RecordOf(rid)), rx))
    {
      var st, ag := GetOr(states, rid, INITIAL_STATE), GetOr(aggs, rid, INITIAL_AGG);
      Store(rid, st, ag.(total := ag.total + 1, decodeErr := ag.decodeErr + 1, faults := ag.faults + 1));
      PushSample(rid, Sample(None, None, rx, None, None, DecodeError));
    }

    method JudgeHb(rid: RadarId, seqNo: u32, tsSrc: u32, rx: int, jitter: int)
      requires stream.HB?
      modifies `states, `aggs, `samples, `events
      ensures OnlyMoves(rid, StepPrimed(stream, old(RecordOf(rid)), seqNo, tsSrc, rx, jitter))
    {
      var st, ag, e2e := GetOr(states, rid, INITIAL_STATE), GetOr(aggs, rid, INITIAL_AGG), rx - tsSrc;
      ag := ag.(total := ag.total + 1, maxE2e := Max(ag.maxE2e, e2e), maxJitter := Max(ag.maxJitter, jitter));
      if e2e > stream.Bounds().e2eMaxMs || jitter > stream.Bounds().jitterMaxMs {
        ag := ag.(viol := ag.viol + 1, faults := ag.faults + 1);
        PushEvent(rid, FaultEvent(Some(seqNo), HeartbeatViolation, Some(e2e), Some(jitter)));
        PushSample(rid, Sample(Some(seqNo), Some(tsSrc), rx, Some(e2e), Some(jitter), Violation));
      } else {
        ag := ag.(ok := ag.ok + 1);
        PushSample(rid, Sample(Some(seqNo), Some(tsSrc), rx, Some(e2e), Some(jitter), Ok));
      }
      Store(rid, st.(lastRx := rx), ag);
    }

    method DecodeErrorInList(rid: RadarId, rx: int)
      requires !stream.HB?
      modifies `states, `aggs, `samples, `events
      ensures OnlyMoves(rid, StepUndecodable(stream, old(RecordOf(rid)), rx))
    {
      var st, ag := GetOr(states, rid, INITIAL_STATE), GetOr(aggs, rid, INITIAL_AGG);
      st, ag := st.(streak := st.streak + 1), ag.(total := ag.total + 1, decodeErr := ag.decodeErr + 1);
      if st.streak >= CONSEC_FAULT {
        st, ag := st.(streak := 0), ag.(faults := ag.faults + 1);
        PushEvent(rid, FaultEvent(None, DecodeX3, None, None));
      }
      PushSample(rid, Sample(None, None, rx, None, None, DecodeError));
      Store(rid, st, ag);
    }

    method JudgeList(rid: RadarId, seqNo: u32, tsSrc: u32, rx: int, jitter: int)
      requires !stream.HB?
      modifies `states, `aggs, `samples, `events
      ensures OnlyMoves(rid, StepPrimed(stream, old(RecordOf(rid)), seqNo, tsSrc, rx, jitter))
    {
      var e2e := rx - tsSrc;
      if e2e > stream.Bounds().e2eMaxMs || jitter > stream.Bounds().jitterMaxMs {
        ViolationInList(rid, seqNo, tsSrc, rx, jitter);
      } else {
        var st, ag := GetOr(states, rid, INITIAL_STATE), GetOr(aggs, rid, INITIAL_AGG);
        ag := ag.(total := ag.total + 1, maxE2e := Max(ag.maxE2e, e2e), maxJitter := Max(ag.maxJitter, jitter));
        PushSample(rid, Sample(Some(seqNo), Some(tsSrc), rx, Some(e2e), Some(jitter), Ok));
        Store(rid, st.(lastRx := rx, streak := 0), ag.(ok := ag.ok + 1));
      }
    }

    method ViolationInList(rid: RadarId, seqNo: u32, tsSrc: u32, rx: int, jitter: int)
      requires !stream.HB?
      requires rx - tsSrc > stream.Bounds().e2eMaxMs || jitter > stream.Bounds().jitterMaxMs
      modifies `states, `aggs, `samples, `events
      ensures OnlyMoves(rid, StepPrimed(stream, old(RecordOf(rid)), seqNo, tsSrc, rx, jitter))
    {
      var st, ag, e2e := GetOr(states, rid, INITIAL_STATE), GetOr(aggs, rid, INITIAL_AGG), rx - tsSrc;
      st := st.(lastRx := rx);
      ag := ag.(total := ag.total + 1, maxE2e := Max(ag.maxE2e, e2e), maxJitter := Max(ag.maxJitter, jitter));
      st, ag := st.(streak := st.streak + 1), ag.(viol := ag.viol + 1);
      PushSample(rid, Sample(Some(seqNo), Some(tsSrc), rx, Some(e2e), Some(jitter), Violation));
      if st.streak >= CONSEC_FAULT {
        st, ag := st.(streak := 0), ag.(faults := ag.faults + 1);
        PushEvent(rid, FaultEvent(Some(seqNo), ThreeViolations, Some(e2e), Some(jitter)));
      }
      Store(rid, st, ag);
    }
  }
}
