/** The three periodic streams and what a message of one amounts to for its monitor. */
module Streams {
  import opened Common

  type RadarId = string

  datatype Stream = HB | OBJ | DET {
    /** The same limits in all three implementations; three bad messages in a row are one object or detection fault. */
    function Bounds(): Limits {
      if HB? then Limits(20, 5, 1) else Limits(20, 25, 5)
    }
  }

  /** A message takes too long: more than 5 ms for a heartbeat, more than 25 ms for a list. */
  predicate TooLate(stream: Stream, e2e: int) {
    e2e > if stream.HB? then 5 else 25
  }

  /** Its distance from the last one is off the 20 ms period by more than 1 ms for a heartbeat, 5 ms for a list. */
  predicate TooIrregular(stream: Stream, jitter: int) {
    jitter > if stream.HB? then 1 else 5
  }

  datatype Limits = Limits(periodMs: u64, e2eMaxMs: u64, jitterMaxMs: u64)

  /** A received payload: of the wrong size, or with the sequence number and source timestamp of its first record. */
  datatype Msg = Undecodable(rx: u64) | Decoded(seqNo: u32, tsSrc: u32, rx: u64)

  /** When the last decodable message of the trace was received. */
  function LastRx(tr: seq<Msg>): Option<u64> {
    if tr == [] then None
    else if tr[|tr| - 1].Decoded? then Some(tr[|tr| - 1].rx)
    else LastRx(tr[..|tr| - 1])
  }

  /** When the first one was. */
  function FirstRx(tr: seq<Msg>): Option<u64> {
    if tr == [] then None
    else if tr[0].Decoded? then Some(tr[0].rx)
    else FirstRx(tr[1..])
  }

  lemma {:induction false} FirstRxSnoc(tr: seq<Msg>, m: Msg)
    ensures FirstRx(tr + [m]) == if FirstRx(tr).Some? then FirstRx(tr) else FirstRx([m])
  {
    if tr == [] {
      assert [] + [m] == [m];
    } else {
      assert (tr + [m])[1..] == tr[1..] + [m];
      FirstRxSnoc(tr[1..], m);
    }
  }

  lemma {:induction false} FirstAndLastRx(tr: seq<Msg>)
    ensures FirstRx(tr).Some? <==> LastRx(tr).Some?
  {
    if tr == [] {
    } else {
      var p := tr[..|tr| - 1];
      FirstAndLastRx(p);
      FirstRxSnoc(p, tr[|tr| - 1]);
      assert p + [tr[|tr| - 1]] == tr;
    }
  }

  /** What concerns one radar in an interleaved trace or table. */
  function OfRadar<T>(tr: seq<(RadarId, T)>, rid: RadarId): seq<T> {
    if tr == [] then []
    else
      var rest := OfRadar(tr[..|tr| - 1], rid);
      if tr[|tr| - 1].0 == rid then rest + [tr[|tr| - 1].1] else rest
  }

  lemma {:induction false} OfRadarSnoc<T>(tr: seq<(RadarId, T)>, rid: RadarId, m: T, other: RadarId)
    ensures OfRadar(tr + [(rid, m)], other) == if rid == other then OfRadar(tr, other) + [m] else OfRadar(tr, other)
  {
    assert (tr + [(rid, m)])[..|tr|] == tr;
  }

  /** The sum of `f` over a set of radars. */
  ghost function SumOver(ids: set<RadarId>, f: RadarId -> nat): nat {
    if ids == {} then 0
    else
      var rid :| rid in ids;
      f(rid) + SumOver(ids - {rid}, f)
  }

  lemma {:induction false} SumPick(ids: set<RadarId>, f: RadarId -> nat, rid: RadarId)
    requires rid in ids
    ensures SumOver(ids, f) == f(rid) + SumOver(ids - {rid}, f)
    decreases |ids|
  {
    var first :| first in ids && SumOver(ids, f) == f(first) + SumOver(ids - {first}, f);
    if first != rid {
      SumPick(ids - {first}, f, rid);
      SumPick(ids - {rid}, f, first);
      assert ids - {first} - {rid} == ids - {rid} - {first};
    }
  }

  lemma {:induction false} SumSame(ids: set<RadarId>, f: RadarId -> nat, g: RadarId -> nat)
    requires forall rid :: rid in ids ==> f(rid) == g(rid)
    ensures SumOver(ids, f) == SumOver(ids, g)
    decreases |ids|
  {
    if ids == {} {
    } else {
      var rid :| rid in ids;
      SumPick(ids, f, rid);
      SumPick(ids, g, rid);
      SumSame(ids - {rid}, f, g);
    }
  }

  function Lengths<T>(tr: seq<(RadarId, T)>): RadarId -> nat {
    (rid: RadarId) => |OfRadar(tr, rid)|
  }

  /** Demultiplexing loses nothing: the radars' shares add up to the whole trace. */
  lemma {:induction false} SharesAddUp<T>(tr: seq<(RadarId, T)>, ids: set<RadarId>)
    requires forall i :: 0 <= i < |tr| ==> tr[i].0 in ids
    ensures SumOver(ids, Lengths(tr)) == |tr|
  {
    if tr == [] {
      SumZero(ids, Lengths(tr));
    } else {
      var rest, rid := tr[..|tr| - 1], tr[|tr| - 1].0;
      SharesAddUp(rest, ids);
      SumPick(ids, Lengths(tr), rid);
      SumPick(ids, Lengths(rest), rid);
      SumSame(ids - {rid}, Lengths(tr), Lengths(rest));
    }
  }

  lemma {:induction false} SumZero(ids: set<RadarId>, f: RadarId -> nat)
    requires forall rid :: rid in ids ==> f(rid) == 0
    ensures SumOver(ids, f) == 0
    decreases |ids|
  {
    if ids == {} {
    } else {
      var rid :| rid in ids;
      SumPick(ids, f, rid);
      SumZero(ids - {rid}, f);
    }
  }
}
