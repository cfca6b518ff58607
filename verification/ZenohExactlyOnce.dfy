/**
 When the Zenoh ECU's threads have come to rest, is a transaction closed? Every callback stores its half in one lock
 region and tries to close the transaction in a second one, and the sender records the request in a third, after it
 has published it; the three may interleave in any order.
 */
module ZenohExactlyOnce {
  import opened Common
  import opened Calibration
  import opened ZenohEcu
  import J = JoinOnce
  import Callbacks = CalibrationCallbacks

  lemma {:induction false} MetaIsRecorded(tr: seq<Event>, id: u32)
    ensures id in Run(tr).meta <==> Recorded(tr, id)
  {
    if tr == [] {
    } else {
      var p, e := tr[..|tr| - 1], tr[|tr| - 1];
      MetaIsRecorded(p, id);
      RecordedSnoc(p, e, id);
      assert p + [e] == tr;
    }
  }

  function RowIfComplete(k: Key, t: Entry): Option<Row> {
    if Complete(t) then Some(RowOf(k, t)) else None
  }

  const RULES: J.Rules<Entry> := J.Rules(EMPTY_ENTRY, WithAck, WithResp, RowIfComplete)

  lemma {:induction false} TableHoldsLatest(tr: seq<Event>, id: u32)
    ensures Lookup(Run(tr).meta, id) == LatestRequest(tr, id)
  {
    if tr == [] {
    } else {
      TableHoldsLatest(tr[..|tr| - 1], id);
    }
  }

  /** The ECU keeps its tables by these rules. */
  lemma {:induction false} FollowsRules(tr: seq<Event>)
    ensures J.Run(RULES, tr) == J.Tables(Run(tr).pending, Run(tr).rows)
  {
    if tr == [] {
    } else {
      var p, e := tr[..|tr| - 1], tr[|tr| - 1];
      FollowsRules(p);
      if e.Ack? || e.Resp? {
        TableHoldsLatest(p, e.key.1);
      }
    }
  }

  /** The entry of `k` holds all that `finalize_if_ready` asks for. */
  predicate Ready(s: Ecu, k: Key) {
    k in s.pending && Complete(s.pending[k])
  }

  /**
   However many messages are duplicated and however the lock regions interleave: once the callbacks for a key have run
   to their end, no entry that could be closed is left behind.
   */
  lemma {:induction false} NothingReadyIsLeft(tr: seq<Event>, k: Key)
    requires ClosesAfterStores(tr, k)
    ensures Ready(Run(tr), k) ==> Closes(tr, k) < Stores(tr, k)
    ensures AtRest(tr, k) ==> !Ready(Run(tr), k)
  {
    FollowsRules(tr);
    J.NothingReadyIsLeft(RULES, tr, k);
  }

  /** What is known of the entry of `k` and of its rows while at most one ACK and one RESP have been stored. */
  ghost predicate Joining(tr: seq<Event>, k: Key) {
    var s, acks, resps := Run(tr), AckCount(tr, OneKey(k)), RespCount(tr, OneKey(k));
    if RowCount(s.rows, OneKey(k)) == 0 then
      && (k in s.pending <==> acks + resps > 0)
      && (k in s.pending ==>
            && (RadarAckRxTs in s.pending[k] <==> acks > 0)
            && (RadarRespTs in s.pending[k] <==> resps > 0)
            && (EcuSendTs in s.pending[k] <==> RecordedInTime(tr, k)))
    else
      && RowCount(s.rows, OneKey(k)) == 1 && k !in s.pending
      && acks == 1 && resps == 1 && RecordedInTime(tr, k)
  }

  lemma {:induction false} JoiningKept(tr: seq<Event>, k: Key)
    requires AckCount(tr, OneKey(k)) <= 1 && RespCount(tr, OneKey(k)) <= 1
    ensures Joining(tr, k)
  {
    if tr == [] {
    } else {
      var p, e := tr[..|tr| - 1], tr[|tr| - 1];
      assert p + [e] == tr;
      JoiningKept(p, k);
      RecordedInTimeSnoc(p, e, k);
      MetaIsRecorded(p, k.1);
      RunValid(p);
      JoiningStep(p, e, k);
    }
  }

  lemma {:induction false} JoiningStep(p: seq<Event>, e: Event, k: Key)
    requires Joining(p, k) && Valid(Run(p))
    requires k.1 in Run(p).meta <==> Recorded(p, k.1)
    requires RecordedInTime(p + [e], k) <==> RecordedInTime(p, k) || (IsStore(e, k) && Recorded(p, k.1))
    requires AckCount(p + [e], OneKey(k)) <= 1 && RespCount(p + [e], OneKey(k)) <= 1
    ensures Joining(p + [e], k)
  {
    CountsSnoc(p, e, OneKey(k));
    RunSnoc(p, e);
    if e.Finalize? {
      JoiningFinalize(p, e.key, k);
    } else if IsStore(e, k) {
      JoiningStore(p, e, k);
    }
  }

  /** What a store makes of an entry. */
  function StoredEntry(t: Entry, request: Option<Meta>, e: Event): Entry
    requires e.Ack? || e.Resp?
  {
    if e.Ack? then WithAck(t, request, e.ts) else WithResp(t, request, e.ts, e.c, e.d, e.ecuTs)
  }

  lemma {:induction false} StoredFields(t: Entry, request: Option<Meta>, e: Event)
    requires e.Ack? || e.Resp?
    ensures RadarAckRxTs in StoredEntry(t, request, e) <==> e.Ack? || RadarAckRxTs in t
    ensures RadarRespTs in StoredEntry(t, request, e) <==> e.Resp? || RadarRespTs in t
    ensures EcuSendTs in StoredEntry(t, request, e) <==> request.Some? || EcuSendTs in t
  {
  }

  lemma {:induction false} InTimeIsRecorded(tr: seq<Event>, k: Key)
    ensures RecordedInTime(tr, k) ==> Recorded(tr, k.1)
  {
  }

  lemma {:induction false} StoreStep(s: Ecu, e: Event, k: Key)
    requires IsStore(e, k)
    ensures Step(s, e).rows == s.rows && k in Step(s, e).pending
    ensures Step(s, e).pending[k] == StoredEntry(GetOr(s.pending, k, EMPTY_ENTRY), Lookup(s.meta, k.1), e)
  {
  }

  lemma {:induction false} JoiningStore(p: seq<Event>, e: Event, k: Key)
    requires Joining(p, k) && IsStore(e, k)
    requires k.1 in Run(p).meta <==> Recorded(p, k.1)
    requires RecordedInTime(p + [e], k) <==> RecordedInTime(p, k) || Recorded(p, k.1)
    requires AckCount(p + [e], OneKey(k)) <= 1 && RespCount(p + [e], OneKey(k)) <= 1
    ensures Joining(p + [e], k)
  {
    CountsSnoc(p, e, OneKey(k));
    RunSnoc(p, e);
    StoreStep(Run(p), e, k);
    StoredFields(GetOr(Run(p).pending, k, EMPTY_ENTRY), Lookup(Run(p).meta, k.1), e);
    InTimeIsRecorded(p, k);
  }

  lemma {:induction false} JoiningFinalize(p: seq<Event>, closed: Key, k: Key)
    requires Joining(p, k) && Valid(Run(p))
    requires RecordedInTime(p + [Finalize(closed)], k) <==> RecordedInTime(p, k)
    requires AckCount(p, OneKey(k)) <= 1 && RespCount(p, OneKey(k)) <= 1
    ensures Joining(p + [Finalize(closed)], k)
  {
    var s := Run(p);
    CountsSnoc(p, Finalize(closed), OneKey(k));
    RunSnoc(p, Finalize(closed));
    if Ready(s, closed) {
      RowCountSnoc(s.rows, RowOf(closed, s.pending[closed]), OneKey(k));
    }
    if k in s.pending {
      CompleteByGroups(s.pending[k]);
    }
  }

  /**
   Exactly one row or a forgotten entry: with one ACK and one RESP processed for a key, at rest there is exactly one
   row and no leftover entry if the sender recorded the request before at least one of them stored its half; if it
   recorded it after both, or never, there is no row and the entry stays.
   */
  lemma {:induction false} ExactlyOnce(tr: seq<Event>, k: Key)
    requires ClosesAfterStores(tr, k) && AtRest(tr, k)
    requires AckCount(tr, OneKey(k)) == 1 && RespCount(tr, OneKey(k)) == 1
    ensures RecordedInTime(tr, k) ==> RowCount(Run(tr).rows, OneKey(k)) == 1 && k !in Run(tr).pending
    ensures !RecordedInTime(tr, k) ==> RowCount(Run(tr).rows, OneKey(k)) == 0 && k in Run(tr).pending
  {
    JoiningKept(tr, k);
    NothingReadyIsLeft(tr, k);
    RunValid(tr);
    if k in Run(tr).pending {
      CompleteByGroups(Run(tr).pending[k]);
    }
  }

  /** In every interleaving of the callbacks with each other and with the sender. */
  lemma {:induction false} NothingReadyIsLeftInAnyRun(schedule: seq<Callbacks.Action>, k: Key)
    requires Callbacks.HalfWayCount(Callbacks.Execute(schedule).callbacks, k) == 0
    ensures !Ready(Run(Callbacks.Execute(schedule).trace), k)
  {
    Callbacks.CallbacksStoreFirst(schedule, k);
    NothingReadyIsLeft(Callbacks.Execute(schedule).trace, k);
  }

  lemma {:induction false} ExactlyOnceInEveryRun(schedule: seq<Callbacks.Action>, k: Key)
    requires Callbacks.HalfWayCount(Callbacks.Execute(schedule).callbacks, k) == 0
    requires AckCount(Callbacks.Execute(schedule).trace, OneKey(k)) == 1
    requires RespCount(Callbacks.Execute(schedule).trace, OneKey(k)) == 1
    ensures var tr := Callbacks.Execute(schedule).trace;
            if Callbacks.StoredInTime(schedule, k) then
              RowCount(Run(tr).rows, OneKey(k)) == 1 && k !in Run(tr).pending
            else
              RowCount(Run(tr).rows, OneKey(k)) == 0 && k in Run(tr).pending
  {
    Callbacks.CallbacksStoreFirst(schedule, k);
    Callbacks.InTimeIsInTime(schedule, k);
    ExactlyOnce(Callbacks.Execute(schedule).trace, k);
  }

  /**
   The same in terms of the schedule alone: when one ACK and one RESP of a key were delivered and their callbacks have
   ended, there is one row if one of them took its first step after the sender had recorded a request of that id.
   */
  lemma {:induction false} DeliveredOnceInEveryRun(schedule: seq<Callbacks.Action>, k: Key)
    requires Callbacks.Settled(Callbacks.Execute(schedule), k)
    requires AckCount(Callbacks.Delivered(schedule), OneKey(k)) == 1
    requires RespCount(Callbacks.Delivered(schedule), OneKey(k)) == 1
    ensures var s := Run(Callbacks.Execute(schedule).trace);
            if Callbacks.StoredInTime(schedule, k) then RowCount(s.rows, OneKey(k)) == 1 && k !in s.pending
            else RowCount(s.rows, OneKey(k)) == 0 && k in s.pending
  {
    Callbacks.SettledCounts(schedule, k);
    ExactlyOnceInEveryRun(schedule, k);
  }

  // ----- Exactly which row -----

  lemma {:induction false} FieldsNeedHalves(tr: seq<Event>, k: Key)
    ensures RadarAckRxTs in J.Joined(RULES, tr, k) ==> AckCount(tr, OneKey(k)) > 0
    ensures RadarRespTs in J.Joined(RULES, tr, k) ==> RespCount(tr, OneKey(k)) > 0
  {
    if tr == [] {
    } else {
      FieldsNeedHalves(tr[..|tr| - 1], k);
    }
  }

  lemma {:induction false} RulesAreSound(tr: seq<Event>, k: Key)
    ensures J.Sound(RULES, tr, k)
  {
    forall n | 0 <= n <= |tr|
      ensures J.NeedsHalves(RULES, tr[..n], k)
    {
      FieldsNeedHalves(tr[..n], k);
    }
  }

  /** The request an entry holds: the one the ACK found, or if it came first and found none, the one the RESP found. */
  function HeldRequest(ackFirst: bool, atAck: Option<Meta>, atResp: Option<Meta>): Option<Meta> {
    if ackFirst && atAck.None? then atResp else atAck
  }

  function RowWith(k: Key, m: Meta, ack: Event, resp: Event): Row
    requires ack.Ack? && resp.Resp?
  {
    Row(k.0, k.1, m.sendTs, ack.ts, resp.ts, resp.ecuTs, m.d1, m.d2, m.d3, m.d4, resp.c, resp.d)
  }

  lemma {:induction false} AckThenResp(k: Key, atAck: Option<Meta>, atResp: Option<Meta>, ack: Event, resp: Event)
    requires ack.Ack? && resp.Resp?
    ensures var t := WithResp(WithAck(EMPTY_ENTRY, atAck, ack.ts), atResp, resp.ts, resp.c, resp.d, resp.ecuTs);
            var held := HeldRequest(true, atAck, atResp);
            RowIfComplete(k, t) == if held.Some? then Some(RowWith(k, held.value, ack, resp)) else None
  {
    var t := WithResp(WithAck(EMPTY_ENTRY, atAck, ack.ts), atResp, resp.ts, resp.c, resp.d, resp.ecuTs);
    CompleteByGroups(t);
  }

  lemma {:induction false} RespThenAck(k: Key, atAck: Option<Meta>, atResp: Option<Meta>, ack: Event, resp: Event)
    requires ack.Ack? && resp.Resp? && (atResp.Some? ==> atAck.Some?)
    ensures var t := WithAck(WithResp(EMPTY_ENTRY, atResp, resp.ts, resp.c, resp.d, resp.ecuTs), atAck, ack.ts);
            var held := HeldRequest(false, atAck, atResp);
            RowIfComplete(k, t) == if held.Some? then Some(RowWith(k, held.value, ack, resp)) else None
  {
    var t := WithAck(WithResp(EMPTY_ENTRY, atResp, resp.ts, resp.c, resp.d, resp.ecuTs), atAck, ack.ts);
    CompleteByGroups(t);
  }

  /** The request the two halves end up with. */
  function JoinedRequest(tr: seq<Event>, k: Key, a: nat, r: nat): Option<Meta>
    requires a < |tr| && r < |tr|
  {
    HeldRequest(a < r, LatestRequest(tr[..a], k.1), LatestRequest(tr[..r], k.1))
  }

  /**
   With one ACK and one RESP processed for a key, at rest: if a request was found there is exactly one row, its fields
   are those of the two halves and of that request, and no entry is left; otherwise there is no row and the entry stays.
   */
  lemma {:induction false} RowExactly(tr: seq<Event>, k: Key, a: nat, r: nat)
    requires ClosesAfterStores(tr, k) && AtRest(tr, k) && OnlyHalves(tr, k, a, r)
    ensures var held := JoinedRequest(tr, k, a, r);
            if held.Some? then
              RowsOfKey(Run(tr).rows, k) == [RowWith(k, held.value, tr[a], tr[r])] && k !in Run(tr).pending
            else
              RowsOfKey(Run(tr).rows, k) == [] && k in Run(tr).pending
  {
    FollowsRules(tr);
    RulesAreSound(tr, k);
    J.JoinsOnce(RULES, tr, k);
    J.JoinedIs(RULES, tr, k, a, r);
    var atAck, atResp := LatestRequest(tr[..a], k.1), LatestRequest(tr[..r], k.1);
    if a < r {
      AckThenResp(k, atAck, atResp, tr[a], tr[r]);
    } else {
      LatestPersists(tr, r, a, k.1);
      RespThenAck(k, atAck, atResp, tr[a], tr[r]);
    }
  }

  lemma {:induction false} RowExactlyInEveryRun(schedule: seq<Callbacks.Action>, k: Key, a: nat, r: nat)
    requires Callbacks.HalfWayCount(Callbacks.Execute(schedule).callbacks, k) == 0
    requires OnlyHalves(Callbacks.Execute(schedule).trace, k, a, r)
    ensures var tr := Callbacks.Execute(schedule).trace;
            var held := JoinedRequest(tr, k, a, r);
            if held.Some? then
              RowsOfKey(Run(tr).rows, k) == [RowWith(k, held.value, tr[a], tr[r])] && k !in Run(tr).pending
            else
              RowsOfKey(Run(tr).rows, k) == [] && k in Run(tr).pending
  {
    Callbacks.CallbacksStoreFirst(schedule, k);
    RowExactly(Callbacks.Execute(schedule).trace, k, a, r);
  }

  // ----- Duplicates -----

  /** While a key has no row its entry is never removed, so it keeps what it has been given. */
  ghost predicate Keeps(tr: seq<Event>, k: Key) {
    var s := Run(tr);
    RowCount(s.rows, OneKey(k)) == 0 ==>
      && (AckCount(tr, OneKey(k)) > 0 ==> k in s.pending && RadarAckRxTs in s.pending[k])
      && (RespCount(tr, OneKey(k)) > 0 ==> k in s.pending && RadarRespTs in s.pending[k])
      && (RecordedInTime(tr, k) ==> k in s.pending && EcuSendTs in s.pending[k])
  }

  lemma {:induction false} KeepsStep(p: seq<Event>, e: Event, k: Key)
    requires Keeps(p, k)
    requires k.1 in Run(p).meta <==> Recorded(p, k.1)
    ensures Keeps(p + [e], k)
  {
    var s := Run(p);
    CountsSnoc(p, e, OneKey(k));
    RunSnoc(p, e);
    RecordedInTimeSnoc(p, e, k);
    if e.Finalize? && Ready(s, e.key) {
      RowCountSnoc(s.rows, RowOf(e.key, s.pending[e.key]), OneKey(k));
    }
  }

  /**
   However often the two messages are duplicated: once the callbacks for a key have run to their end, at least one row
   is there if an ACK, a RESP and in time the request were seen.
   */
  lemma {:induction false} AtLeastOneRow(tr: seq<Event>, k: Key)
    requires ClosesAfterStores(tr, k) && AtRest(tr, k) && RecordedInTime(tr, k)
    requires AckCount(tr, OneKey(k)) >= 1 && RespCount(tr, OneKey(k)) >= 1
    ensures RowCount(Run(tr).rows, OneKey(k)) >= 1
  {
    KeepsAlways(tr, k);
    NothingReadyIsLeft(tr, k);
    RunValid(tr);
    if k in Run(tr).pending {
      CompleteByGroups(Run(tr).pending[k]);
    }
  }

  lemma {:induction false} KeepsAlways(tr: seq<Event>, k: Key)
    ensures Keeps(tr, k)
  {
    if tr == [] {
    } else {
      var p, e := tr[..|tr| - 1], tr[|tr| - 1];
      assert p + [e] == tr;
      KeepsAlways(p, k);
      MetaIsRecorded(p, k.1);
      KeepsStep(p, e, k);
    }
  }

  lemma {:induction false} AtLeastOneRowInEveryRun(schedule: seq<Callbacks.Action>, k: Key)
    requires Callbacks.HalfWayCount(Callbacks.Execute(schedule).callbacks, k) == 0
    requires Callbacks.StoredInTime(schedule, k)
    requires var tr := Callbacks.Execute(schedule).trace;
             AckCount(tr, OneKey(k)) >= 1 && RespCount(tr, OneKey(k)) >= 1
    ensures RowCount(Run(Callbacks.Execute(schedule).trace).rows, OneKey(k)) >= 1
  {
    Callbacks.CallbacksStoreFirst(schedule, k);
    Callbacks.InTimeIsInTime(schedule, k);
    AtLeastOneRow(Callbacks.Execute(schedule).trace, k);
  }

  // ----- Where a row's fields come from -----

  ghost predicate AckSeen(tr: seq<Event>, k: Key, ts: u32) {
    exists i :: 0 <= i < |tr| && tr[i] == Ack(k, ts)
  }

  ghost predicate RespSeen(tr: seq<Event>, k: Key, ts: u32, c: u32, d: u32, ecuTs: u32) {
    exists i :: 0 <= i < |tr| && tr[i] == Resp(k, ts, c, d, ecuTs)
  }

  ghost predicate RequestSeen(tr: seq<Event>, m: Meta) {
    exists i :: 0 <= i < |tr| && tr[i] == Record(m)
  }

  lemma {:induction false} SeenSnoc(tr: seq<Event>, e: Event)
    ensures forall k, ts :: AckSeen(tr, k, ts) || e == Ack(k, ts) ==> AckSeen(tr + [e], k, ts)
    ensures forall k, ts, c, d, ecuTs ::
              RespSeen(tr, k, ts, c, d, ecuTs) || e == Resp(k, ts, c, d, ecuTs) ==>
                RespSeen(tr + [e], k, ts, c, d, ecuTs)
    ensures forall m :: RequestSeen(tr, m) || e == Record(m) ==> RequestSeen(tr + [e], m)
  {
    var tr' := tr + [e];
    assert tr'[|tr|] == e;
    assert forall i :: 0 <= i < |tr| ==> tr'[i] == tr[i];
  }

  /** Each part of the entry that is present was put there by one event. */
  ghost predicate EntryWhole(tr: seq<Event>, k: Key, t: Entry) {
    && FieldGroups(t)
    && (RadarAckRxTs in t ==> AckSeen(tr, k, t[RadarAckRxTs]))
    && (RadarRespTs in t ==> RespSeen(tr, k, t[RadarRespTs], t[RespC], t[RespD], t[EcuAckTs]))
    && (EcuSendTs in t ==> t[ReqD1] == k.1)
    && (EcuSendTs in t ==> RequestSeen(tr, Meta(t[EcuSendTs], t[ReqD1], t[ReqD2], t[ReqD3], t[ReqD4])))
  }

  ghost predicate RowWhole(tr: seq<Event>, row: Row) {
    && row.d1 == row.reqId
    && AckSeen(tr, (row.rid, row.reqId), row.ackTs)
    && RespSeen(tr, (row.rid, row.reqId), row.respTs, row.c, row.d, row.ecuTs)
    && RequestSeen(tr, Meta(row.sendTs, row.d1, row.d2, row.d3, row.d4))
  }

  ghost predicate TablesWhole(tr: seq<Event>, s: Ecu) {
    && (forall id :: id in s.meta ==> s.meta[id].d1 == id && RequestSeen(tr, s.meta[id]))
    && (forall k :: k in s.pending ==> EntryWhole(tr, k, s.pending[k]))
    && (forall i :: 0 <= i < |s.rows| ==> RowWhole(tr, s.rows[i]))
  }

  lemma {:induction false} EntryWholeAfterAck(p: seq<Event>, s: Ecu, k: Key, ts: u32)
    requires TablesWhole(p, s)
    ensures EntryWhole(p + [Ack(k, ts)], k, StoreAck(s, k, ts).pending[k])
  {
    SeenSnoc(p, Ack(k, ts));
  }

  lemma {:induction false} EntryWholeAfterResp(p: seq<Event>, s: Ecu, k: Key, ts: u32, c: u32, d: u32, ecuTs: u32)
    requires TablesWhole(p, s)
    ensures EntryWhole(p + [Resp(k, ts, c, d, ecuTs)], k, StoreResp(s, k, ts, c, d, ecuTs).pending[k])
  {
    SeenSnoc(p, Resp(k, ts, c, d, ecuTs));
  }

  lemma {:induction false} TablesWholeStep(p: seq<Event>, s: Ecu, e: Event)
    requires TablesWhole(p, s)
    ensures TablesWhole(p + [e], Step(s, e))
  {
    SeenSnoc(p, e);
    match e
    case Record(_) =>
    case Ack(k, ts) => EntryWholeAfterAck(p, s, k, ts);
    case Resp(k, ts, c, d, ecuTs) => EntryWholeAfterResp(p, s, k, ts, c, d, ecuTs);
    case Finalize(k) =>
      if Ready(s, k) {
        assert RowWhole(p + [e], RowOf(k, s.pending[k]));
      }
  }

  /**
   In any trace, with duplicates and colliding ids, a row is put together from one ACK, one RESP and one recorded
   request of its key; no row mixes the words of two requests.
   */
  lemma {:induction false} RowsAreWhole(tr: seq<Event>)
    ensures forall i :: 0 <= i < |Run(tr).rows| ==> RowWhole(tr, Run(tr).rows[i])
  {
    TablesAreWhole(tr);
  }

  lemma {:induction false} TablesAreWhole(tr: seq<Event>)
    ensures TablesWhole(tr, Run(tr))
  {
    if tr == [] {
    } else {
      TablesAreWhole(tr[..|tr| - 1]);
      TablesWholeStep(tr[..|tr| - 1], Run(tr[..|tr| - 1]), tr[|tr| - 1]);
      assert tr[..|tr| - 1] + [tr[|tr| - 1]] == tr;
    }
  }
}
