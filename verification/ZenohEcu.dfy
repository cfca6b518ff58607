/**
 The Zenoh ECU's calibration bookkeeping: an entry is a dictionary, and a field that is missing is one not seen yet.
 Storing a half and closing the transaction are two lock regions, so callbacks and the sender may interleave between
 them in any way; a trace of lock regions is therefore all that a run of these threads amounts to.
 */
module ZenohEcu {
  import opened Common
  import opened Calibration

  datatype Field = EcuSendTs | RadarAckRxTs | RadarRespTs | EcuAckTs | ReqD1 | ReqD2 | ReqD3 | ReqD4 | RespC | RespD

  type Entry = map<Field, u32>

  /** The fields `finalize_if_ready` asks for. */
  const FIELDS := {EcuSendTs, RadarAckRxTs, RadarRespTs, EcuAckTs, ReqD1, ReqD2, ReqD3, ReqD4, RespC, RespD}

  datatype Ecu = Ecu(meta: map<u32, Meta>, pending: map<Key, Entry>, rows: seq<Row>)

  const EMPTY_ENTRY: Entry := map[]

  const START := Ecu(map[], map[], [])

  function WithRequest(t: Entry, m: Meta): Entry {
    t[EcuSendTs := m.sendTs][ReqD1 := m.d1][ReqD2 := m.d2][ReqD3 := m.d3][ReqD4 := m.d4]
  }

  /** What the lock region of `on_radar_ack` makes of an entry, given what it finds in the table of requests. */
  function WithAck(t: Entry, request: Option<Meta>, ts: u32): Entry {
    var t: Entry := t[RadarAckRxTs := ts];
    if request.Some? then WithRequest(t, request.value) else t
  }

  /** What the lock region of `on_radar_resp` makes of it. */
  function WithResp(t: Entry, request: Option<Meta>, ts: u32, c: u32, d: u32, ecuTs: u32): Entry {
    var t: Entry := t[RadarRespTs := ts][RespC := c][RespD := d][EcuAckTs := ecuTs];
    if request.Some? && EcuSendTs !in t then WithRequest(t, request.value) else t
  }

  function StoreAck(s: Ecu, k: Key, ts: u32): Ecu {
    s.(pending := s.pending[k := WithAck(GetOr(s.pending, k, EMPTY_ENTRY), Lookup(s.meta, k.1), ts)])
  }

  function StoreResp(s: Ecu, k: Key, ts: u32, c: u32, d: u32, ecuTs: u32): Ecu {
    s.(pending := s.pending[k := WithResp(GetOr(s.pending, k, EMPTY_ENTRY), Lookup(s.meta, k.1), ts, c, d, ecuTs)])
  }

  predicate Complete(t: Entry) {
    FIELDS <= t.Keys
  }

  function RowOf(k: Key, t: Entry): Row
    requires Complete(t)
  {
    Row(k.0, k.1, t[EcuSendTs], t[RadarAckRxTs], t[RadarRespTs], t[EcuAckTs],
        t[ReqD1], t[ReqD2], t[ReqD3], t[ReqD4], t[RespC], t[RespD])
  }

  function FinalizeIfReady(s: Ecu, k: Key): Ecu {
    if k in s.pending && Complete(s.pending[k]) then
      s.(pending := s.pending - {k}, rows := s.rows + [RowOf(k, s.pending[k])])
    else s
  }

  function Step(s: Ecu, e: Event): Ecu {
    match e
    case Record(m) => s.(meta := s.meta[m.d1 := m])
    case Ack(k, ts) => StoreAck(s, k, ts)
    case Resp(k, ts, c, d, ecuTs) => StoreResp(s, k, ts, c, d, ecuTs)
    case Finalize(k) => FinalizeIfReady(s, k)
  }

  function Run(tr: seq<Event>): Ecu {
    if tr == [] then START else Step(Run(tr[..|tr| - 1]), tr[|tr| - 1])
  }

  lemma {:induction false} RunSnoc(tr: seq<Event>, e: Event)
    ensures Run(tr + [e]) == Step(Run(tr), e)
  {
    assert (tr + [e])[..|tr|] == tr;
  }

  /** What the four fields of a stored RESP and the five of a recorded request have in common: all or none. */
  predicate FieldGroups(t: Entry) {
    && (RadarRespTs in t <==> RespC in t) && (RadarRespTs in t <==> RespD in t) && (RadarRespTs in t <==> EcuAckTs in t)
    && (EcuSendTs in t <==> ReqD1 in t) && (EcuSendTs in t <==> ReqD2 in t)
    && (EcuSendTs in t <==> ReqD3 in t) && (EcuSendTs in t <==> ReqD4 in t)
  }

  lemma {:induction false} CompleteByGroups(t: Entry)
    requires FieldGroups(t)
    ensures Complete(t) <==> EcuSendTs in t && RadarAckRxTs in t && RadarRespTs in t
  {
  }

  /** The tables' keys and the entries' shapes, which every lock region keeps. */
  ghost predicate Valid(s: Ecu) {
    && (forall id :: id in s.meta ==> s.meta[id].d1 == id)
    && (forall k :: k in s.pending ==> FieldGroups(s.pending[k]))
    && (forall k :: k in s.pending ==> RadarAckRxTs in s.pending[k] || RadarRespTs in s.pending[k])
  }

  lemma {:induction false} HalvesKeepGroups(t: Entry, request: Option<Meta>, ts: u32, c: u32, d: u32, ecuTs: u32)
    requires FieldGroups(t)
    ensures FieldGroups(WithAck(t, request, ts)) && RadarAckRxTs in WithAck(t, request, ts)
    ensures FieldGroups(WithResp(t, request, ts, c, d, ecuTs)) && RadarRespTs in WithResp(t, request, ts, c, d, ecuTs)
  {
  }

  lemma {:induction false} StoreKeepsValid(s: Ecu, k: Key, t: Entry)
    requires Valid(s) && FieldGroups(t) && (RadarAckRxTs in t || RadarRespTs in t)
    ensures Valid(s.(pending := s.pending[k := t]))
  {
  }

  lemma {:induction false} StepKeepsValid(s: Ecu, e: Event)
    requires Valid(s)
    ensures Valid(Step(s, e))
  {
    match e
    case Record(_) =>
    case Ack(k, ts) =>
      HalvesKeepGroups(GetOr(s.pending, k, EMPTY_ENTRY), Lookup(s.meta, k.1), ts, 0, 0, 0);
      StoreKeepsValid(s, k, WithAck(GetOr(s.pending, k, EMPTY_ENTRY), Lookup(s.meta, k.1), ts));
    case Resp(k, ts, c, d, ecuTs) =>
      HalvesKeepGroups(GetOr(s.pending, k, EMPTY_ENTRY), Lookup(s.meta, k.1), ts, c, d, ecuTs);
      StoreKeepsValid(s, k, WithResp(GetOr(s.pending, k, EMPTY_ENTRY), Lookup(s.meta, k.1), ts, c, d, ecuTs));
    case Finalize(_) =>
  }

  lemma {:induction false} RunValid(tr: seq<Event>)
    ensures Valid(Run(tr))
  {
    if tr == [] {
    } else {
      RunValid(tr[..|tr| - 1]);
      StepKeepsValid(Run(tr[..|tr| - 1]), tr[|tr| - 1]);
    }
  }

  // ----- Conservation -----

  function AckedKeys(s: Ecu): set<Key> {
    set k | k in s.pending && RadarAckRxTs in s.pending[k]
  }

  function RespondedKeys(s: Ecu): set<Key> {
    set k | k in s.pending && RadarRespTs in s.pending[k]
  }

  function LedgerOf(s: Ecu): Ledger {
    Ledger(s.rows, AckedKeys(s), RespondedKeys(s))
  }

  lemma {:induction false} FinalizePosts(s: Ecu, k: Key)
    requires k in s.pending && Complete(s.pending[k])
    ensures Closing(LedgerOf(s), k, RowOf(k, s.pending[k]), LedgerOf(FinalizeIfReady(s, k)))
  {
    var s', t := FinalizeIfReady(s, k), s.pending[k];
    assert RadarAckRxTs in t && RadarRespTs in t;
    assert AckedKeys(s') == AckedKeys(s) - {k};
    assert RespondedKeys(s') == RespondedKeys(s) - {k};
  }

  /** A row is paid for with the ACK and the RESP of the entry it closes. */
  lemma {:induction false} StepPosts(s: Ecu, e: Event)
    ensures Posts(LedgerOf(s), e, LedgerOf(Step(s, e)))
  {
    var s' := Step(s, e);
    match e
    case Record(_) => assert AckedKeys(s') == AckedKeys(s) && RespondedKeys(s') == RespondedKeys(s);
    case Ack(_, _) => assert RespondedKeys(s') == RespondedKeys(s);
    case Resp(_, _, _, _, _) => assert AckedKeys(s') == AckedKeys(s);
    case Finalize(k) =>
      if k in s.pending && Complete(s.pending[k]) {
        FinalizePosts(s, k);
      }
  }

  /** The rows of a key or a radar, and the halves still waiting, are backed by distinct messages processed. */
  lemma {:induction false} RowsBackedByMessages(tr: seq<Event>, sel: Selection)
    ensures RowCount(Run(tr).rows, sel) + |Selected(AckedKeys(Run(tr)), sel)| <= AckCount(tr, sel)
    ensures RowCount(Run(tr).rows, sel) + |Selected(RespondedKeys(Run(tr)), sel)| <= RespCount(tr, sel)
  {
    if tr == [] {
      assert Selected(AckedKeys(START), sel) == {} && Selected(RespondedKeys(START), sel) == {};
    } else {
      var s, e := Run(tr[..|tr| - 1]), tr[|tr| - 1];
      RowsBackedByMessages(tr[..|tr| - 1], sel);
      StepPosts(s, e);
      PostsBacked(LedgerOf(s), e, LedgerOf(Step(s, e)), sel);
    }
  }

  /** The ECU process's calibration tables and counters, with the trace of lock regions they went through. */
  class AdasEcu {
    var reqMeta: map<u32, Meta>
    var txByRadarReq: map<Key, Entry>
    var calibTxns: seq<Row>
    var ackRadarRecv: map<RadarId, nat>
    var respRecv: map<RadarId, nat>
    var ecuAckSent: map<RadarId, nat>
    ghost var trace: seq<Event>

    ghost predicate Valid()
      reads this
    {
      && Ecu(reqMeta, txByRadarReq, calibTxns) == Run(trace)
      && Counted(trace, ackRadarRecv, ecuAckSent, respRecv)
    }

    constructor ()
      ensures Valid() && trace == []
    {
      reqMeta, txByRadarReq, calibTxns := map[], map[], [];
      ackRadarRecv, respRecv, ecuAckSent := map[], map[], map[];
      trace := [];
    }

    /** The sender's lock region, after it published the request. */
    method RecordRequest(m: Meta)
      requires Valid()
      modifies `reqMeta, `trace
      ensures Valid() && trace == old(trace) + [Record(m)]
    {
      reqMeta := reqMeta[m.d1 := m];
      RunSnoc(trace, Record(m));
      CountedSnoc(trace, Record(m), ackRadarRecv, ecuAckSent, respRecv);
      trace := trace + [Record(m)];
    }

    /** `on_radar_ack` up to and including its lock region. */
    method StoreAckHalf(rid: RadarId, ack: Words)
      requires Valid()
      modifies `ackRadarRecv, `txByRadarReq, `trace
      ensures Valid() && trace == old(trace) + [Ack((rid, ack.d1), ack.d2)]
    {
      CountedSnoc(trace, Ack((rid, ack.d1), ack.d2), ackRadarRecv, ecuAckSent, respRecv);
      ackRadarRecv := OneMore(ackRadarRecv, rid);
      var key := (rid, ack.d1);
      var t: Entry := GetOr(txByRadarReq, key, EMPTY_ENTRY);
      t := t[RadarAckRxTs := ack.d2];
      if ack.d1 in reqMeta {
        var rm := reqMeta[ack.d1];
        t := t[EcuSendTs := rm.sendTs];
        t := t[ReqD1 := rm.d1][ReqD2 := rm.d2];
        t := t[ReqD3 := rm.d3][ReqD4 := rm.d4];
      }
      txByRadarReq := txByRadarReq[key := t];
      RunSnoc(trace, Ack(key, ack.d2));
      trace := trace + [Ack(key, ack.d2)];
    }

    /** The part of `on_radar_resp` before the lock: the ECU-ACK goes back at once and is counted. */
    method AnswerResp(rid: RadarId, resp: Words, now: u32) returns (ecuAck: Words)
      requires Valid()
      modifies `respRecv, `ecuAckSent
      ensures Valid() && trace == old(trace)
      ensures ecuAck == Words(resp.d1, now, resp.d3, resp.d4)
      ensures ecuAckSent == OneMore(old(ecuAckSent), rid)
      ensures respRecv == OneMore(old(respRecv), rid)
      ensures RespCount(trace, OneRadar(rid)) < GetOr(ecuAckSent, rid, 0)
    {
      assert RespCount(trace, OneRadar(rid)) <= GetOr(ecuAckSent, rid, 0);
      respRecv := OneMore(respRecv, rid);
      ecuAck := Words(resp.d1, now, resp.d3, resp.d4);
      ecuAckSent := OneMore(ecuAckSent, rid);
    }

    /** The lock region of `on_radar_resp`; its callback answered the RESP before and counted it. */
    method StoreRespHalf(rid: RadarId, resp: Words, ecuTs: u32)
      requires Valid()
      requires RespCount(trace, OneRadar(rid)) < GetOr(ecuAckSent, rid, 0)
      modifies `txByRadarReq, `trace
      ensures Valid() && trace == old(trace) + [Resp((rid, resp.d1), resp.d2, resp.d3, resp.d4, ecuTs)]
    {
      var key := (rid, resp.d1);
      var t: Entry := GetOr(txByRadarReq, key, EMPTY_ENTRY);
      t := t[RadarRespTs := resp.d2];
      t := t[RespC := resp.d3];
      t := t[RespD := resp.d4];
      t := t[EcuAckTs := ecuTs];
      if resp.d1 in reqMeta && EcuSendTs !in t {
        var rm := reqMeta[resp.d1];
        t := t[EcuSendTs := rm.sendTs];
        t := t[ReqD1 := rm.d1][ReqD2 := rm.d2];
        t := t[ReqD3 := rm.d3][ReqD4 := rm.d4];
      }
      txByRadarReq := txByRadarReq[key := t];
      RunSnoc(trace, Resp(key, resp.d2, resp.d3, resp.d4, ecuTs));
      CountedSnoc(trace, Resp(key, resp.d2, resp.d3, resp.d4, ecuTs), ackRadarRecv, ecuAckSent, respRecv);
      trace := trace + [Resp(key, resp.d2, resp.d3, resp.d4, ecuTs)];
    }

    /** `finalize_if_ready`: its own lock region. */
    method FinalizeTransaction(rid: RadarId, reqId: u32)
      requires Valid()
      modifies `txByRadarReq, `calibTxns, `trace
      ensures Valid() && trace == old(trace) + [Finalize((rid, reqId))]
    {
      var key := (rid, reqId);
      RunSnoc(trace, Finalize(key));
      CountedSnoc(trace, Finalize(key), ackRadarRecv, ecuAckSent, respRecv);
      trace := trace + [Finalize(key)];
      if key !in txByRadarReq {
        return;
      }
      var t := txByRadarReq[key];
      if !Complete(t) {
        return;
      }
      calibTxns := calibTxns + [RowOf(key, t)];
      txByRadarReq := txByRadarReq - {key};
    }

    /** A whole `on_radar_ack` callback; `None` is a payload that does not decode, which changes nothing. */
    method OnRadarAck(rid: RadarId, ack: Option<Words>)
      requires Valid()
      modifies `ackRadarRecv, `txByRadarReq, `calibTxns, `trace
      ensures Valid()
      ensures ack.None? ==> trace == old(trace)
      ensures ack.Some? ==>
                var a := ack.value;
                trace == old(trace) + [Ack((rid, a.d1), a.d2), Finalize((rid, a.d1))]
    {
      if ack.None? {
        return;
      }
      var a := ack.value;
      StoreAckHalf(rid, a);
      FinalizeTransaction(rid, a.d1);
    }

    /** A whole `on_radar_resp` callback, with the clock reading it answers with. */
    method OnRadarResp(rid: RadarId, resp: Option<Words>, now: u32) returns (ecuAck: Option<Words>)
      requires Valid()
      modifies `respRecv, `ecuAckSent, `txByRadarReq, `calibTxns, `trace
      ensures Valid()
      ensures resp.None? ==> ecuAck == None && trace == old(trace)
      ensures resp.None? ==> respRecv == old(respRecv) && ecuAckSent == old(ecuAckSent)
      ensures resp.Some? ==>
                && ecuAckSent == OneMore(old(ecuAckSent), rid)
                && respRecv == OneMore(old(respRecv), rid)
      ensures resp.Some? ==>
                var r := resp.value;
                && ecuAck == Some(Words(r.d1, now, r.d3, r.d4))
                && trace == old(trace) + [Resp((rid, r.d1), r.d2, r.d3, r.d4, now), Finalize((rid, r.d1))]
    {
      if resp.None? {
        return None;
      }
      var r := resp.value;
      var ack := AnswerResp(rid, r, now);
      StoreRespHalf(rid, r, ack.d2);
      FinalizeTransaction(rid, r.d1);
      ecuAck := Some(ack);
    }

    /** Whatever callbacks ran, each radar's rows stay within what the calibration summary prints for it. */
    lemma {:induction false} RowsWithinCounters(rid: RadarId)
      requires Valid()
      ensures RowCount(calibTxns, OneRadar(rid)) <= AckCount(trace, OneRadar(rid)) == GetOr(ackRadarRecv, rid, 0)
      ensures RowCount(calibTxns, OneRadar(rid)) <= GetOr(ecuAckSent, rid, 0) <= GetOr(respRecv, rid, 0)
    {
      AckCountsAre(trace, rid);
      RowsBackedByMessages(trace, OneRadar(rid));
    }
  }
}
