/**
 The OpenDDS ECU's calibration bookkeeping: a zero timestamp means "not seen yet". The functions below are the lock
 regions as steps on values, the class keeps the source's tables in place.
 */
module OpenDdsEcu {
  import opened Common
  import opened Calibration

  /** A transaction under construction. */
  datatype Txn = Txn(sendTs: u32, ackTs: u32, respTs: u32, ecuTs: u32,
                     d1: u32, d2: u32, d3: u32, d4: u32, c: u32, d: u32)

  const EMPTY_TXN := Txn(0, 0, 0, 0, 0, 0, 0, 0, 0, 0)

  datatype Ecu = Ecu(meta: map<u32, Meta>, pending: map<Key, Txn>, rows: seq<Row>)

  const START := Ecu(map[], map[], [])

  /** What the lock region of `drain_ack` makes of an entry, given what it finds in the table of requests. */
  function WithAck(t: Txn, request: Option<Meta>, ts: u32): Txn {
    var t := t.(ackTs := ts);
    if request.None? then t
    else
      var m := request.value;
      t.(sendTs := m.sendTs, d1 := m.d1, d2 := m.d2, d3 := m.d3, d4 := m.d4)
  }

  /** What the lock region of `drain_resp` makes of it. */
  function WithResp(t: Txn, request: Option<Meta>, ts: u32, c: u32, d: u32, ecuTs: u32): Txn {
    var t := t.(respTs := ts, c := c, d := d, ecuTs := ecuTs);
    if request.None? then t
    else
      var m := request.value;
      t.(sendTs := if t.sendTs == 0 then m.sendTs else t.sendTs, d1 := m.d1, d2 := m.d2, d3 := m.d3, d4 := m.d4)
  }

  function StoreAck(s: Ecu, k: Key, ts: u32): Ecu {
    s.(pending := s.pending[k := WithAck(GetOr(s.pending, k, EMPTY_TXN), Lookup(s.meta, k.1), ts)])
  }

  function StoreResp(s: Ecu, k: Key, ts: u32, c: u32, d: u32, ecuTs: u32): Ecu {
    s.(pending := s.pending[k := WithResp(GetOr(s.pending, k, EMPTY_TXN), Lookup(s.meta, k.1), ts, c, d, ecuTs)])
  }

  predicate Complete(t: Txn) {
    t.sendTs != 0 && t.ackTs != 0 && t.respTs != 0 && t.ecuTs != 0
  }

  function RowOf(k: Key, t: Txn): Row {
    Row(k.0, k.1, t.sendTs, t.ackTs, t.respTs, t.ecuTs, t.d1, t.d2, t.d3, t.d4, t.c, t.d)
  }

  function FinalizeIfReady(s: Ecu, k: Key): Ecu {
    if k in s.pending && Complete(s.pending[k]) then
      s.(pending := s.pending - {k}, rows := s.rows + [RowOf(k, s.pending[k])])
    else s
  }

  function Step(s: Ecu, e: Event): Ecu {
    match e
    case Record(m) => s.(meta := s.meta[m.d1 := m])
    case Ack(k, ts) => StoreAck(s, k, ts)
    case Resp(k, ts, c, d, ecuTs) => StoreResp(s, k, ts, c, d, ecuTs)
    case Finalize(k) => FinalizeIfReady(s, k)
  }

  function Run(tr: seq<Event>): Ecu {
    if tr == [] then START else Step(Run(tr[..|tr| - 1]), tr[|tr| - 1])
  }

  lemma {:induction false} RunSnoc(tr: seq<Event>, e: Event)
    ensures Run(tr + [e]) == Step(Run(tr), e)
  {
    assert (tr + [e])[..|tr|] == tr;
  }

  /** The transactions that already hold an ACK, respectively a RESP. */
  function AckedKeys(s: Ecu): set<Key> {
    set k | k in s.pending && s.pending[k].ackTs != 0
  }

  function RespondedKeys(s: Ecu): set<Key> {
    set k | k in s.pending && s.pending[k].respTs != 0
  }

  function LedgerOf(s: Ecu): Ledger {
    Ledger(s.rows, AckedKeys(s), RespondedKeys(s))
  }

  lemma {:induction false} FinalizePosts(s: Ecu, k: Key)
    requires k in s.pending && Complete(s.pending[k])
    ensures Closing(LedgerOf(s), k, RowOf(k, s.pending[k]), LedgerOf(FinalizeIfReady(s, k)))
  {
    var s' := FinalizeIfReady(s, k);
    assert AckedKeys(s') == AckedKeys(s) - {k};
    assert RespondedKeys(s') == RespondedKeys(s) - {k};
  }

  /** A row is paid for with the ACK and the RESP of the entry it closes. */
  lemma {:induction false} StepPosts(s: Ecu, e: Event)
    ensures Posts(LedgerOf(s), e, LedgerOf(Step(s, e)))
  {
    var s' := Step(s, e);
    match e
    case Record(_) => assert AckedKeys(s') == AckedKeys(s) && RespondedKeys(s') == RespondedKeys(s);
    case Ack(_, _) => assert RespondedKeys(s') == RespondedKeys(s);
    case Resp(_, _, _, _, _) => assert AckedKeys(s') == AckedKeys(s);
    case Finalize(k) =>
      if k in s.pending && Complete(s.pending[k]) {
        FinalizePosts(s, k);
      }
  }

  /** One step adds at most one to what is backed by ACKs (RESPs), and only an ACK (RESP) of the selection does. */
  lemma {:induction false} StepBacked(s: Ecu, e: Event, sel: Selection)
    ensures var s' := Step(s, e);
            && RowCount(s'.rows, sel) + |Selected(AckedKeys(s'), sel)|
               <= RowCount(s.rows, sel) + |Selected(AckedKeys(s), sel)|
                  + (if e.Ack? && Selects(sel, e.key) then 1 else 0)
            && RowCount(s'.rows, sel) + |Selected(RespondedKeys(s'), sel)|
               <= RowCount(s.rows, sel) + |Selected(RespondedKeys(s), sel)|
                  + if e.Resp? && Selects(sel, e.key) then 1 else 0
  {
    StepPosts(s, e);
    PostsBacked(LedgerOf(s), e, LedgerOf(Step(s, e)), sel);
  }

  /**
   No row is invented or repeated: over any trace, with duplicated messages and colliding ids, the rows emitted and
   the ACKs (RESPs) still waiting in an entry are backed by distinct ACKs (RESPs) processed.
   */
  lemma {:induction false} RowsBackedByMessages(tr: seq<Event>, sel: Selection)
    ensures RowCount(Run(tr).rows, sel) + |Selected(AckedKeys(Run(tr)), sel)| <= AckCount(tr, sel)
    ensures RowCount(Run(tr).rows, sel) + |Selected(RespondedKeys(Run(tr)), sel)| <= RespCount(tr, sel)
  {
    if tr == [] {
      assert Selected(AckedKeys(START), sel) == {} && Selected(RespondedKeys(START), sel) == {};
    } else {
      RowsBackedByMessages(tr[..|tr| - 1], sel);
      StepBacked(Run(tr[..|tr| - 1]), tr[|tr| - 1], sel);
    }
  }

  /** `ecu_subscriber`'s calibration tables and counters, with the trace of lock regions they went through. */
  class EcuSubscriber {
    var reqMeta: map<u32, Meta>
    var txByRadarReq: map<Key, Txn>
    var rows: seq<Row>
    var ackRecv: map<RadarId, nat>
    var respRecv: map<RadarId, nat>
    var ecuAckSent: map<RadarId, nat>
    ghost var trace: seq<Event>

    ghost predicate Valid()
      reads this
    {
      && Ecu(reqMeta, txByRadarReq, rows) == Run(trace)
      && Counted(trace, ackRecv, ecuAckSent, respRecv)
    }

    constructor ()
      ensures Valid() && trace == []
    {
      reqMeta, txByRadarReq, rows := map[], map[], [];
      ackRecv, respRecv, ecuAckSent := map[], map[], map[];
      trace := [];
    }

    /** The sender's lock region, after it published the request. */
    method RecordRequest(m: Meta)
      requires Valid()
      modifies `reqMeta, `trace
      ensures Valid() && trace == old(trace) + [Record(m)]
    {
      reqMeta := reqMeta[m.d1 := m];
      RunSnoc(trace, Record(m));
      CountedSnoc(trace, Record(m), ackRecv, ecuAckSent, respRecv);
      trace := trace + [Record(m)];
    }

    /** The first half of `drain_ack` for one sample. */
    method TakeAck(rid: RadarId, a: Words)
      requires Valid()
      modifies `ackRecv, `txByRadarReq, `trace
      ensures Valid() && trace == old(trace) + [Ack((rid, a.d1), a.d2)]
    {
      CountedSnoc(trace, Ack((rid, a.d1), a.d2), ackRecv, ecuAckSent, respRecv);
      ackRecv := OneMore(ackRecv, rid);
      var key := (rid, a.d1);
      var t := EMPTY_TXN;
      if key in txByRadarReq {
        t := txByRadarReq[key];
      }
      t := t.(ackTs := a.d2);
      if a.d1 in reqMeta {
        var rm := reqMeta[a.d1];
        t := t.(sendTs := rm.sendTs);
        t := t.(d1 := rm.d1, d2 := rm.d2, d3 := rm.d3, d4 := rm.d4);
      }
      txByRadarReq := txByRadarReq[key := t];
      RunSnoc(trace, Ack(key, a.d2));
      trace := trace + [Ack(key, a.d2)];
    }

    /** The part of `drain_resp` before the lock: the ECU-ACK goes back at once and is counted. */
    method AnswerResp(rid: RadarId, r: Words, now: u32) returns (ecuAck: Words)
      requires Valid()
      modifies `respRecv, `ecuAckSent
      ensures Valid() && trace == old(trace)
      ensures ecuAck == Words(r.d1, now, r.d3, r.d4)
      ensures ecuAckSent == OneMore(old(ecuAckSent), rid)
      ensures respRecv == OneMore(old(respRecv), rid)
      ensures RespCount(trace, OneRadar(rid)) < GetOr(ecuAckSent, rid, 0)
    {
      assert RespCount(trace, OneRadar(rid)) <= GetOr(ecuAckSent, rid, 0);
      respRecv := OneMore(respRecv, rid);
      ecuAck := Words(r.d1, now, r.d3, r.d4);
      ecuAckSent := OneMore(ecuAckSent, rid);
    }

    /** The lock region of `drain_resp`; its caller answered the RESP before and counted it. */
    method StoreResponse(rid: RadarId, r: Words, ecuTs: u32)
      requires Valid()
      requires RespCount(trace, OneRadar(rid)) < GetOr(ecuAckSent, rid, 0)
      modifies `txByRadarReq, `trace
      ensures Valid() && trace == old(trace) + [Resp((rid, r.d1), r.d2, r.d3, r.d4, ecuTs)]
    {
      var key := (rid, r.d1);
      var t := EMPTY_TXN;
      if key in txByRadarReq {
        t := txByRadarReq[key];
      }
      t := t.(respTs := r.d2);
      t := t.(c := r.d3, d := r.d4);
      t := t.(ecuTs := ecuTs);
      if r.d1 in reqMeta {
        var rm := reqMeta[r.d1];
        if t.sendTs == 0 {
          t := t.(sendTs := rm.sendTs);
        }
        t := t.(d1 := rm.d1, d2 := rm.d2, d3 := rm.d3, d4 := rm.d4);
      }
      txByRadarReq := txByRadarReq[key := t];
      RunSnoc(trace, Resp(key, r.d2, r.d3, r.d4, ecuTs));
      CountedSnoc(trace, Resp(key, r.d2, r.d3, r.d4, ecuTs), ackRecv, ecuAckSent, respRecv);
      trace := trace + [Resp(key, r.d2, r.d3, r.d4, ecuTs)];
    }

    /** `finalize_if_ready`: a second lock region, after the one that stored a half. */
    method FinalizeTransaction(rid: RadarId, reqId: u32)
      requires Valid()
      modifies `txByRadarReq, `rows, `trace
      ensures Valid() && trace == old(trace) + [Finalize((rid, reqId))]
    {
      RunSnoc(trace, Finalize((rid, reqId)));
      CountedSnoc(trace, Finalize((rid, reqId)), ackRecv, ecuAckSent, respRecv);
      trace := trace + [Finalize((rid, reqId))];
      var key := (rid, reqId);
      if key !in txByRadarReq {
        return;
      }
      var t := txByRadarReq[key];
      if t.sendTs == 0 || t.ackTs == 0 || t.respTs == 0 || t.ecuTs == 0 {
        return;
      }
      rows := rows + [RowOf(key, t)];
      txByRadarReq := txByRadarReq - {key};
    }

    /** One sample of `drain_ack`. */
    method DrainAck(rid: RadarId, a: Words)
      requires Valid()
      modifies `ackRecv, `txByRadarReq, `rows, `trace
      ensures Valid() && trace == old(trace) + [Ack((rid, a.d1), a.d2), Finalize((rid, a.d1))]
    {
      TakeAck(rid, a);
      FinalizeTransaction(rid, a.d1);
    }

    /** One sample of `drain_resp`, with the clock reading it answers with. */
    method DrainResp(rid: RadarId, r: Words, now: u32) returns (ecuAck: Words)
      requires Valid()
      modifies `respRecv, `ecuAckSent, `txByRadarReq, `rows, `trace
      ensures Valid() && ecuAck == Words(r.d1, now, r.d3, r.d4)
      ensures trace == old(trace) + [Resp((rid, r.d1), r.d2, r.d3, r.d4, now), Finalize((rid, r.d1))]
      ensures ecuAckSent == OneMore(old(ecuAckSent), rid)
      ensures respRecv == OneMore(old(respRecv), rid)
    {
      ecuAck := AnswerResp(rid, r, now);
      StoreResponse(rid, r, ecuAck.d2);
      FinalizeTransaction(rid, r.d1);
    }

    /** Whatever calls were made, each radar's rows stay within what the summary sheet counts for it. */
    lemma {:induction false} RowsWithinCounters(rid: RadarId)
      requires Valid()
      ensures RowCount(rows, OneRadar(rid)) <= AckCount(trace, OneRadar(rid)) == GetOr(ackRecv, rid, 0)
      ensures RowCount(rows, OneRadar(rid)) <= GetOr(ecuAckSent, rid, 0) <= GetOr(respRecv, rid, 0)
    {
      AckCountsAre(trace, rid);
      RowsBackedByMessages(trace, OneRadar(rid));
    }
  }
}
