/**
 What the OpenDDS and Zenoh ECUs have in common: the lock-protected steps on their calibration tables, seen as events,
 and the transaction rows they produce.
 */
module Calibration {
  import opened Common

  type RadarId = string

  /** Transactions are kept per radar and request id. */
  type Key = (RadarId, u32)

  /** What the sender remembers of a request; `d1` is the request id. */
  datatype Meta = Meta(sendTs: u32, d1: u32, d2: u32, d3: u32, d4: u32)

  /** What a look-up in the table of requests finds. */
  function Lookup(meta: map<u32, Meta>, id: u32): Option<Meta> {
    if id in meta then Some(meta[id]) else None
  }

  /** The four data words of an ACK or RESP message; `d1` echoes the request id, `d2` is a timestamp. */
  datatype Words = Words(d1: u32, d2: u32, d3: u32, d4: u32)

  datatype Row = Row(rid: RadarId, reqId: u32, sendTs: u32, ackTs: u32, respTs: u32, ecuTs: u32,
                     d1: u32, d2: u32, d3: u32, d4: u32, c: u32, d: u32)

  /** One lock region each: the sender's bookkeeping, the two halves of a transaction, and the attempt to close it. */
  datatype Event =
    | Record(meta: Meta)
    | Ack(key: Key, ts: u32)
    | Resp(key: Key, ts: u32, c: u32, d: u32, ecuTs: u32)
    | Finalize(key: Key)

  /** Which transactions are counted: those of one key or of one radar. */
  datatype Selection = OneKey(key: Key) | OneRadar(rid: RadarId)

  predicate Selects(sel: Selection, k: Key) {
    match sel
    case OneKey(key) => k == key
    case OneRadar(rid) => k.0 == rid
  }

  function RowCount(rows: seq<Row>, sel: Selection): nat {
    if rows == [] then 0
    else
      var last := rows[|rows| - 1];
      RowCount(rows[..|rows| - 1], sel) + if Selects(sel, (last.rid, last.reqId)) then 1 else 0
  }

  lemma {:induction false} RowCountSnoc(rows: seq<Row>, row: Row, sel: Selection)
    ensures RowCount(rows + [row], sel) == RowCount(rows, sel) + if Selects(sel, (row.rid, row.reqId)) then 1 else 0
  {
    assert (rows + [row])[..|rows|] == rows;
  }

  function AckCount(tr: seq<Event>, sel: Selection): nat {
    if tr == [] then 0
    else
      var e := tr[|tr| - 1];
      AckCount(tr[..|tr| - 1], sel) + if e.Ack? && Selects(sel, e.key) then 1 else 0
  }

  function RespCount(tr: seq<Event>, sel: Selection): nat {
    if tr == [] then 0
    else
      var e := tr[|tr| - 1];
      RespCount(tr[..|tr| - 1], sel) + if e.Resp? && Selects(sel, e.key) then 1 else 0
  }

  function FinalizeCount(tr: seq<Event>, sel: Selection): nat {
    if tr == [] then 0
    else
      var e := tr[|tr| - 1];
      FinalizeCount(tr[..|tr| - 1], sel) + if e.Finalize? && Selects(sel, e.key) then 1 else 0
  }

  /** A counter per radar after one more message of `rid`. */
  function OneMore(counts: map<RadarId, nat>, rid: RadarId): map<RadarId, nat> {
    counts[rid := GetOr(counts, rid, 0) + 1]
  }

  /** The ACKs of a trace per radar. */
  function AckCounts(tr: seq<Event>): map<RadarId, nat> {
    if tr == [] then map[]
    else
      var e, rest := tr[|tr| - 1], AckCounts(tr[..|tr| - 1]);
      if e.Ack? then OneMore(rest, e.key.0) else rest
  }

  lemma {:induction false} AckCountsAre(tr: seq<Event>, rid: RadarId)
    ensures GetOr(AckCounts(tr), rid, 0) == AckCount(tr, OneRadar(rid))
  {
    if tr == [] {
    } else {
      AckCountsAre(tr[..|tr| - 1], rid);
    }
  }

  /** Per radar, the summary counts the ACKs of the trace exactly, and at least its RESPs as answered and received. */
  ghost predicate Counted(tr: seq<Event>, ackRecv: map<RadarId, nat>, ecuAckSent: map<RadarId, nat>,
                          respRecv: map<RadarId, nat>) {
    && ackRecv == AckCounts(tr)
    && (forall rid :: RespCount(tr, OneRadar(rid)) <= GetOr(ecuAckSent, rid, 0) <= GetOr(respRecv, rid, 0))
  }

  lemma {:induction false} CountsSnoc(tr: seq<Event>, e: Event, sel: Selection)
    ensures AckCount(tr + [e], sel) == AckCount(tr, sel) + if e.Ack? && Selects(sel, e.key) then 1 else 0
    ensures RespCount(tr + [e], sel) == RespCount(tr, sel) + if e.Resp? && Selects(sel, e.key) then 1 else 0
    ensures FinalizeCount(tr + [e], sel) == FinalizeCount(tr, sel) + if e.Finalize? && Selects(sel, e.key) then 1 else 0
  {
    assert (tr + [e])[..|tr|] == tr;
  }

  /** Storing an ACK counts it; a RESP must have been counted before it is stored; other events are not counted. */
  lemma {:induction false} CountedSnoc(tr: seq<Event>, e: Event, ackRecv: map<RadarId, nat>,
                                       ecuAckSent: map<RadarId, nat>, respRecv: map<RadarId, nat>)
    requires Counted(tr, ackRecv, ecuAckSent, respRecv)
    requires e.Resp? ==> RespCount(tr, OneRadar(e.key.0)) < GetOr(ecuAckSent, e.key.0, 0)
    ensures Counted(tr + [e], if e.Ack? then OneMore(ackRecv, e.key.0) else ackRecv, ecuAckSent, respRecv)
  {
    assert (tr + [e])[..|tr|] == tr;
    forall rid
      ensures RespCount(tr + [e], OneRadar(rid)) <= GetOr(ecuAckSent, rid, 0) <= GetOr(respRecv, rid, 0)
    {
      CountsSnoc(tr, e, OneRadar(rid));
    }
  }

  // ----- Conservation -----

  /** The rows emitted, and the keys whose ACK, respectively RESP, waits in an entry. */
  datatype Ledger = Ledger(rows: seq<Row>, acked: set<Key>, responded: set<Key>)

  function Selected(keys: set<Key>, sel: Selection): set<Key> {
    set k | k in keys && Selects(sel, k)
  }

  /** What an event may do to the ledger: a row is paid for with the ACK and the RESP of the entry it closes. */
  ghost predicate Posts(l: Ledger, e: Event, l': Ledger) {
    match e
    case Record(_) => l' == l
    case Ack(k, _) => l'.rows == l.rows && l'.responded == l.responded && l'.acked <= l.acked + {k}
    case Resp(k, _, _, _, _) => l'.rows == l.rows && l'.acked == l.acked && l'.responded <= l.responded + {k}
    case Finalize(k) => l' == l || exists row :: Closing(l, k, row, l')
  }

  ghost predicate Closing(l: Ledger, k: Key, row: Row, l': Ledger) {
    && (row.rid, row.reqId) == k && k in l.acked && k in l.responded
    && l' == Ledger(l.rows + [row], l.acked - {k}, l.responded - {k})
  }

  lemma {:induction false} SelectedAdd(keys: set<Key>, keys': set<Key>, k: Key, sel: Selection)
    requires keys' <= keys + {k}
    ensures |Selected(keys', sel)| <= |Selected(keys, sel)| + if Selects(sel, k) then 1 else 0
  {
    SubsetSize(Selected(keys', sel), Selected(keys, sel) + if Selects(sel, k) then {k} else {});
  }

  lemma {:induction false} SelectedRemove(keys: set<Key>, k: Key, sel: Selection)
    requires k in keys
    ensures |Selected(keys - {k}, sel)| == |Selected(keys, sel)| - if Selects(sel, k) then 1 else 0
  {
    if Selects(sel, k) {
      assert Selected(keys, sel) == Selected(keys - {k}, sel) + {k};
    } else {
      assert Selected(keys, sel) == Selected(keys - {k}, sel);
    }
  }

  /** One event adds at most one to what is backed by ACKs (RESPs), and only an ACK (RESP) of the selection does. */
  lemma {:induction false} PostsBacked(l: Ledger, e: Event, l': Ledger, sel: Selection)
    requires Posts(l, e, l')
    ensures RowCount(l'.rows, sel) + |Selected(l'.acked, sel)|
         <= RowCount(l.rows, sel) + |Selected(l.acked, sel)| + if e.Ack? && Selects(sel, e.key) then 1 else 0
    ensures RowCount(l'.rows, sel) + |Selected(l'.responded, sel)|
         <= RowCount(l.rows, sel) + |Selected(l.responded, sel)| + if e.Resp? && Selects(sel, e.key) then 1 else 0
  {
    match e
    case Record(_) =>
    case Ack(k, _) => SelectedAdd(l.acked, l'.acked, k, sel);
    case Resp(k, _, _, _, _) => SelectedAdd(l.responded, l'.responded, k, sel);
    case Finalize(k) =>
      if l' != l {
        var row :| Closing(l, k, row, l');
        RowCountSnoc(l.rows, row, sel);
        SelectedRemove(l.acked, k, sel);
        SelectedRemove(l.responded, k, sel);
      }
  }

  // ----- Requests, stores and closes of one key -----

  predicate IsAck(e: Event, k: Key) {
    e.Ack? && e.key == k
  }

  predicate IsResp(e: Event, k: Key) {
    e.Resp? && e.key == k
  }

  predicate IsStore(e: Event, k: Key) {
    IsAck(e, k) || IsResp(e, k)
  }

  function Stores(tr: seq<Event>, k: Key): nat {
    AckCount(tr, OneKey(k)) + RespCount(tr, OneKey(k))
  }

  function Closes(tr: seq<Event>, k: Key): nat {
    FinalizeCount(tr, OneKey(k))
  }

  /** No callback tries to close a transaction before it stored its half. */
  ghost predicate ClosesAfterStores(tr: seq<Event>, k: Key) {
    forall n :: 0 <= n <= |tr| ==> Closes(tr[..n], k) <= Stores(tr[..n], k)
  }

  /** Every callback for `k` has run to its end. */
  predicate AtRest(tr: seq<Event>, k: Key) {
    Closes(tr, k) == Stores(tr, k)
  }

  /** The rows of one key, in order. */
  function RowsOfKey(rows: seq<Row>, k: Key): seq<Row> {
    if rows == [] then []
    else
      var last := rows[|rows| - 1];
      var rest := RowsOfKey(rows[..|rows| - 1], k);
      if (last.rid, last.reqId) == k then rest + [last] else rest
  }

  lemma {:induction false} RowsOfKeySnoc(rows: seq<Row>, row: Row, k: Key)
    ensures RowsOfKey(rows + [row], k)
         == if (row.rid, row.reqId) == k then RowsOfKey(rows, k) + [row] else RowsOfKey(rows, k)
  {
    assert (rows + [row])[..|rows|] == rows;
  }

  lemma {:induction false} RowsOfKeyCount(rows: seq<Row>, k: Key)
    ensures |RowsOfKey(rows, k)| == RowCount(rows, OneKey(k))
  {
    if rows == [] {
    } else {
      RowsOfKeyCount(rows[..|rows| - 1], k);
    }
  }

  /** The request the sender recorded last under an id. */
  function LatestRequest(tr: seq<Event>, id: u32): Option<Meta> {
    if tr == [] then None
    else
      var e := tr[|tr| - 1];
      if e.Record? && e.meta.d1 == id then Some(e.meta) else LatestRequest(tr[..|tr| - 1], id)
  }

  lemma {:induction false} LatestRequestSnoc(tr: seq<Event>, e: Event, id: u32)
    ensures LatestRequest(tr + [e], id) == if e.Record? && e.meta.d1 == id then Some(e.meta) else LatestRequest(tr, id)
  {
    assert (tr + [e])[..|tr|] == tr;
  }

  /** The sender recorded request `id` somewhere in the trace. */
  ghost predicate Recorded(tr: seq<Event>, id: u32) {
    exists i :: 0 <= i < |tr| && tr[i].Record? && tr[i].meta.d1 == id
  }

  lemma {:induction false} RecordedSnoc(tr: seq<Event>, e: Event, id: u32)
    ensures Recorded(tr + [e], id) <==> Recorded(tr, id) || (e.Record? && e.meta.d1 == id)
  {
    var tr' := tr + [e];
    if Recorded(tr, id) {
      var i :| 0 <= i < |tr| && tr[i].Record? && tr[i].meta.d1 == id;
      assert tr'[i] == tr[i];
    }
    assert tr'[|tr|] == e;
  }

  /** The sender recorded the request before some callback stored a half of `k`. */
  ghost predicate RecordedInTime(tr: seq<Event>, k: Key) {
    exists i, j :: 0 <= i < j < |tr| && tr[i].Record? && tr[i].meta.d1 == k.1 && IsStore(tr[j], k)
  }

  lemma {:induction false} RecordedInTimeSnoc(tr: seq<Event>, e: Event, k: Key)
    ensures RecordedInTime(tr + [e], k) <==> RecordedInTime(tr, k) || (IsStore(e, k) && Recorded(tr, k.1))
  {
    var tr' := tr + [e];
    assert tr'[|tr|] == e;
    assert forall i :: 0 <= i < |tr| ==> tr'[i] == tr[i];
    if RecordedInTime(tr, k) {
      var i, j :| 0 <= i < j < |tr| && tr[i].Record? && tr[i].meta.d1 == k.1 && IsStore(tr[j], k);
      assert tr'[i].Record? && IsStore(tr'[j], k);
    }
    if IsStore(e, k) && Recorded(tr, k.1) {
      var i :| 0 <= i < |tr| && tr[i].Record? && tr[i].meta.d1 == k.1;
      assert tr'[i].Record? && IsStore(tr'[|tr|], k);
    }
  }

  lemma {:induction false} LatestIsRecorded(tr: seq<Event>, id: u32)
    ensures LatestRequest(tr, id).Some? <==> Recorded(tr, id)
    ensures LatestRequest(tr, id).Some? ==>
              Record(LatestRequest(tr, id).value) in tr && LatestRequest(tr, id).value.d1 == id
  {
    if tr == [] {
    } else {
      var p, e := tr[..|tr| - 1], tr[|tr| - 1];
      assert p + [e] == tr;
      LatestIsRecorded(p, id);
      RecordedSnoc(p, e, id);
    }
  }

  lemma {:induction false} LatestPersists(tr: seq<Event>, i: nat, j: nat, id: u32)
    requires i <= j <= |tr|
    ensures LatestRequest(tr[..i], id).Some? ==> LatestRequest(tr[..j], id).Some?
  {
    LatestIsRecorded(tr[..i], id);
    LatestIsRecorded(tr[..j], id);
    if Recorded(tr[..i], id) {
      var n :| 0 <= n < i && tr[..i][n].Record? && tr[..i][n].meta.d1 == id;
      assert tr[..j][n] == tr[n] == tr[..i][n];
    }
  }

  // ----- One ACK and one RESP -----

  /** The only ACK and the only RESP of `k`. */
  ghost predicate OnlyHalves(tr: seq<Event>, k: Key, a: nat, r: nat) {
    && a < |tr| && r < |tr| && IsAck(tr[a], k) && IsResp(tr[r], k)
    && AckCount(tr, OneKey(k)) == 1 && RespCount(tr, OneKey(k)) == 1
  }

  lemma {:induction false} NoneCounted(tr: seq<Event>, k: Key, i: nat)
    requires i < |tr|
    ensures AckCount(tr, OneKey(k)) == 0 ==> !IsAck(tr[i], k)
    ensures RespCount(tr, OneKey(k)) == 0 ==> !IsResp(tr[i], k)
  {
    if i == |tr| - 1 {
    } else {
      NoneCounted(tr[..|tr| - 1], k, i);
    }
  }

  lemma {:induction false} OnlyOne(tr: seq<Event>, k: Key, i: nat, j: nat)
    requires i < j < |tr|
    ensures AckCount(tr, OneKey(k)) <= 1 ==> !(IsAck(tr[i], k) && IsAck(tr[j], k))
    ensures RespCount(tr, OneKey(k)) <= 1 ==> !(IsResp(tr[i], k) && IsResp(tr[j], k))
  {
    var p := tr[..|tr| - 1];
    if j < |p| {
      OnlyOne(p, k, i, j);
    } else {
      NoneCounted(p, k, i);
    }
  }

  lemma {:induction false} RecordedBeforeLater(tr: seq<Event>, k: Key, a: nat, r: nat)
    requires OnlyHalves(tr, k, a, r)
    ensures RecordedInTime(tr, k) <==> LatestRequest(tr[..if a < r then r else a], k.1).Some?
  {
    var later := if a < r then r else a;
    LatestIsRecorded(tr[..later], k.1);
    if RecordedInTime(tr, k) {
      var i, j :| 0 <= i < j < |tr| && tr[i].Record? && tr[i].meta.d1 == k.1 && IsStore(tr[j], k);
      if later < j {
        OnlyOne(tr, k, a, j);
        OnlyOne(tr, k, r, j);
      }
      assert tr[..later][i] == tr[i];
    }
    if Recorded(tr[..later], k.1) {
      var i :| 0 <= i < later && tr[..later][i].Record? && tr[..later][i].meta.d1 == k.1;
      assert tr[i].Record? && IsStore(tr[later], k);
    }
  }
}
