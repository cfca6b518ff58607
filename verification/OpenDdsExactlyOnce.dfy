/**
 What the OpenDDS joiner makes of one ACK and one RESP of a key, whatever requests the sender records under its id and
 whenever it does so: exactly when there is a row, and exactly what is in it.
 */
module OpenDdsExactlyOnce {
  import opened Common
  import opened Calibration
  import opened OpenDdsEcu
  import J = JoinOnce
  import Callbacks = CalibrationCallbacks

  function RowIfComplete(k: Key, t: Txn): Option<Row> {
    if Complete(t) then Some(RowOf(k, t)) else None
  }

  const RULES: J.Rules<Txn> := J.Rules(EMPTY_TXN, WithAck, WithResp, RowIfComplete)

  lemma {:induction false} TableHoldsLatest(tr: seq<Event>, id: u32)
    ensures Lookup(Run(tr).meta, id) == LatestRequest(tr, id)
  {
    if tr == [] {
    } else {
      TableHoldsLatest(tr[..|tr| - 1], id);
    }
  }

  /** The ECU keeps its tables by these rules. */
  lemma {:induction false} FollowsRules(tr: seq<Event>)
    ensures J.Run(RULES, tr) == J.Tables(Run(tr).pending, Run(tr).rows)
  {
    if tr == [] {
    } else {
      var p, e := tr[..|tr| - 1], tr[|tr| - 1];
      FollowsRules(p);
      if e.Ack? || e.Resp? {
        TableHoldsLatest(p, e.key.1);
      }
    }
  }

  lemma {:induction false} StampsNeedHalves(tr: seq<Event>, k: Key)
    ensures J.Joined(RULES, tr, k).ackTs != 0 ==> AckCount(tr, OneKey(k)) > 0
    ensures J.Joined(RULES, tr, k).respTs != 0 ==> RespCount(tr, OneKey(k)) > 0
  {
    if tr == [] {
    } else {
      StampsNeedHalves(tr[..|tr| - 1], k);
    }
  }

  lemma {:induction false} RulesAreSound(tr: seq<Event>, k: Key)
    ensures J.Sound(RULES, tr, k)
  {
    forall n | 0 <= n <= |tr|
      ensures J.NeedsHalves(RULES, tr[..n], k)
    {
      StampsNeedHalves(tr[..n], k);
    }
  }

  /** At rest, one ACK and one RESP have given their row if their joined entry is complete, and else wait in it. */
  lemma {:induction false} JoinsOnce(tr: seq<Event>, k: Key)
    requires ClosesAfterStores(tr, k) && AtRest(tr, k)
    requires AckCount(tr, OneKey(k)) == 1 && RespCount(tr, OneKey(k)) == 1
    ensures var s, t := Run(tr), J.Joined(RULES, tr, k);
            if Complete(t) then RowsOfKey(s.rows, k) == [RowOf(k, t)] && k !in s.pending
            else RowsOfKey(s.rows, k) == [] && k in s.pending && s.pending[k] == t
  {
    FollowsRules(tr);
    RulesAreSound(tr, k);
    J.JoinsOnce(RULES, tr, k);
  }

  // ----- The joined entry, read from the trace -----

  const NO_REQUEST := Meta(0, 0, 0, 0, 0)

  /**
   The request fields of the joined entry, given the requests the table held when the ACK and when the RESP was stored.
   The later store decides the words; a RESP that comes second leaves a send time that is already there.
   */
  function RequestFields(ackFirst: bool, atAck: Option<Meta>, atResp: Option<Meta>): Meta {
    if ackFirst then
      if atResp.None? then NO_REQUEST
      else if atAck.Some? && atAck.value.sendTs != 0 then atResp.value.(sendTs := atAck.value.sendTs)
      else atResp.value
    else if atAck.None? then NO_REQUEST
    else atAck.value
  }

  function EntryWith(m: Meta, ack: Event, resp: Event): Txn
    requires ack.Ack? && resp.Resp?
  {
    Txn(m.sendTs, ack.ts, resp.ts, resp.ecuTs, m.d1, m.d2, m.d3, m.d4, resp.c, resp.d)
  }

  lemma {:induction false} JoinedIs(tr: seq<Event>, k: Key, a: nat, r: nat)
    requires OnlyHalves(tr, k, a, r)
    ensures J.Joined(RULES, tr, k)
         == EntryWith(RequestFields(a < r, LatestRequest(tr[..a], k.1), LatestRequest(tr[..r], k.1)), tr[a], tr[r])
  {
    J.JoinedIs(RULES, tr, k, a, r);
    if a < r {
      LatestPersists(tr, a, r, k.1);
    } else {
      LatestPersists(tr, r, a, k.1);
    }
  }

  /** The request fields the two halves end up with. */
  function JoinedRequest(tr: seq<Event>, k: Key, a: nat, r: nat): Meta
    requires a < |tr| && r < |tr|
  {
    RequestFields(a < r, LatestRequest(tr[..a], k.1), LatestRequest(tr[..r], k.1))
  }

  /** None of the four stamps a row needs is zero. */
  predicate AllStamped(m: Meta, ack: Event, resp: Event)
    requires ack.Ack? && resp.Resp?
  {
    m.sendTs != 0 && ack.ts != 0 && resp.ts != 0 && resp.ecuTs != 0
  }

  /**
   With one ACK and one RESP processed for a key, at rest: if the four stamps are non-zero there is exactly one row, its
   fields are those of the two halves and of the requests in the table when they were stored, and no entry is left;
   otherwise there is no row and the entry stays.
   */
  lemma {:induction false} RowExactly(tr: seq<Event>, k: Key, a: nat, r: nat)
    requires ClosesAfterStores(tr, k) && AtRest(tr, k) && OnlyHalves(tr, k, a, r)
    ensures var m := JoinedRequest(tr, k, a, r);
            if AllStamped(m, tr[a], tr[r]) then
              && RowsOfKey(Run(tr).rows, k) == [RowOf(k, EntryWith(m, tr[a], tr[r]))]
              && k !in Run(tr).pending
            else
              RowsOfKey(Run(tr).rows, k) == [] && k in Run(tr).pending
  {
    JoinsOnce(tr, k);
    JoinedIs(tr, k, a, r);
  }

  /** The two halves were stored around a change of the request recorded under their id. */
  predicate SendTimeChanged(ackFirst: bool, atAck: Option<Meta>, atResp: Option<Meta>) {
    ackFirst && atAck.Some? && atAck.value.sendTs != 0 && atResp.Some? && atAck.value.sendTs != atResp.value.sendTs
  }

  function RequestOf(row: Row): Meta {
    Meta(row.sendTs, row.d1, row.d2, row.d3, row.d4)
  }

  /**
   The row carries the request that the table held at the later store, unless that is the RESP's and the ACK had found
   another send time, non-zero: then, and only then, the row has the send time of the one with the words of the other.
   */
  lemma {:induction false} MixesExactly(tr: seq<Event>, k: Key, a: nat, r: nat)
    requires ClosesAfterStores(tr, k) && AtRest(tr, k) && OnlyHalves(tr, k, a, r)
    requires RowsOfKey(Run(tr).rows, k) != []
    ensures var request := RequestOf(RowsOfKey(Run(tr).rows, k)[0]);
            var atAck, atResp := LatestRequest(tr[..a], k.1), LatestRequest(tr[..r], k.1);
            var later := if a < r then atResp else atAck;
            && later.Some?
            && (request == later.value <==> !SendTimeChanged(a < r, atAck, atResp))
            && (SendTimeChanged(a < r, atAck, atResp) ==> request == atResp.value.(sendTs := atAck.value.sendTs))
  {
    RowExactly(tr, k, a, r);
  }

  // ----- One send time per id -----

  ghost predicate SentAt(tr: seq<Event>, id: u32, ts: u32) {
    forall i :: 0 <= i < |tr| && tr[i].Record? && tr[i].meta.d1 == id ==> tr[i].meta.sendTs == ts
  }

  lemma {:induction false} LatestSentAt(tr: seq<Event>, n: nat, id: u32, ts: u32)
    requires SentAt(tr, id, ts) && n <= |tr| && LatestRequest(tr[..n], id).Some?
    ensures LatestRequest(tr[..n], id).value.sendTs == ts
  {
    LatestIsRecorded(tr[..n], id);
    var m := LatestRequest(tr[..n], id).value;
    var i :| 0 <= i < n && tr[..n][i] == Record(m);
    assert tr[i] == Record(m);
  }

  /**
   With one send time per id there is exactly one row and no entry if and only if the request was recorded before one of
   the halves was stored and the send time and the three stamps are non-zero; otherwise no row and a left-over entry.
   */
  lemma {:induction false} ExactlyOnce(tr: seq<Event>, k: Key, a: nat, r: nat, ts: u32)
    requires ClosesAfterStores(tr, k) && AtRest(tr, k) && OnlyHalves(tr, k, a, r) && SentAt(tr, k.1, ts)
    ensures RowCount(Run(tr).rows, OneKey(k)) == 1 && k !in Run(tr).pending
       <==> RecordedInTime(tr, k) && ts != 0 && tr[a].ts != 0 && tr[r].ts != 0 && tr[r].ecuTs != 0
    ensures || (RowCount(Run(tr).rows, OneKey(k)) == 1 && k !in Run(tr).pending)
            || (RowCount(Run(tr).rows, OneKey(k)) == 0 && k in Run(tr).pending)
  {
    RowExactly(tr, k, a, r);
    RowsOfKeyCount(Run(tr).rows, k);
    RecordedBeforeLater(tr, k, a, r);
    LatestPersists(tr, if a < r then a else r, if a < r then r else a, k.1);
    if LatestRequest(tr[..a], k.1).Some? {
      LatestSentAt(tr, a, k.1, ts);
    }
    if LatestRequest(tr[..r], k.1).Some? {
      LatestSentAt(tr, r, k.1, ts);
    }
  }

  /** In every interleaving of the callbacks with each other and with the sender. */
  lemma {:induction false} RowExactlyInEveryRun(schedule: seq<Callbacks.Action>, k: Key, a: nat, r: nat)
    requires Callbacks.HalfWayCount(Callbacks.Execute(schedule).callbacks, k) == 0
    requires OnlyHalves(Callbacks.Execute(schedule).trace, k, a, r)
    ensures var tr := Callbacks.Execute(schedule).trace;
            var m := JoinedRequest(tr, k, a, r);
            if AllStamped(m, tr[a], tr[r]) then
              && RowsOfKey(Run(tr).rows, k) == [RowOf(k, EntryWith(m, tr[a], tr[r]))]
              && k !in Run(tr).pending
            else
              RowsOfKey(Run(tr).rows, k) == [] && k in Run(tr).pending
  {
    Callbacks.CallbacksStoreFirst(schedule, k);
    RowExactly(Callbacks.Execute(schedule).trace, k, a, r);
  }
}
