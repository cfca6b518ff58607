/**
 What both joiners make of a request, one ACK and one RESP, told from the schedule of publications, deliveries and steps
 alone: which messages were delivered decides what is in the row, and whether the sender had recorded the request by
 the time a callback stored its half decides whether there is one.
 */
module DeliveredOnce {
  import opened Common
  import opened Calibration
  import Callbacks = CalibrationCallbacks
  import O = OpenDdsEcu
  import OpenDdsExactlyOnce
  import Z = ZenohEcu
  import ZenohExactlyOnce

  lemma {:induction false} AckPosition(tr: seq<Event>, k: Key) returns (i: nat)
    requires AckCount(tr, OneKey(k)) > 0
    ensures i < |tr| && IsAck(tr[i], k)
  {
    i := |tr| - 1;
    if !IsAck(tr[i], k) {
      i := AckPosition(tr[..i], k);
    }
  }

  lemma {:induction false} RespPosition(tr: seq<Event>, k: Key) returns (i: nat)
    requires RespCount(tr, OneKey(k)) > 0
    ensures i < |tr| && IsResp(tr[i], k)
  {
    i := |tr| - 1;
    if !IsResp(tr[i], k) {
      i := RespPosition(tr[..i], k);
    }
  }

  lemma {:induction false} OnlyAck(events: seq<Event>, k: Key, e: Event, e': Event)
    requires AckCount(events, OneKey(k)) == 1 && e in events && e' in events && IsAck(e, k) && IsAck(e', k)
    ensures e == e'
  {
    var i, j :| 0 <= i < |events| && 0 <= j < |events| && events[i] == e && events[j] == e';
    if i < j {
      OnlyOne(events, k, i, j);
    } else if j < i {
      OnlyOne(events, k, j, i);
    }
  }

  lemma {:induction false} OnlyResp(events: seq<Event>, k: Key, e: Event, e': Event)
    requires RespCount(events, OneKey(k)) == 1 && e in events && e' in events && IsResp(e, k) && IsResp(e', k)
    ensures e == e'
  {
    var i, j :| 0 <= i < |events| && 0 <= j < |events| && events[i] == e && events[j] == e';
    if i < j {
      OnlyOne(events, k, i, j);
    } else if j < i {
      OnlyOne(events, k, j, i);
    }
  }

  /** One ACK and one RESP of `k` were delivered, these, and every callback for `k` has ended. */
  ghost predicate OnlyDelivered(schedule: seq<Callbacks.Action>, k: Key, ack: Event, resp: Event) {
    var delivered := Callbacks.Delivered(schedule);
    && Callbacks.Settled(Callbacks.Execute(schedule), k)
    && AckCount(delivered, OneKey(k)) == 1 && ack in delivered && IsAck(ack, k)
    && RespCount(delivered, OneKey(k)) == 1 && resp in delivered && IsResp(resp, k)
  }

  /** Their positions in the trace. */
  lemma {:induction false} DeliveredPositions(schedule: seq<Callbacks.Action>, k: Key, ack: Event, resp: Event)
    returns (a: nat, r: nat)
    requires OnlyDelivered(schedule, k, ack, resp)
    ensures var tr := Callbacks.Execute(schedule).trace;
            && ClosesAfterStores(tr, k) && AtRest(tr, k)
            && OnlyHalves(tr, k, a, r) && tr[a] == ack && tr[r] == resp
  {
    var tr := Callbacks.Execute(schedule).trace;
    Callbacks.SettledCounts(schedule, k);
    a := AckPosition(tr, k);
    r := RespPosition(tr, k);
    Callbacks.TraceWasDelivered(schedule, a);
    Callbacks.TraceWasDelivered(schedule, r);
    OnlyAck(Callbacks.Delivered(schedule), k, tr[a], ack);
    OnlyResp(Callbacks.Delivered(schedule), k, tr[r], resp);
  }

  /** The sender published no other request under this one's id. */
  ghost predicate OnlyRequest(published: seq<Meta>, m: Meta) {
    forall j :: 0 <= j < |published| && published[j].d1 == m.d1 ==> published[j] == m
  }

  lemma {:induction false} RecordIsThere(tr: seq<Event>, i: nat)
    requires i < |tr| && tr[i].Record?
    ensures tr[i].meta in Callbacks.RecordsIn(tr)
  {
    if i < |tr| - 1 {
      RecordIsThere(tr[..|tr| - 1], i);
    } else {
    }
  }

  /** Whatever the table holds under that id, it is this request. */
  lemma {:induction false} LatestIsOnly(schedule: seq<Callbacks.Action>, n: nat, m: Meta)
    requires n <= |Callbacks.Execute(schedule).trace| && OnlyRequest(Callbacks.Execute(schedule).published, m)
    ensures var latest := LatestRequest(Callbacks.Execute(schedule).trace[..n], m.d1);
            latest.Some? ==> latest.value == m
  {
    var s := Callbacks.Execute(schedule);
    var tr := s.trace;
    LatestIsRecorded(tr[..n], m.d1);
    Callbacks.TraceIsHistory(schedule);
    if LatestRequest(tr[..n], m.d1).Some? {
      var i :| 0 <= i < n && tr[..n][i] == Record(LatestRequest(tr[..n], m.d1).value);
      RecordIsThere(tr, i);
      assert tr[i].meta in s.published[..s.recorded];
    }
  }

  /** The row of a request, its ACK and its RESP. */
  function JoinedRow(k: Key, m: Meta, ack: Event, resp: Event): Row
    requires ack.Ack? && resp.Resp?
  {
    Row(k.0, k.1, m.sendTs, ack.ts, resp.ts, resp.ecuTs, m.d1, m.d2, m.d3, m.d4, resp.c, resp.d)
  }

  /**
   The Zenoh ECU has exactly the row of these three if one of the two messages was stored after the sender had recorded
   the request, and none otherwise.
   */
  lemma {:induction false} ZenohRow(schedule: seq<Callbacks.Action>, k: Key, m: Meta, ack: Event, resp: Event)
    requires OnlyDelivered(schedule, k, ack, resp)
    requires m.d1 == k.1 && OnlyRequest(Callbacks.Execute(schedule).published, m)
    ensures RowsOfKey(Z.Run(Callbacks.Execute(schedule).trace).rows, k)
         == if Callbacks.StoredInTime(schedule, k) then [JoinedRow(k, m, ack, resp)] else []
  {
    var tr := Callbacks.Execute(schedule).trace;
    var a, r := DeliveredPositions(schedule, k, ack, resp);
    ZenohExactlyOnce.RowExactly(tr, k, a, r);
    RecordedBeforeLater(tr, k, a, r);
    Callbacks.InTimeIsInTime(schedule, k);
    LatestIsOnly(schedule, a, m);
    LatestIsOnly(schedule, r, m);
    LatestPersists(tr, if a < r then a else r, if a < r then r else a, k.1);
  }

  /** The OpenDDS ECU has it only if, besides, none of the four stamps is zero. */
  lemma {:induction false} OpenDdsRow(schedule: seq<Callbacks.Action>, k: Key, m: Meta, ack: Event, resp: Event)
    requires OnlyDelivered(schedule, k, ack, resp)
    requires m.d1 == k.1 && OnlyRequest(Callbacks.Execute(schedule).published, m)
    ensures var stamped := m.sendTs != 0 && ack.ts != 0 && resp.ts != 0 && resp.ecuTs != 0;
            RowsOfKey(O.Run(Callbacks.Execute(schedule).trace).rows, k)
            == if Callbacks.StoredInTime(schedule, k) && stamped then [JoinedRow(k, m, ack, resp)] else []
  {
    var tr := Callbacks.Execute(schedule).trace;
    var a, r := DeliveredPositions(schedule, k, ack, resp);
    OpenDdsExactlyOnce.RowExactly(tr, k, a, r);
    RecordedBeforeLater(tr, k, a, r);
    Callbacks.InTimeIsInTime(schedule, k);
    LatestIsOnly(schedule, a, m);
    LatestIsOnly(schedule, r, m);
  }
}
