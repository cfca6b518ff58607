/**
 A run of the OpenDDS system as a trace of the ECU's lock regions. What is known of traces holds of runs: rows are
 backed by messages taken, and a request that is handled once, with its ACK and its RESP each taken once, gives one
 timed row.
 */
module OpenDdsRuns {
  import opened Common
  import opened Calibration
  import opened Clock
  import opened OpenDdsEcu
  import P = OpenDdsProtocol
  import OpenDdsExactlyOnce

  /** The lock region an action passes through, if any. */
  function EventsOf(c: P.Config, s: P.System, a: P.Action): seq<Event>
    requires P.WellFormed(s) && P.Enabled(c, s, a)
  {
    match a
    case RecordMeta => [Record(P.MetaOf(s.sent[s.recorded]))]
    case TakeAckOf(h) => [Ack(P.KeyOf(s, h), Wire(s.handlers[h].ackMs))]
    case StoreAnswered =>
      var h := s.handlers[s.main.handler];
      [Resp(P.KeyOf(s, s.main.handler), Wire(h.respMs), h.c, h.d, Wire(s.main.ecuMs))]
    case Close => [Finalize(s.main.key)]
    case _ => []
  }

  function TraceOf(c: P.Config, s: P.System, schedule: seq<P.Action>): seq<Event>
    requires P.WellFormed(s)
    decreases |schedule|
  {
    if schedule == [] then []
    else if P.Enabled(c, s, schedule[0]) then
      EventsOf(c, s, schedule[0]) + TraceOf(c, P.Perform(c, s, schedule[0]), schedule[1..])
    else TraceOf(c, s, schedule[1..])
  }

  /** The key whose transaction the main loop is about to close has one store more than closes, the others have not. */
  ghost predicate Balanced(s: P.System, tr: seq<Event>, k: Key) {
    && ClosesAfterStores(tr, k)
    && Stores(tr, k) == Closes(tr, k) + if s.main == P.Closing(k) then 1 else 0
  }

  /** Every request recorded under the id is one that the sender made. */
  ghost predicate RecordsSent(s: P.System, tr: seq<Event>, id: u32) {
    forall n :: 0 <= n < |tr| && tr[n].Record? && tr[n].meta.d1 == id ==>
      exists i :: 0 <= i < |s.sent| && tr[n].meta == P.MetaOf(s.sent[i])
  }

  ghost predicate Traced(s: P.System, tr: seq<Event>, k: Key) {
    s.ecu == Run(tr) && Balanced(s, tr, k) && RecordsSent(s, tr, k.1)
  }

  lemma {:induction false} ClosesAfterStoresSnoc(tr: seq<Event>, e: Event, k: Key)
    requires ClosesAfterStores(tr, k) && Closes(tr + [e], k) <= Stores(tr + [e], k)
    ensures ClosesAfterStores(tr + [e], k)
  {
    forall n | 0 <= n <= |tr| + 1 ensures Closes((tr + [e])[..n], k) <= Stores((tr + [e])[..n], k) {
      assert (tr + [e])[..n] == if n <= |tr| then tr[..n] else tr + [e];
    }
  }

  lemma {:induction false} PerformRuns(c: P.Config, s: P.System, a: P.Action, tr: seq<Event>)
    requires P.WellFormed(s) && P.Enabled(c, s, a) && s.ecu == Run(tr)
    ensures P.Perform(c, s, a).ecu == Run(tr + EventsOf(c, s, a))
  {
    if EventsOf(c, s, a) == [] {
      assert tr + [] == tr;
    } else {
      RunSnoc(tr, EventsOf(c, s, a)[0]);
    }
  }

  lemma {:induction false} PerformBalanced(c: P.Config, s: P.System, a: P.Action, tr: seq<Event>, k: Key)
    requires P.WellFormed(s) && P.Enabled(c, s, a) && Balanced(s, tr, k)
    ensures Balanced(P.Perform(c, s, a), tr + EventsOf(c, s, a), k)
  {
    if EventsOf(c, s, a) == [] {
      assert tr + [] == tr;
    } else {
      CountsSnoc(tr, EventsOf(c, s, a)[0], OneKey(k));
      assert tr[..|tr|] == tr;
      ClosesAfterStoresSnoc(tr, EventsOf(c, s, a)[0], k);
    }
  }

  lemma {:induction false} PerformRecordsSent(c: P.Config, s: P.System, a: P.Action, tr: seq<Event>, id: u32)
    requires P.WellFormed(s) && P.Enabled(c, s, a) && RecordsSent(s, tr, id)
    ensures RecordsSent(P.Perform(c, s, a), tr + EventsOf(c, s, a), id)
  {
    var s', tr' := P.Perform(c, s, a), tr + EventsOf(c, s, a);
    P.PerformExtends(c, s, a);
    forall n | 0 <= n < |tr'| && tr'[n].Record? && tr'[n].meta.d1 == id
      ensures exists i :: 0 <= i < |s'.sent| && tr'[n].meta == P.MetaOf(s'.sent[i])
    {
      if n < |tr| {
        var i :| 0 <= i < |s.sent| && tr[n].meta == P.MetaOf(s.sent[i]);
        assert s'.sent[..|s.sent|][i] == s'.sent[i];
      } else {
        assert tr'[n].meta == P.MetaOf(s'.sent[s.recorded]);
      }
    }
  }

  lemma {:induction false} PerformTraced(c: P.Config, s: P.System, a: P.Action, tr: seq<Event>, k: Key)
    requires P.WellFormed(s) && P.Enabled(c, s, a) && Traced(s, tr, k)
    ensures P.WellFormed(P.Perform(c, s, a)) && Traced(P.Perform(c, s, a), tr + EventsOf(c, s, a), k)
  {
    P.PerformExtends(c, s, a);
    PerformRuns(c, s, a, tr);
    PerformBalanced(c, s, a, tr, k);
    PerformRecordsSent(c, s, a, tr, k.1);
  }

  lemma {:induction false} ExecuteTraced(c: P.Config, s: P.System, schedule: seq<P.Action>, tr: seq<Event>, k: Key)
    requires P.WellFormed(s) && Traced(s, tr, k)
    ensures Traced(P.Execute(c, s, schedule), tr + TraceOf(c, s, schedule), k)
    decreases |schedule|
  {
    if schedule == [] {
      assert tr + [] == tr;
    } else if P.Enabled(c, s, schedule[0]) {
      var a, rest := schedule[0], schedule[1..];
      var s', events := P.Perform(c, s, a), EventsOf(c, s, a);
      PerformTraced(c, s, a, tr, k);
      ExecuteTraced(c, s', rest, tr + events, k);
      assert tr + (events + TraceOf(c, s', rest)) == tr + events + TraceOf(c, s', rest);
    } else {
      ExecuteTraced(c, s, schedule[1..], tr, k);
    }
  }

  /**
   Every run is one of the ECU's traces: no transaction is closed before it stored its half, and a key is at rest unless
   the main loop is about to close it.
   */
  lemma {:induction false} RunsAreTraces(c: P.Config, startNs: nat, schedule: seq<P.Action>, k: Key)
    ensures var s, tr := P.Execute(c, P.Boot(startNs), schedule), TraceOf(c, P.Boot(startNs), schedule);
            && s.ecu == Run(tr) && ClosesAfterStores(tr, k) && RecordsSent(s, tr, k.1)
            && (AtRest(tr, k) <==> s.main != P.Closing(k))
  {
    var tr := TraceOf(c, P.Boot(startNs), schedule);
    ExecuteTraced(c, P.Boot(startNs), schedule, [], k);
    assert [] + tr == tr;
  }

  /** Conservation in every run of the distributed system. */
  lemma {:induction false} RunsAreBacked(c: P.Config, startNs: nat, schedule: seq<P.Action>, sel: Selection)
    ensures var s, tr := P.Execute(c, P.Boot(startNs), schedule), TraceOf(c, P.Boot(startNs), schedule);
            && RowCount(s.ecu.rows, sel) + |Selected(AckedKeys(s.ecu), sel)| <= AckCount(tr, sel)
            && RowCount(s.ecu.rows, sel) + |Selected(RespondedKeys(s.ecu), sel)| <= RespCount(tr, sel)
  {
    RunsAreTraces(c, startNs, schedule, ("", 0));
    RowsBackedByMessages(TraceOf(c, P.Boot(startNs), schedule), sel);
  }

  /** With a unique request id the table never holds another send time under it. */
  lemma {:induction false} UniqueIsSentAt(s: P.System, tr: seq<Event>, i: nat)
    requires i < |s.sent| && RecordsSent(s, tr, s.sent[i].d1) && P.UniqueId(s, s.sent[i].d1)
    ensures OpenDdsExactlyOnce.SentAt(tr, s.sent[i].d1, Wire(s.sent[i].ms))
  {
    forall n | 0 <= n < |tr| && tr[n].Record? && tr[n].meta.d1 == s.sent[i].d1
      ensures tr[n].meta.sendTs == Wire(s.sent[i].ms)
    {
      var j :| 0 <= j < |s.sent| && tr[n].meta == P.MetaOf(s.sent[j]);
    }
  }

  /** The request was recorded before one of its halves was stored, and neither it nor they bear a zero stamp. */
  ghost predicate InTimeAndStamped(tr: seq<Event>, k: Key, sendTs: u32, a: nat, r: nat)
    requires a < |tr| && r < |tr| && tr[a].Ack? && tr[r].Resp?
  {
    RecordedInTime(tr, k) && sendTs != 0 && tr[a].ts != 0 && tr[r].ts != 0 && tr[r].ecuTs != 0
  }

  /**
   Request `i` has a unique id, and of one radar the ECU took one ACK and one RESP for it. Once the main loop is not
   about to close the transaction there is one row if the request was recorded in time and none of the four stamps is
   zero, and else there is none and the entry stays.
   */
  lemma {:induction false} RunsJoinOnce(c: P.Config, startNs: nat, schedule: seq<P.Action>, rid: RadarId, i: nat,
                                        a: nat, r: nat)
    requires var s, tr := P.Execute(c, P.Boot(startNs), schedule), TraceOf(c, P.Boot(startNs), schedule);
             && i < |s.sent| && P.UniqueId(s, s.sent[i].d1) && s.main != P.Closing((rid, s.sent[i].d1))
             && OnlyHalves(tr, (rid, s.sent[i].d1), a, r)
    ensures var s, tr := P.Execute(c, P.Boot(startNs), schedule), TraceOf(c, P.Boot(startNs), schedule);
            var k := (rid, s.sent[i].d1);
            if InTimeAndStamped(tr, k, Wire(s.sent[i].ms), a, r) then
              RowCount(s.ecu.rows, OneKey(k)) == 1 && k !in s.ecu.pending
            else
              RowCount(s.ecu.rows, OneKey(k)) == 0 && k in s.ecu.pending
  {
    var s, tr := P.Execute(c, P.Boot(startNs), schedule), TraceOf(c, P.Boot(startNs), schedule);
    var k := (rid, s.sent[i].d1);
    RunsAreTraces(c, startNs, schedule, k);
    UniqueIsSentAt(s, tr, i);
    OpenDdsExactlyOnce.ExactlyOnce(tr, k, a, r, Wire(s.sent[i].ms));
  }

  lemma {:induction false} RowOfOneKey(rows: seq<Row>, k: Key) returns (row: Row)
    requires RowCount(rows, OneKey(k)) == 1
    ensures RowsOfKey(rows, k) == [row] && row in rows && (row.rid, row.reqId) == k
  {
    var last := rows[|rows| - 1];
    if (last.rid, last.reqId) == k {
      row := last;
      RowsOfKeyCount(rows[..|rows| - 1], k);
    } else {
      row := RowOfOneKey(rows[..|rows| - 1], k);
    }
  }

  /** The row that request `i` and its only handler `h` deserve, answered at `ecuMs`, with the true latencies. */
  predicate TimedRow(c: P.Config, s: P.System, row: Row, rid: RadarId, i: nat, h: nat, ecuMs: nat) {
    && i < |s.sent| && h < |s.handlers| && s.handlers[h].rid == rid && s.handlers[h].request == i
    && var request, handler := s.sent[i], s.handlers[h];
    && row == Row(rid, request.d1, Wire(request.ms), Wire(handler.ackMs), Wire(handler.respMs), Wire(ecuMs),
                  request.d1, request.d2, request.d3, request.d4, handler.c, handler.d)
    && P.L1(row) == Some(handler.ackMs - request.ms) && request.ms <= handler.ackMs
    && P.L2(row) == Some(handler.respMs - handler.ackMs) && handler.ackMs + c.Lo() <= handler.respMs
    && P.L3(row) == Some(ecuMs - handler.respMs) && handler.respMs <= ecuMs
  }

  /** If the radar handled that request once, a row shows the times of its handler. */
  lemma {:induction false} HandledOnceTimed(c: P.Config, startNs: nat, schedule: seq<P.Action>, row: Row, i: nat)
    returns (h: nat, ecuMs: nat)
    requires var s := P.Execute(c, P.Boot(startNs), schedule);
             && row in s.ecu.rows && i < |s.sent| && row.reqId == s.sent[i].d1 && P.UniqueId(s, row.reqId)
             && P.HandledOnce(s, (row.rid, row.reqId)) && P.WithinSignWindow(startNs, s)
    ensures TimedRow(c, P.Execute(c, P.Boot(startNs), schedule), row, row.rid, i, h, ecuMs)
  {
    var s := P.Execute(c, P.Boot(startNs), schedule);
    var j, g;
    j, g, h, ecuMs := P.RunExplains(c, startNs, schedule, row);
    P.LatenciesAre(row, Ms(startNs), Ms(s.now), s.sent[j].ms, s.handlers[h].ackMs, s.handlers[h].respMs, ecuMs);
  }

  /**
   Delivered once: if the radar also handled that request once, then in one sign window the one row there is shows the
   true latencies of that handler, the middle one at least the minimum work time.
   */
  lemma {:induction false} DeliveredOnce(c: P.Config, startNs: nat, schedule: seq<P.Action>, rid: RadarId, i: nat,
                                         a: nat, r: nat)
    requires var s, tr := P.Execute(c, P.Boot(startNs), schedule), TraceOf(c, P.Boot(startNs), schedule);
             && i < |s.sent| && P.UniqueId(s, s.sent[i].d1) && s.main != P.Closing((rid, s.sent[i].d1))
             && OnlyHalves(tr, (rid, s.sent[i].d1), a, r)
             && P.HandledOnce(s, (rid, s.sent[i].d1)) && P.WithinSignWindow(startNs, s)
    ensures var s, tr := P.Execute(c, P.Boot(startNs), schedule), TraceOf(c, P.Boot(startNs), schedule);
            var k := (rid, s.sent[i].d1);
            if InTimeAndStamped(tr, k, Wire(s.sent[i].ms), a, r) then
              exists row, h, ecuMs :: RowsOfKey(s.ecu.rows, k) == [row] && TimedRow(c, s, row, rid, i, h, ecuMs)
            else
              RowsOfKey(s.ecu.rows, k) == [] && k in s.ecu.pending
  {
    var s := P.Execute(c, P.Boot(startNs), schedule);
    var k := (rid, s.sent[i].d1);
    RunsJoinOnce(c, startNs, schedule, rid, i, a, r);
    RowsOfKeyCount(s.ecu.rows, k);
    if RowCount(s.ecu.rows, OneKey(k)) == 1 {
      var row := RowOfOneKey(s.ecu.rows, k);
      var h, ecuMs := HandledOnceTimed(c, startNs, schedule, row, i);
    }
  }

  // ----- What was made, delivered and waited for -----

  /** The actions of a schedule that are enabled when their turn comes. */
  function Performed(c: P.Config, s: P.System, schedule: seq<P.Action>): seq<P.Action>
    requires P.WellFormed(s)
    decreases |schedule|
  {
    if schedule == [] then []
    else if P.Enabled(c, s, schedule[0]) then
      [schedule[0]] + Performed(c, P.Perform(c, s, schedule[0]), schedule[1..])
    else Performed(c, s, schedule[1..])
  }

  /** The radars and requests of the deliveries among them. */
  function Deliveries(actions: seq<P.Action>): seq<(RadarId, nat)> {
    if actions == [] then []
    else
      var a, rest := actions[|actions| - 1], Deliveries(actions[..|actions| - 1]);
      if a.Deliver? then rest + [(a.rid, a.request)] else rest
  }

  /** The words of the requests made. */
  function Made(actions: seq<P.Action>): seq<Words> {
    if actions == [] then []
    else
      var a, rest := actions[|actions| - 1], Made(actions[..|actions| - 1]);
      if a.StampRequest? then rest + [Words(a.d1, a.d2, a.d3, a.d4)] else rest
  }

  /** How long the clock ran. */
  function Elapsed(actions: seq<P.Action>): nat {
    if actions == [] then 0
    else
      var a, rest := actions[|actions| - 1], Elapsed(actions[..|actions| - 1]);
      if a.Tick? then rest + a.ns else rest
  }

  function Served(handlers: seq<P.Handler>): seq<(RadarId, nat)> {
    seq(|handlers|, h requires 0 <= h < |handlers| => (handlers[h].rid, handlers[h].request))
  }

  function WordsOf(sent: seq<P.Request>): seq<Words> {
    seq(|sent|, i requires 0 <= i < |sent| => Words(sent[i].d1, sent[i].d2, sent[i].d3, sent[i].d4))
  }

  /** The system is as these actions, performed from boot on, have made it. */
  ghost predicate Accords(startNs: nat, s: P.System, done: seq<P.Action>) {
    && Served(s.handlers) == Deliveries(done)
    && WordsOf(s.sent) == Made(done)
    && s.now == startNs + Elapsed(done)
  }

  lemma {:induction false} PerformAccords(c: P.Config, startNs: nat, s: P.System, a: P.Action, done: seq<P.Action>)
    requires P.WellFormed(s) && P.Enabled(c, s, a) && Accords(startNs, s, done)
    ensures P.WellFormed(P.Perform(c, s, a)) && Accords(startNs, P.Perform(c, s, a), done + [a])
  {
    var s' := P.Perform(c, s, a);
    P.PerformExtends(c, s, a);
    assert (done + [a])[..|done|] == done;
    assert Served(s'.handlers) == if a.Deliver? then Served(s.handlers) + [(a.rid, a.request)] else Served(s.handlers);
  }

  lemma {:induction false} ExecuteAccords(c: P.Config, startNs: nat, s: P.System, schedule: seq<P.Action>,
                                          done: seq<P.Action>)
    requires P.WellFormed(s) && Accords(startNs, s, done)
    ensures Accords(startNs, P.Execute(c, s, schedule), done + Performed(c, s, schedule))
    decreases |schedule|
  {
    if schedule == [] {
      assert done + [] == done;
    } else if P.Enabled(c, s, schedule[0]) {
      var a, rest := schedule[0], schedule[1..];
      var s' := P.Perform(c, s, a);
      PerformAccords(c, startNs, s, a, done);
      ExecuteAccords(c, startNs, s', rest, done + [a]);
      assert done + ([a] + Performed(c, s', rest)) == done + [a] + Performed(c, s', rest);
    } else {
      ExecuteAccords(c, startNs, s, schedule[1..], done);
    }
  }

  /**
   In every run there is one handler for each delivery, in order, and it serves the request that was delivered to its
   radar; the requests are those made, and the clock has run as long as it was let run.
   */
  lemma {:induction false} RunsServeDeliveries(c: P.Config, startNs: nat, schedule: seq<P.Action>)
    ensures var s, done := P.Execute(c, P.Boot(startNs), schedule), Performed(c, P.Boot(startNs), schedule);
            && Served(s.handlers) == Deliveries(done)
            && WordsOf(s.sent) == Made(done)
            && s.now == startNs + Elapsed(done)
  {
    var done := Performed(c, P.Boot(startNs), schedule);
    ExecuteAccords(c, startNs, P.Boot(startNs), schedule, []);
    assert [] + done == done;
  }
}
