/**
 What the OpenDDS system can do: any deliveries of any requests can be joined in one run, and a row that one handler
 served can occur within one sign window exactly if its latencies look causal.
 */
module OpenDdsReachability {
  import opened Common
  import opened Calibration
  import opened Clock
  import opened OpenDdsEcu
  import opened OpenDdsProtocol
  import OpenDdsRuns

  /** Nothing is under way in the ECU, and all requests made are recorded. */
  predicate Quiet(s: System) {
    WellFormed(s) && s.main == Idle && s.recorded == |s.sent| && s.ecu.pending == map[]
  }

  function RequestAt(w: Words, ms: nat): Request {
    Request(w.d1, w.d2, w.d3, w.d4, ms)
  }

  /** The system with one more request, sent and recorded. */
  function WithRequest(s: System, r: Request): System {
    s.(sent := s.sent + [r], published := s.published + 1, recorded := s.recorded + 1,
       ecu := s.ecu.(meta := s.ecu.meta[r.d1 := MetaOf(r)]))
  }

  lemma {:induction false} RequestSent(c: Config, start: System, schedule: seq<Action>, s: System, w: Words)
    returns (schedule': seq<Action>, s': System)
    requires WellFormed(start) && s == Execute(c, start, schedule) && Quiet(s)
    ensures s' == Execute(c, start, schedule') == WithRequest(s, RequestAt(w, Ms(s.now))) && Quiet(s')
  {
    schedule', s' := Then(c, start, schedule, s, StampRequest(w.d1, w.d2, w.d3, w.d4));
    schedule', s' := Then(c, start, schedule', s', PublishRequest);
    schedule', s' := Then(c, start, schedule', s', RecordMeta);
  }

  // ----- One transaction -----

  /** What one handler does: when it stamps its ACK and its RESP, with which words, and when the ECU answers. */
  datatype Service = Service(rid: RadarId, request: nat, ackMs: nat, respMs: nat, c: u32, d: u32, ecuMs: nat)

  /** The request is in the table, and the times follow each other with the work in between, none of them stamped 0. */
  predicate Serves(c: Config, s: System, v: Service) {
    && v.request < |s.sent| && s.sent[v.request].d1 in s.ecu.meta
    && s.ecu.meta[s.sent[v.request].d1] == MetaOf(s.sent[v.request])
    && s.now <= v.ackMs * NS_PER_MS && v.ackMs + c.Lo() <= v.respMs <= v.ecuMs
    && Wire(s.sent[v.request].ms) != 0 && Wire(v.ackMs) != 0 && Wire(v.respMs) != 0 && Wire(v.ecuMs) != 0
  }

  function AckedHandler(v: Service): Handler {
    Handler(v.rid, v.request, AckSent, v.ackMs, 0, 0, 0, 0)
  }

  function DoneHandler(c: Config, v: Service): Handler {
    Handler(v.rid, v.request, RespSent, v.ackMs, (v.ackMs + c.Lo()) * NS_PER_MS, v.respMs, v.c, v.d)
  }

  function RowFor(r: Request, v: Service): Row {
    Row(v.rid, r.d1, Wire(r.ms), Wire(v.ackMs), Wire(v.respMs), Wire(v.ecuMs), r.d1, r.d2, r.d3, r.d4, v.c, v.d)
  }

  /** The system once the ACK has been taken. */
  function Acked(s: System, v: Service): System
    requires v.request < |s.sent|
  {
    var r := s.sent[v.request];
    var t := Txn(Wire(r.ms), Wire(v.ackMs), 0, 0, r.d1, r.d2, r.d3, r.d4, 0, 0);
    s.(now := v.ackMs * NS_PER_MS, handlers := s.handlers + [AckedHandler(v)],
       ecu := s.ecu.(pending := map[(v.rid, r.d1) := t]))
  }

  /** The request is delivered and acknowledged. */
  lemma {:induction false} AckGiven(c: Config, start: System, schedule: seq<Action>, s: System, v: Service)
    returns (schedule': seq<Action>, s': System)
    requires WellFormed(start) && s == Execute(c, start, schedule) && Quiet(s) && Serves(c, s, v)
    ensures s' == Execute(c, start, schedule')
    ensures s' == s.(now := v.ackMs * NS_PER_MS, handlers := s.handlers + [AckedHandler(v)])
  {
    var h := |s.handlers|;
    schedule', s' := Then(c, start, schedule, s, Tick(v.ackMs * NS_PER_MS - s.now));
    schedule', s' := Then(c, start, schedule', s', Deliver(v.rid, v.request));
    assert s'.handlers == s.handlers + [Handler(v.rid, v.request, Started, 0, 0, 0, 0, 0)];
    schedule', s' := Then(c, start, schedule', s', StampAck(h));
    assert s'.handlers == s.handlers + [AckedHandler(v).(pc := AckStamped)];
    schedule', s' := Then(c, start, schedule', s', SendAck(h));
    assert s'.handlers == s.handlers + [AckedHandler(v)];
  }

  lemma {:induction false} AckTaken(c: Config, start: System, schedule: seq<Action>, s: System, v: Service)
    returns (schedule': seq<Action>, s': System)
    requires WellFormed(start) && s == Execute(c, start, schedule) && Quiet(s) && Serves(c, s, v)
    ensures s' == Execute(c, start, schedule') == Acked(s, v)
  {
    schedule', s' := AckGiven(c, start, schedule, s, v);
    schedule', s' := Then(c, start, schedule', s', TakeAckOf(|s.handlers|));
    schedule', s' := Then(c, start, schedule', s', Close);
  }

  /** The system once the RESP has been sent. */
  function Responded(c: Config, s: System, v: Service): System
    requires v.request < |s.sent|
  {
    Acked(s, v).(now := v.respMs * NS_PER_MS, handlers := s.handlers + [DoneHandler(c, v)])
  }

  lemma {:induction false} RespGiven(c: Config, start: System, schedule: seq<Action>, s: System, v: Service)
    returns (schedule': seq<Action>, s': System)
    requires WellFormed(start) && Quiet(s) && Serves(c, s, v) && Execute(c, start, schedule) == Acked(s, v)
    ensures s' == Execute(c, start, schedule') == Responded(c, s, v)
  {
    var h := |s.handlers|;
    schedule', s' := schedule, Acked(s, v);
    schedule', s' := Then(c, start, schedule', s', StartWork(h, c.Lo()));
    var working := AckedHandler(v).(pc := Working, wakeNs := (v.ackMs + c.Lo()) * NS_PER_MS);
    assert s'.handlers == s.handlers + [working];
    schedule', s' := Then(c, start, schedule', s', Tick((v.respMs - v.ackMs) * NS_PER_MS));
    schedule', s' := Then(c, start, schedule', s', StampResp(h, v.c, v.d));
    assert s'.handlers == s.handlers + [DoneHandler(c, v).(pc := RespStamped)];
    schedule', s' := Then(c, start, schedule', s', SendResp(h));
    assert s'.handlers == s.handlers + [DoneHandler(c, v)];
  }

  /** The system after the whole transaction. */
  function Joined(c: Config, s: System, v: Service): System
    requires v.request < |s.sent|
  {
    s.(now := v.ecuMs * NS_PER_MS, handlers := s.handlers + [DoneHandler(c, v)],
       ecu := s.ecu.(rows := s.ecu.rows + [RowFor(s.sent[v.request], v)]))
  }

  /** The entry once the RESP has been stored. */
  function Filled(r: Request, v: Service): Txn {
    Txn(Wire(r.ms), Wire(v.ackMs), Wire(v.respMs), Wire(v.ecuMs), r.d1, r.d2, r.d3, r.d4, v.c, v.d)
  }

  /** The system once it has been answered and stored. */
  function Stored(c: Config, s: System, v: Service): System
    requires v.request < |s.sent|
  {
    var r := s.sent[v.request];
    Responded(c, s, v).(now := v.ecuMs * NS_PER_MS, main := Closing((v.rid, r.d1)),
                        ecu := s.ecu.(pending := map[(v.rid, r.d1) := Filled(r, v)]))
  }

  lemma {:induction false} RespStored(c: Config, start: System, schedule: seq<Action>, s: System, v: Service)
    returns (schedule': seq<Action>, s': System)
    requires WellFormed(start) && Quiet(s) && Serves(c, s, v) && Execute(c, start, schedule) == Responded(c, s, v)
    ensures s' == Execute(c, start, schedule') == Stored(c, s, v)
  {
    schedule', s' := schedule, Responded(c, s, v);
    schedule', s' := Then(c, start, schedule', s', Tick((v.ecuMs - v.respMs) * NS_PER_MS));
    schedule', s' := Then(c, start, schedule', s', AnswerRespOf(|s.handlers|));
    assert s' == Responded(c, s, v).(now := v.ecuMs * NS_PER_MS, main := Answered(|s.handlers|, v.ecuMs));
    schedule', s' := Then(c, start, schedule', s', StoreAnswered);
    assert s'.ecu.pending == map[(v.rid, s.sent[v.request].d1) := Filled(s.sent[v.request], v)];
  }

  lemma {:induction false} RespJoined(c: Config, start: System, schedule: seq<Action>, s: System, v: Service)
    returns (schedule': seq<Action>, s': System)
    requires WellFormed(start) && Quiet(s) && Serves(c, s, v) && Execute(c, start, schedule) == Responded(c, s, v)
    ensures s' == Execute(c, start, schedule') == Joined(c, s, v) && Quiet(s')
  {
    schedule', s' := RespStored(c, start, schedule, s, v);
    schedule', s' := Then(c, start, schedule', s', Close);
  }

  /** From any quiet state any such service can be rendered, and adds its row. */
  lemma {:induction false} ServiceRendered(c: Config, start: System, schedule: seq<Action>, s: System, v: Service)
    returns (schedule': seq<Action>, s': System)
    requires WellFormed(start) && s == Execute(c, start, schedule) && Quiet(s) && Serves(c, s, v)
    ensures s' == Execute(c, start, schedule') == Joined(c, s, v) && Quiet(s')
  {
    schedule', s' := AckTaken(c, start, schedule, s, v);
    schedule', s' := RespGiven(c, start, schedule', s, v);
    schedule', s' := RespJoined(c, start, schedule', s, v);
  }

  // ----- Any deliveries of any requests -----

  /** The first millisecond from then on whose stamp is not zero. */
  function NonZeroFrom(ms: nat): (r: nat)
    ensures ms <= r && Wire(r) != 0
  {
    if Wire(ms) == 0 then ms + 1 else ms
  }

  predicate DistinctIds(requests: seq<Words>) {
    forall i, j :: 0 <= i < j < |requests| ==> requests[i].d1 != requests[j].d1
  }

  /** These requests, sent in the first millisecond, are in the table. */
  ghost predicate HasSent(s: System, requests: seq<Words>) {
    && |s.sent| == |requests|
    && forall i :: 0 <= i < |requests| ==>
         && s.sent[i] == RequestAt(requests[i], 1)
         && requests[i].d1 in s.ecu.meta && s.ecu.meta[requests[i].d1] == MetaOf(s.sent[i])
  }

  lemma {:induction false} AllSent(c: Config, requests: seq<Words>) returns (schedule: seq<Action>, s: System)
    requires DistinctIds(requests)
    ensures s == Execute(c, Boot(NS_PER_MS), schedule) && Quiet(s) && HasSent(s, requests)
    ensures s.now == NS_PER_MS && s.ecu.rows == [] && s.handlers == []
  {
    if requests == [] {
      schedule, s := [], Boot(NS_PER_MS);
    } else {
      var n := |requests| - 1;
      schedule, s := AllSent(c, requests[..n]);
      var before := s;
      schedule, s := RequestSent(c, Boot(NS_PER_MS), schedule, s, requests[n]);
      forall i | 0 <= i < |requests|
        ensures s.sent[i] == RequestAt(requests[i], 1)
        ensures requests[i].d1 in s.ecu.meta && s.ecu.meta[requests[i].d1] == MetaOf(s.sent[i])
      {
        if i < n {
          assert requests[..n][i] == requests[i];
        }
      }
    }
  }

  /** The row of a delivery has the words and the send time of the request delivered. */
  predicate IsRowOf(row: Row, delivery: (nat, RadarId), request: Request) {
    && row.rid == delivery.1 && row.reqId == request.d1
    && Meta(row.sendTs, row.d1, row.d2, row.d3, row.d4) == MetaOf(request)
  }

  ghost predicate RowsOfDeliveries(s: System, deliveries: seq<(nat, RadarId)>) {
    && |s.ecu.rows| == |deliveries|
    && forall n :: 0 <= n < |deliveries| ==>
         deliveries[n].0 < |s.sent| && IsRowOf(s.ecu.rows[n], deliveries[n], s.sent[deliveries[n].0])
  }

  lemma {:induction false} OneMoreDelivery(c: Config, start: System, schedule: seq<Action>, s: System,
                                           requests: seq<Words>, delivery: (nat, RadarId))
    returns (schedule': seq<Action>, s': System, row: Row)
    requires WellFormed(start) && s == Execute(c, start, schedule) && Quiet(s) && HasSent(s, requests)
    requires delivery.0 < |requests|
    ensures s' == Execute(c, start, schedule') && Quiet(s') && HasSent(s', requests) && s'.sent == s.sent
    ensures s'.ecu.rows == s.ecu.rows + [row] && IsRowOf(row, delivery, s.sent[delivery.0])
    ensures |s'.handlers| == |s.handlers| + 1 && s'.handlers[|s.handlers|].pc == RespSent
  {
    var ackMs := NonZeroFrom(Ms(s.now) + 1);
    var respMs := NonZeroFrom(ackMs + c.Lo());
    var v := Service(delivery.1, delivery.0, ackMs, respMs, 0, 0, respMs);
    row := RowFor(s.sent[delivery.0], v);
    schedule', s' := ServiceRendered(c, start, schedule, s, v);
  }

  lemma {:induction false} AllServed(c: Config, requests: seq<Words>, deliveries: seq<(nat, RadarId)>)
    returns (schedule: seq<Action>, s: System)
    requires DistinctIds(requests) && forall n :: 0 <= n < |deliveries| ==> deliveries[n].0 < |requests|
    ensures s == Execute(c, Boot(NS_PER_MS), schedule) && Quiet(s) && HasSent(s, requests)
    ensures RowsOfDeliveries(s, deliveries)
  {
    if deliveries == [] {
      schedule, s := AllSent(c, requests);
    } else {
      var n := |deliveries| - 1;
      schedule, s := AllServed(c, requests, deliveries[..n]);
      var rows := s.ecu.rows;
      var row;
      schedule, s, row := OneMoreDelivery(c, Boot(NS_PER_MS), schedule, s, requests, deliveries[n]);
      forall m | 0 <= m < |deliveries|
        ensures deliveries[m].0 < |s.sent| && IsRowOf(s.ecu.rows[m], deliveries[m], s.sent[deliveries[m].0])
      {
        if m < n {
          assert deliveries[..n][m] == deliveries[m] && s.ecu.rows[m] == rows[m];
        }
      }
    }
  }

  /**
   However many requests with distinct ids are sent, and to whatever radars each is delivered, some run ends with one
   row per delivery, in order, with the words and the send time of the request delivered, and with nothing left over.
   */
  lemma {:induction false} EveryDeliveryCanBeJoined(c: Config, requests: seq<Words>, deliveries: seq<(nat, RadarId)>)
    requires DistinctIds(requests) && forall n :: 0 <= n < |deliveries| ==> deliveries[n].0 < |requests|
    ensures exists startNs, schedule ::
              var s := Execute(c, Boot(startNs), schedule);
              && OpenDdsRuns.WordsOf(s.sent) == requests && s.ecu.pending == map[]
              && RowsOfDeliveries(s, deliveries)
  {
    var schedule, s := AllServed(c, requests, deliveries);
    assert OpenDdsRuns.WordsOf(s.sent) == requests;
  }

  // ----- What goes wrong without a loss -----

  /** A duplicate of a message whose row has been written starts an entry that nothing will complete. */
  lemma {:induction false} DuplicateStays(c: Config, start: System, schedule: seq<Action>, s: System, ack: bool)
    returns (schedule': seq<Action>, s': System)
    requires WellFormed(start) && s == Execute(c, start, schedule) && Quiet(s)
    requires |s.handlers| == 1 && s.handlers[0].pc == RespSent
    ensures s' == Execute(c, start, schedule') && s'.main == Idle && s'.handlers == s.handlers && s'.sent == s.sent
    ensures s'.ecu.rows == s.ecu.rows && s'.ecu.pending.Keys == {KeyOf(s, 0)}
  {
    if ack {
      schedule', s' := Then(c, start, schedule, s, TakeAckOf(0));
    } else {
      schedule', s' := Then(c, start, schedule, s, AnswerRespOf(0));
      schedule', s' := Then(c, start, schedule', s', StoreAnswered);
    }
    schedule', s' := Then(c, start, schedule', s', Close);
  }

  /** A request, its only handler and one row: a duplicated ACK, or RESP, still leaves an entry behind. */
  lemma {:induction false} DuplicatesLeaveEntries(c: Config, ack: bool)
    ensures exists schedule ::
              var s := Execute(c, Boot(NS_PER_MS), schedule);
              |s.sent| == |s.handlers| == |s.ecu.rows| == 1 && s.main == Idle && s.ecu.pending != map[]
  {
    var requests := [Words(7, 0, 0, 0)];
    var schedule, s := AllSent(c, requests);
    var row;
    schedule, s, row := OneMoreDelivery(c, Boot(NS_PER_MS), schedule, s, requests, (0, "1"));
    schedule, s := DuplicateStays(c, Boot(NS_PER_MS), schedule, s, ack);
    assert KeyOf(s, 0) in s.ecu.pending;
  }

  const UNRECORDED := System(NS_PER_MS, [Request(7, 0, 0, 0, 1)], 1, 0, [], START, Idle)

  function EarlyAck(): Handler {
    Handler("1", 0, AckSent, 1, 0, 0, 0, 0)
  }

  /** A request has been published and acknowledged. */
  lemma {:induction false} AckedEarly(c: Config) returns (schedule: seq<Action>, s: System)
    ensures s == Execute(c, Boot(NS_PER_MS), schedule) == UNRECORDED.(handlers := [EarlyAck()])
  {
    var start := Boot(NS_PER_MS);
    schedule, s := Then(c, start, [], start, StampRequest(7, 0, 0, 0));
    schedule, s := Then(c, start, schedule, s, PublishRequest);
    schedule, s := Then(c, start, schedule, s, Deliver("1", 0));
    schedule, s := Then(c, start, schedule, s, StampAck(0));
    schedule, s := Then(c, start, schedule, s, SendAck(0));
  }

  /** The ECU takes the ACK, all before the sender records the request. */
  lemma {:induction false} AckBeatsRecord(c: Config) returns (schedule: seq<Action>, s: System)
    ensures s == Execute(c, Boot(NS_PER_MS), schedule)
    ensures s == UNRECORDED.(handlers := [EarlyAck()],
                             ecu := START.(pending := map[("1", 7) := EMPTY_TXN.(ackTs := 1)]))
  {
    var start := Boot(NS_PER_MS);
    schedule, s := AckedEarly(c);
    schedule, s := Then(c, start, schedule, s, TakeAckOf(0));
    schedule, s := Then(c, start, schedule, s, Close);
  }

  lemma {:induction false} RespBeatsRecord(c: Config) returns (schedule: seq<Action>, s: System)
    ensures s == Execute(c, Boot(NS_PER_MS), schedule) && s.main == Answered(0, Ms(s.now))
    ensures s.sent == UNRECORDED.sent && s.published == 1 && s.recorded == 0 && |s.handlers| == 1
    ensures s.handlers[0].pc == RespSent && s.handlers[0].request == 0 && s.handlers[0].rid == "1"
    ensures s.ecu == START.(pending := map[("1", 7) := EMPTY_TXN.(ackTs := 1)])
  {
    var start := Boot(NS_PER_MS);
    schedule, s := AckBeatsRecord(c);
    schedule, s := Then(c, start, schedule, s, StartWork(0, c.Lo()));
    schedule, s := Then(c, start, schedule, s, Tick(c.Lo() * NS_PER_MS));
    schedule, s := Then(c, start, schedule, s, StampResp(0, 5, 6));
    schedule, s := Then(c, start, schedule, s, SendResp(0));
    schedule, s := Then(c, start, schedule, s, AnswerRespOf(0));
  }

  /**
   The sender publishes before it records, and so a request can be lost without any fault of the network: delivered
   once, with its ACK and its RESP taken once, and recorded in the end, it has no row, and its entry stays.
   */
  lemma {:induction false} RequestCanBeForgotten(c: Config)
    ensures exists schedule ::
              var s := Execute(c, Boot(NS_PER_MS), schedule);
              && |s.sent| == |s.handlers| == s.recorded == 1 && s.handlers[0].pc == RespSent && s.main == Idle
              && s.ecu.rows == [] && ("1", 7) in s.ecu.pending && 7 in s.ecu.meta
              && s.ecu.pending[("1", 7)].ackTs != 0 && s.ecu.pending[("1", 7)].c == s.handlers[0].c
  {
    var start := Boot(NS_PER_MS);
    var schedule, s := RespBeatsRecord(c);
    schedule, s := Then(c, start, schedule, s, StoreAnswered);
    schedule, s := Then(c, start, schedule, s, Close);
    schedule, s := Then(c, start, schedule, s, RecordMeta);
  }

  // ----- Exactly the rows that can occur -----

  /** What can be seen of a row: its id, four stamps, and latencies that are not negative, the work time among them. */
  predicate LooksCausal(c: Config, row: Row) {
    && row.reqId == row.d1
    && row.sendTs != 0 && row.ackTs != 0 && row.respTs != 0 && row.ecuTs != 0
    && L1(row).Some? && L1(row).value >= 0
    && L2(row).Some? && L2(row).value >= c.Lo()
    && L3(row).Some? && L3(row).value >= 0
    && IntDifference(row.ecuTs, row.sendTs).Some?
  }

  /** The run, within one sign window, has this row for a unique request that one handler served. */
  ghost predicate Shows(c: Config, startNs: nat, schedule: seq<Action>, row: Row) {
    var s := Execute(c, Boot(startNs), schedule);
    && row in s.ecu.rows && UniqueId(s, row.reqId) && HandledOnce(s, (row.rid, row.reqId))
    && WithinSignWindow(startNs, s)
  }

  lemma {:induction false} RowsAreStamped(tr: seq<Event>, row: Row)
    requires row in Run(tr).rows
    ensures row.sendTs != 0 && row.ackTs != 0 && row.respTs != 0 && row.ecuTs != 0
  {
    var p := tr[..|tr| - 1];
    if row in Run(p).rows {
      RowsAreStamped(p, row);
    }
  }

  lemma {:induction false} ShownLooksCausal(c: Config, startNs: nat, schedule: seq<Action>, row: Row)
    requires Shows(c, startNs, schedule, row)
    ensures LooksCausal(c, row)
  {
    var s := Execute(c, Boot(startNs), schedule);
    OpenDdsRuns.RunsAreTraces(c, startNs, schedule, (row.rid, row.reqId));
    RowsAreStamped(OpenDdsRuns.TraceOf(c, Boot(startNs), schedule), row);
    var i, a, r, ecuMs := RunExplains(c, startNs, schedule, row);
    RowsAreTimed(c, startNs, schedule, row);
  }

  /** A time in the second sign window that is stamped so. */
  function TimeOf(stamp: u32): (ms: nat)
    ensures Wire(ms) == stamp && SignWindow(ms) == 1
  {
    TWO_32 + Signed32(stamp)
  }

  lemma {:induction false} CausalIsShown(c: Config, row: Row) returns (startNs: nat, schedule: seq<Action>)
    requires LooksCausal(c, row)
    ensures Shows(c, startNs, schedule, row)
  {
    var sendMs, ecuMs := TimeOf(row.sendTs), TimeOf(row.ecuTs);
    startNs := sendMs * NS_PER_MS;
    var s;
    schedule, s := RequestSent(c, Boot(startNs), [], Boot(startNs), Words(row.d1, row.d2, row.d3, row.d4));
    assert Ms(startNs) == sendMs;
    var v := Service(row.rid, 0, TimeOf(row.ackTs), TimeOf(row.respTs), row.c, row.d, ecuMs);
    schedule, s := ServiceRendered(c, Boot(startNs), schedule, s, v);
    assert s.ecu.rows == [row] by {
      assert RowFor(s.sent[0], v) == row;
    }
    assert Ms(s.now) == ecuMs;
  }

  /** A row can occur in this way if and only if it looks causal. */
  lemma {:induction false} RowsExactly(c: Config, row: Row)
    ensures (exists startNs, schedule :: Shows(c, startNs, schedule, row)) <==> LooksCausal(c, row)
  {
    if startNs, schedule :| Shows(c, startNs, schedule, row) {
      ShownLooksCausal(c, startNs, schedule, row);
    }
    if LooksCausal(c, row) {
      var startNs, schedule := CausalIsShown(c, row);
    }
  }
}
