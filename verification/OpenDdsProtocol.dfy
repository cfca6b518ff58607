/**
 The OpenDDS calibration handshake as a distributed system: the ECU's sender thread, the ECU's main loop, any number of
 radars with one detached handler thread per delivered request, and a network that may lose, duplicate and reorder.
 Every read of the clock, every publication and every lock region is a step of its own; in particular the sender
 publishes a request before it records the request's metadata.
 */
module OpenDdsProtocol {
  import opened Common
  import opened Calibration
  import opened Clock
  import opened OpenDdsEcu

  /** A request as the sender made it, with the true millisecond time of the clock reading it records. */
  datatype Request = Request(d1: u32, d2: u32, d3: u32, d4: u32, ms: nat)

  datatype Pc = Started | AckStamped | AckSent | Working | RespStamped | RespSent

  /** One execution of `handle_req`: the request it serves, where it is, and the clock readings it took. */
  datatype Handler = Handler(rid: RadarId, request: nat, pc: Pc, ackMs: nat, wakeNs: nat, respMs: nat, c: u32, d: u32)

  /** The main loop is idle, or has answered a RESP it has not stored yet, or is about to close a transaction. */
  datatype MainPc = Idle | Answered(handler: nat, ecuMs: nat) | Closing(key: Key)

  /**
   `sent[..published]` are on the network and `sent[..recorded]` are in the ECU's table. ACK and RESP messages are on
   the network from the moment their handler is past sending them; a step that takes one leaves it there, so it may be
   taken again (a duplicate), late, in any order, or never (a loss).
   */
  datatype System = System(now: nat, sent: seq<Request>, published: nat, recorded: nat, handlers: seq<Handler>,
                           ecu: Ecu, main: MainPc)

  /** The two bounds of the work time may be given in either order. */
  datatype Config = Config(calibMsMin: nat, calibMsMax: nat) {
    function Lo(): (r: nat)
      ensures r <= calibMsMin && r <= calibMsMax && (r == calibMsMin || r == calibMsMax)
    {
      if calibMsMin <= calibMsMax then calibMsMin else calibMsMax
    }

    function Hi(): (r: nat)
      ensures r >= calibMsMin && r >= calibMsMax && (r == calibMsMin || r == calibMsMax)
    {
      if calibMsMin <= calibMsMax then calibMsMax else calibMsMin
    }
  }

  datatype Action =
    | Tick(ns: nat)
    | StampRequest(d1: u32, d2: u32, d3: u32, d4: u32) | PublishRequest | RecordMeta
    | Deliver(rid: RadarId, request: nat) | StampAck(h: nat) | SendAck(h: nat)
    | StartWork(h: nat, durationMs: nat) | StampResp(h: nat, c: u32, d: u32) | SendResp(h: nat)
    | TakeAckOf(h: nat) | AnswerRespOf(h: nat) | StoreAnswered | Close

  function Boot(startNs: nat): System {
    System(startNs, [], 0, 0, [], START, Idle)
  }

  function MetaOf(r: Request): Meta {
    Meta(Wire(r.ms), r.d1, r.d2, r.d3, r.d4)
  }

  function Rank(pc: Pc): nat {
    match pc
    case Started => 0
    case AckStamped => 1
    case AckSent => 2
    case Working => 3
    case RespStamped => 4
    case RespSent => 5
  }

  predicate WellFormed(s: System) {
    && s.recorded <= s.published <= |s.sent| <= s.recorded + 1
    && (forall h :: 0 <= h < |s.handlers| ==> s.handlers[h].request < s.published)
    && (s.main.Answered? ==> s.main.handler < |s.handlers|)
  }

  /** The transaction a handler's messages belong to. */
  function KeyOf(s: System, h: nat): Key
    requires WellFormed(s) && h < |s.handlers|
  {
    (s.handlers[h].rid, s.sent[s.handlers[h].request].d1)
  }

  predicate Enabled(c: Config, s: System, a: Action)
    requires WellFormed(s)
  {
    match a
    case Tick(_) => true
    case StampRequest(_, _, _, _) => |s.sent| == s.recorded
    case PublishRequest => s.published < |s.sent|
    case RecordMeta => s.recorded < s.published
    case Deliver(_, i) => i < s.published
    case StampAck(h) => h < |s.handlers| && s.handlers[h].pc == Started
    case SendAck(h) => h < |s.handlers| && s.handlers[h].pc == AckStamped
    case StartWork(h, ms) => h < |s.handlers| && s.handlers[h].pc == AckSent && c.Lo() <= ms <= c.Hi()
    case StampResp(h, _, _) => h < |s.handlers| && s.handlers[h].pc == Working && s.handlers[h].wakeNs <= s.now
    case SendResp(h) => h < |s.handlers| && s.handlers[h].pc == RespStamped
    case TakeAckOf(h) => s.main == Idle && h < |s.handlers| && Rank(s.handlers[h].pc) >= 2
    case AnswerRespOf(h) => s.main == Idle && h < |s.handlers| && s.handlers[h].pc == RespSent
    case StoreAnswered => s.main.Answered?
    case Close => s.main.Closing?
  }

  function WithHandler(s: System, h: nat, handler: Handler): System
    requires h < |s.handlers|
  {
    s.(handlers := s.handlers[h := handler])
  }

  function Perform(c: Config, s: System, a: Action): System
    requires WellFormed(s) && Enabled(c, s, a)
  {
    match a
    case Tick(ns) => s.(now := s.now + ns)
    case StampRequest(d1, d2, d3, d4) => s.(sent := s.sent + [Request(d1, d2, d3, d4, Ms(s.now))])
    case PublishRequest => s.(published := s.published + 1)
    case RecordMeta => s.(recorded := s.recorded + 1, ecu := Step(s.ecu, Record(MetaOf(s.sent[s.recorded]))))
    case Deliver(rid, i) => s.(handlers := s.handlers + [Handler(rid, i, Started, 0, 0, 0, 0, 0)])
    case StampAck(h) => WithHandler(s, h, s.handlers[h].(pc := AckStamped, ackMs := Ms(s.now)))
    case SendAck(h) => WithHandler(s, h, s.handlers[h].(pc := AckSent))
    case StartWork(h, ms) => WithHandler(s, h, s.handlers[h].(pc := Working, wakeNs := s.now + ms * NS_PER_MS))
    case StampResp(h, c, d) =>
      WithHandler(s, h, s.handlers[h].(pc := RespStamped, respMs := Ms(s.now), c := c, d := d))
    case SendResp(h) => WithHandler(s, h, s.handlers[h].(pc := RespSent))
    case TakeAckOf(h) =>
      s.(ecu := Step(s.ecu, Ack(KeyOf(s, h), Wire(s.handlers[h].ackMs))), main := Closing(KeyOf(s, h)))
    case AnswerRespOf(h) => s.(main := Answered(h, Ms(s.now)))
    case StoreAnswered =>
      var h := s.handlers[s.main.handler];
      var k := KeyOf(s, s.main.handler);
      s.(ecu := Step(s.ecu, Resp(k, Wire(h.respMs), h.c, h.d, Wire(s.main.ecuMs))), main := Closing(k))
    case Close => s.(ecu := Step(s.ecu, Finalize(s.main.key)), main := Idle)
  }

  /** A schedule is any list of actions; one that is not enabled when its turn comes does nothing. */
  function Execute(c: Config, s: System, schedule: seq<Action>): (s': System)
    requires WellFormed(s)
    ensures WellFormed(s')
    decreases |schedule|
  {
    if schedule == [] then s
    else if Enabled(c, s, schedule[0]) then Execute(c, Perform(c, s, schedule[0]), schedule[1..])
    else Execute(c, s, schedule[1..])
  }

  // ----- What a row's fields come from -----

  ghost predicate UniqueId(s: System, id: u32) {
    forall i, j :: 0 <= i < |s.sent| && 0 <= j < |s.sent| && s.sent[i].d1 == id && s.sent[j].d1 == id ==> i == j
  }

  /** At most one handler thread ever ran for the radar and request id. */
  ghost predicate HandledOnce(s: System, k: Key)
    requires WellFormed(s)
  {
    forall h, g :: 0 <= h < |s.handlers| && 0 <= g < |s.handlers| && KeyOf(s, h) == k && KeyOf(s, g) == k ==> h == g
  }

  predicate IsRequest(s: System, i: nat, id: u32, m: Meta) {
    i < |s.sent| && i < s.recorded && s.sent[i].d1 == id && m == MetaOf(s.sent[i])
  }

  predicate IsAck(s: System, h: nat, k: Key, ts: u32)
    requires WellFormed(s)
  {
    h < |s.handlers| && KeyOf(s, h) == k && Rank(s.handlers[h].pc) >= 2 && ts == Wire(s.handlers[h].ackMs)
  }

  predicate IsResp(s: System, h: nat, ecuMs: nat, k: Key, ts: u32, c: u32, d: u32, ecuTs: u32)
    requires WellFormed(s)
  {
    && h < |s.handlers| && KeyOf(s, h) == k && s.handlers[h].pc == RespSent
    && ts == Wire(s.handlers[h].respMs) && c == s.handlers[h].c && d == s.handlers[h].d
    && s.handlers[h].respMs <= ecuMs <= Ms(s.now) && ecuTs == Wire(ecuMs)
  }

  ghost predicate FromRequest(s: System, id: u32, m: Meta) {
    exists i: nat :: IsRequest(s, i, id, m)
  }

  ghost predicate FromAck(s: System, k: Key, ts: u32)
    requires WellFormed(s)
  {
    exists h: nat :: IsAck(s, h, k, ts)
  }

  ghost predicate FromResp(s: System, k: Key, ts: u32, c: u32, d: u32, ecuTs: u32)
    requires WellFormed(s)
  {
    exists h: nat, ecuMs: nat :: IsResp(s, h, ecuMs, k, ts, c, d, ecuTs)
  }

  // ----- Invariant -----

  predicate HandlerTimed(c: Config, s: System, h: Handler)
    requires h.request < |s.sent|
  {
    && (Rank(h.pc) >= 1 ==> s.sent[h.request].ms <= h.ackMs <= Ms(s.now))
    && (Rank(h.pc) >= 3 ==> (h.ackMs + c.Lo()) * NS_PER_MS <= h.wakeNs <= s.now + c.Hi() * NS_PER_MS)
    && (Rank(h.pc) >= 4 ==> h.ackMs + c.Lo() <= h.respMs <= Ms(s.now))
  }

  ghost predicate Timed(c: Config, s: System)
    requires WellFormed(s)
  {
    && (forall i :: 0 <= i < |s.sent| ==> s.sent[i].ms <= Ms(s.now))
    && (forall h :: 0 <= h < |s.handlers| ==> HandlerTimed(c, s, s.handlers[h]))
    && (s.main.Answered? ==>
          var h := s.handlers[s.main.handler];
          h.pc == RespSent && h.respMs <= s.main.ecuMs <= Ms(s.now))
  }

  ghost predicate TxnSourced(s: System, k: Key, t: Txn)
    requires WellFormed(s)
  {
    && (t.ackTs != 0 ==> FromAck(s, k, t.ackTs))
    && (t.respTs != 0 || t.ecuTs != 0 ==> FromResp(s, k, t.respTs, t.c, t.d, t.ecuTs))
    && (t.sendTs != 0 && UniqueId(s, k.1) ==> FromRequest(s, k.1, Meta(t.sendTs, t.d1, t.d2, t.d3, t.d4)))
  }

  ghost predicate RowSourced(s: System, row: Row)
    requires WellFormed(s)
  {
    && FromAck(s, (row.rid, row.reqId), row.ackTs)
    && FromResp(s, (row.rid, row.reqId), row.respTs, row.c, row.d, row.ecuTs)
    && (UniqueId(s, row.reqId) ==> FromRequest(s, row.reqId, Meta(row.sendTs, row.d1, row.d2, row.d3, row.d4)))
  }

  ghost predicate TablesSourced(s: System, ecu: Ecu)
    requires WellFormed(s)
  {
    && (forall id :: id in ecu.meta ==> FromRequest(s, id, ecu.meta[id]))
    && (forall k :: k in ecu.pending ==> TxnSourced(s, k, ecu.pending[k]))
    && (forall i :: 0 <= i < |ecu.rows| ==> RowSourced(s, ecu.rows[i]))
  }

  ghost predicate Sourced(s: System)
    requires WellFormed(s)
  {
    TablesSourced(s, s.ecu)
  }

  /** Clock, requests and handlers only move forward, and what a handler has stamped it keeps. */
  ghost predicate Extends(s: System, s': System) {
    && s.now <= s'.now
    && s.recorded <= s'.recorded
    && |s.sent| <= |s'.sent| && s'.sent[..|s.sent|] == s.sent
    && |s.handlers| <= |s'.handlers|
    && forall h :: 0 <= h < |s.handlers| ==> HandlerExtends(s.handlers[h], s'.handlers[h])
  }

  predicate HandlerExtends(h: Handler, h': Handler) {
    && h.rid == h'.rid && h.request == h'.request
    && Rank(h.pc) <= Rank(h'.pc)
    && (Rank(h.pc) >= 1 ==> h.ackMs == h'.ackMs)
    && (Rank(h.pc) >= 4 ==> h.respMs == h'.respMs && h.c == h'.c && h.d == h'.d)
  }

  lemma {:induction false} MsMonotone(a: nat, b: nat)
    requires a <= b
    ensures Ms(a) <= Ms(b)
  {
  }

  lemma {:induction false} PerformExtends(c: Config, s: System, a: Action)
    requires WellFormed(s) && Enabled(c, s, a)
    ensures WellFormed(Perform(c, s, a)) && Extends(s, Perform(c, s, a))
  {
  }

  /** A step of one handler keeps the stamps of all handlers in order. */
  lemma {:induction false} HandlerStepTimed(c: Config, s: System, h: nat, handler: Handler)
    requires WellFormed(s) && Timed(c, s) && h < |s.handlers|
    requires HandlerExtends(s.handlers[h], handler) && HandlerTimed(c, s, handler)
    ensures WellFormed(WithHandler(s, h, handler)) && Timed(c, WithHandler(s, h, handler))
  {
    var s' := WithHandler(s, h, handler);
    forall g | 0 <= g < |s'.handlers|
      ensures HandlerTimed(c, s', s'.handlers[g])
    {
      assert HandlerTimed(c, s, s'.handlers[g]);
    }
  }

  /** Nothing but the clock, the requests and the main loop's position changes, and no stamp is ahead of its request. */
  lemma {:induction false} TimedWithSameHandlers(c: Config, s: System, s': System)
    requires WellFormed(s) && Timed(c, s) && WellFormed(s') && s.now <= s'.now && s'.handlers == s.handlers
    requires |s.sent| <= |s'.sent| && s'.sent[..|s.sent|] == s.sent
    requires forall i :: |s.sent| <= i < |s'.sent| ==> s'.sent[i].ms <= Ms(s'.now)
    requires s'.main.Answered? ==> s'.main == s.main || s'.main.ecuMs == Ms(s'.now)
    requires s'.main.Answered? ==> s'.handlers[s'.main.handler].pc == RespSent
    ensures Timed(c, s')
  {
    MsMonotone(s.now, s'.now);
    forall i | 0 <= i < |s'.sent| ensures s'.sent[i].ms <= Ms(s'.now) {
      if i < |s.sent| {
        assert s'.sent[i] == s'.sent[..|s.sent|][i];
      }
    }
    forall h | 0 <= h < |s'.handlers| ensures HandlerTimed(c, s', s'.handlers[h]) {
      var request := s.handlers[h].request;
      assert HandlerTimed(c, s, s.handlers[h]);
      assert s'.sent[request] == s'.sent[..|s.sent|][request];
    }
    assert s'.main.Answered? ==> HandlerTimed(c, s', s'.handlers[s'.main.handler]);
  }

  lemma {:induction false} DeliverTimed(c: Config, s: System, rid: RadarId, request: nat)
    requires WellFormed(s) && Timed(c, s) && Enabled(c, s, Deliver(rid, request))
    ensures WellFormed(Perform(c, s, Deliver(rid, request))) && Timed(c, Perform(c, s, Deliver(rid, request)))
  {
    var s' := Perform(c, s, Deliver(rid, request));
    forall h | 0 <= h < |s'.handlers| ensures HandlerTimed(c, s', s'.handlers[h]) {
      if h < |s.handlers| {
        assert HandlerTimed(c, s, s.handlers[h]);
      }
    }
  }

  lemma {:induction false} StampAckTimed(c: Config, s: System, h: nat)
    requires WellFormed(s) && Timed(c, s) && Enabled(c, s, StampAck(h))
    ensures WellFormed(Perform(c, s, StampAck(h))) && Timed(c, Perform(c, s, StampAck(h)))
  {
    assert s.sent[s.handlers[h].request].ms <= Ms(s.now);
    HandlerStepTimed(c, s, h, s.handlers[h].(pc := AckStamped, ackMs := Ms(s.now)));
  }

  lemma {:induction false} StartWorkTimed(c: Config, s: System, h: nat, ms: nat)
    requires WellFormed(s) && Timed(c, s) && Enabled(c, s, StartWork(h, ms))
    ensures WellFormed(Perform(c, s, StartWork(h, ms))) && Timed(c, Perform(c, s, StartWork(h, ms)))
  {
    assert HandlerTimed(c, s, s.handlers[h]);
    assert (s.handlers[h].ackMs + c.Lo()) * NS_PER_MS <= s.now + ms * NS_PER_MS;
    HandlerStepTimed(c, s, h, s.handlers[h].(pc := Working, wakeNs := s.now + ms * NS_PER_MS));
  }

  lemma {:induction false} StampsAfterWaking(ms: nat, wakeNs: nat, now: nat)
    requires ms * NS_PER_MS <= wakeNs <= now
    ensures ms <= Ms(now)
  {
  }

  lemma {:induction false} StampRespTimed(c: Config, s: System, h: nat, w1: u32, w2: u32)
    requires WellFormed(s) && Timed(c, s) && Enabled(c, s, StampResp(h, w1, w2))
    ensures WellFormed(Perform(c, s, StampResp(h, w1, w2))) && Timed(c, Perform(c, s, StampResp(h, w1, w2)))
  {
    var handler := s.handlers[h];
    assert HandlerTimed(c, s, handler);
    StampsAfterWaking(handler.ackMs + c.Lo(), handler.wakeNs, s.now);
    HandlerStepTimed(c, s, h, handler.(pc := RespStamped, respMs := Ms(s.now), c := w1, d := w2));
  }

  /** Sending what is stamped. */
  lemma {:induction false} SentTimed(c: Config, s: System, h: nat, pc: Pc)
    requires WellFormed(s) && Timed(c, s) && h < |s.handlers|
    requires Rank(pc) == Rank(s.handlers[h].pc) + 1 && (pc == AckSent || pc == RespSent)
    ensures WellFormed(WithHandler(s, h, s.handlers[h].(pc := pc)))
    ensures Timed(c, WithHandler(s, h, s.handlers[h].(pc := pc)))
  {
    assert HandlerTimed(c, s, s.handlers[h]);
    HandlerStepTimed(c, s, h, s.handlers[h].(pc := pc));
  }

  /** The clock and the sender. */
  lemma {:induction false} SenderTimed(c: Config, s: System, a: Action)
    requires WellFormed(s) && Timed(c, s) && Enabled(c, s, a)
    requires a.Tick? || a.StampRequest? || a.PublishRequest? || a.RecordMeta?
    ensures WellFormed(Perform(c, s, a)) && Timed(c, Perform(c, s, a))
  {
    assert s.main.Answered? ==> s.handlers[s.main.handler].pc == RespSent;
    TimedWithSameHandlers(c, s, Perform(c, s, a));
  }

  lemma {:induction false} MainLoopTimed(c: Config, s: System, a: Action)
    requires WellFormed(s) && Timed(c, s) && Enabled(c, s, a)
    requires a.TakeAckOf? || a.AnswerRespOf? || a.StoreAnswered? || a.Close?
    ensures WellFormed(Perform(c, s, a)) && Timed(c, Perform(c, s, a))
  {
    TimedWithSameHandlers(c, s, Perform(c, s, a));
  }

  lemma {:induction false} PerformTimed(c: Config, s: System, a: Action)
    requires WellFormed(s) && Enabled(c, s, a) && Timed(c, s)
    ensures WellFormed(Perform(c, s, a)) && Timed(c, Perform(c, s, a))
  {
    match a
    case Deliver(rid, i) => DeliverTimed(c, s, rid, i);
    case StampAck(h) => StampAckTimed(c, s, h);
    case SendAck(h) => SentTimed(c, s, h, AckSent);
    case StartWork(h, ms) => StartWorkTimed(c, s, h, ms);
    case StampResp(h, w1, w2) => StampRespTimed(c, s, h, w1, w2);
    case SendResp(h) => SentTimed(c, s, h, RespSent);
    case Tick(_) => SenderTimed(c, s, a);
    case StampRequest(_, _, _, _) => SenderTimed(c, s, a);
    case PublishRequest => SenderTimed(c, s, a);
    case RecordMeta => SenderTimed(c, s, a);
    case _ => MainLoopTimed(c, s, a);
  }

  lemma {:induction false} RequestKept(s: System, s': System, id: u32, m: Meta)
    requires WellFormed(s) && WellFormed(s') && Extends(s, s') && FromRequest(s, id, m)
    ensures FromRequest(s', id, m)
  {
    var i: nat :| IsRequest(s, i, id, m);
    assert s'.sent[i] == s'.sent[..|s.sent|][i];
    assert IsRequest(s', i, id, m);
  }

  lemma {:induction false} KeyKept(s: System, s': System, h: nat)
    requires WellFormed(s) && WellFormed(s') && Extends(s, s') && h < |s.handlers|
    ensures KeyOf(s', h) == KeyOf(s, h)
  {
    var i := s.handlers[h].request;
    assert s'.sent[i] == s'.sent[..|s.sent|][i];
  }

  lemma {:induction false} AckKept(s: System, s': System, k: Key, ts: u32)
    requires WellFormed(s) && WellFormed(s') && Extends(s, s') && FromAck(s, k, ts)
    ensures FromAck(s', k, ts)
  {
    var h: nat :| IsAck(s, h, k, ts);
    KeyKept(s, s', h);
    assert IsAck(s', h, k, ts);
  }

  lemma {:induction false} RespKept(s: System, s': System, k: Key, ts: u32, c: u32, d: u32, ecuTs: u32)
    requires WellFormed(s) && WellFormed(s') && Extends(s, s') && FromResp(s, k, ts, c, d, ecuTs)
    ensures FromResp(s', k, ts, c, d, ecuTs)
  {
    var h: nat, ecuMs: nat :| IsResp(s, h, ecuMs, k, ts, c, d, ecuTs);
    KeyKept(s, s', h);
    MsMonotone(s.now, s'.now);
    assert IsResp(s', h, ecuMs, k, ts, c, d, ecuTs);
  }

  lemma {:induction false} UniqueBefore(s: System, s': System, id: u32)
    requires Extends(s, s') && UniqueId(s', id)
    ensures UniqueId(s, id)
  {
    assert forall i :: 0 <= i < |s.sent| ==> s'.sent[i] == s'.sent[..|s.sent|][i];
  }

  lemma {:induction false} TxnKept(s: System, s': System, k: Key, t: Txn)
    requires WellFormed(s) && WellFormed(s') && Extends(s, s') && TxnSourced(s, k, t)
    ensures TxnSourced(s', k, t)
  {
    if t.ackTs != 0 {
      AckKept(s, s', k, t.ackTs);
    }
    if t.respTs != 0 || t.ecuTs != 0 {
      RespKept(s, s', k, t.respTs, t.c, t.d, t.ecuTs);
    }
    if t.sendTs != 0 && UniqueId(s', k.1) {
      UniqueBefore(s, s', k.1);
      RequestKept(s, s', k.1, Meta(t.sendTs, t.d1, t.d2, t.d3, t.d4));
    }
  }

  lemma {:induction false} RowKept(s: System, s': System, row: Row)
    requires WellFormed(s) && WellFormed(s') && Extends(s, s') && RowSourced(s, row)
    ensures RowSourced(s', row)
  {
    AckKept(s, s', (row.rid, row.reqId), row.ackTs);
    RespKept(s, s', (row.rid, row.reqId), row.respTs, row.c, row.d, row.ecuTs);
    if UniqueId(s', row.reqId) {
      UniqueBefore(s, s', row.reqId);
      RequestKept(s, s', row.reqId, Meta(row.sendTs, row.d1, row.d2, row.d3, row.d4));
    }
  }

  /** What is in the tables keeps its source. */
  lemma {:induction false} TablesKept(s: System, s': System, ecu: Ecu)
    requires WellFormed(s) && WellFormed(s') && Extends(s, s') && TablesSourced(s, ecu)
    ensures TablesSourced(s', ecu)
  {
    forall id | id in ecu.meta ensures FromRequest(s', id, ecu.meta[id]) {
      RequestKept(s, s', id, ecu.meta[id]);
    }
    forall k | k in ecu.pending ensures TxnSourced(s', k, ecu.pending[k]) {
      TxnKept(s, s', k, ecu.pending[k]);
    }
    forall i | 0 <= i < |ecu.rows| ensures RowSourced(s', ecu.rows[i]) {
      RowKept(s, s', ecu.rows[i]);
    }
  }

  lemma {:induction false} TablesWithEntry(s: System, ecu: Ecu, k: Key, t: Txn)
    requires WellFormed(s) && TablesSourced(s, ecu) && TxnSourced(s, k, t)
    ensures TablesSourced(s, ecu.(pending := ecu.pending[k := t]))
  {
  }

  /** Two accounts of a request with a unique id are the same account. */
  lemma {:induction false} UniqueRequest(s: System, id: u32, m: Meta, m': Meta)
    requires UniqueId(s, id) && FromRequest(s, id, m) && FromRequest(s, id, m')
    ensures m == m'
  {
    var i: nat :| IsRequest(s, i, id, m);
    var j: nat :| IsRequest(s, j, id, m');
  }

  lemma {:induction false} SourcedAfterRecord(c: Config, s: System)
    requires WellFormed(s) && Enabled(c, s, RecordMeta) && Sourced(s)
    ensures Sourced(Perform(c, s, RecordMeta))
  {
    var s' := Perform(c, s, RecordMeta);
    TablesKept(s, s', s.ecu);
    var m := MetaOf(s.sent[s.recorded]);
    assert IsRequest(s', s.recorded, m.d1, m);
    assert FromRequest(s', m.d1, m);
  }

  lemma {:induction false} SourcedAfterAck(c: Config, s: System, h: nat)
    requires WellFormed(s) && Enabled(c, s, TakeAckOf(h)) && Sourced(s)
    ensures Sourced(Perform(c, s, TakeAckOf(h)))
  {
    var s' := Perform(c, s, TakeAckOf(h));
    var k, ts := KeyOf(s, h), Wire(s.handlers[h].ackMs);
    TablesKept(s, s', s.ecu);
    assert IsAck(s', h, k, ts);
    AckIntoEntry(s', s.ecu, k, ts);
    TablesWithEntry(s', s.ecu, k, WithAck(GetOr(s.ecu.pending, k, EMPTY_TXN), Lookup(s.ecu.meta, k.1), ts));
  }

  lemma {:induction false} AckIntoEntry(s: System, ecu: Ecu, k: Key, ts: u32)
    requires WellFormed(s) && TablesSourced(s, ecu) && FromAck(s, k, ts)
    ensures TxnSourced(s, k, WithAck(GetOr(ecu.pending, k, EMPTY_TXN), Lookup(ecu.meta, k.1), ts))
  {
    assert TxnSourced(s, k, EMPTY_TXN);
  }

  lemma {:induction false} SourcedAfterResp(c: Config, s: System)
    requires WellFormed(s) && Enabled(c, s, StoreAnswered) && Sourced(s) && Timed(c, s)
    ensures Sourced(Perform(c, s, StoreAnswered))
  {
    var s' := Perform(c, s, StoreAnswered);
    var h, ecuMs := s.main.handler, s.main.ecuMs;
    var k, handler := KeyOf(s, h), s.handlers[h];
    TablesKept(s, s', s.ecu);
    assert IsResp(s', h, ecuMs, k, Wire(handler.respMs), handler.c, handler.d, Wire(ecuMs));
    RespIntoEntry(s', s.ecu, k, Wire(handler.respMs), handler.c, handler.d, Wire(ecuMs));
    TablesWithEntry(s', s.ecu, k, WithResp(GetOr(s.ecu.pending, k, EMPTY_TXN), Lookup(s.ecu.meta, k.1),
                                           Wire(handler.respMs), handler.c, handler.d, Wire(ecuMs)));
  }

  lemma {:induction false} RespIntoEntry(s: System, ecu: Ecu, k: Key, ts: u32, c: u32, d: u32, ecuTs: u32)
    requires WellFormed(s) && TablesSourced(s, ecu) && FromResp(s, k, ts, c, d, ecuTs)
    ensures TxnSourced(s, k, WithResp(GetOr(ecu.pending, k, EMPTY_TXN), Lookup(ecu.meta, k.1), ts, c, d, ecuTs))
  {
    var t := GetOr(ecu.pending, k, EMPTY_TXN);
    assert TxnSourced(s, k, t);
    if UniqueId(s, k.1) && k.1 in ecu.meta && t.sendTs != 0 {
      UniqueRequest(s, k.1, Meta(t.sendTs, t.d1, t.d2, t.d3, t.d4), ecu.meta[k.1]);
    }
  }

  lemma {:induction false} SourcedAfterClose(c: Config, s: System)
    requires WellFormed(s) && Enabled(c, s, Close) && Sourced(s)
    ensures Sourced(Perform(c, s, Close))
  {
    TablesKept(s, Perform(c, s, Close), s.ecu);
    ClosedTables(Perform(c, s, Close), s.ecu, s.main.key);
  }

  lemma {:induction false} ClosedTables(s: System, ecu: Ecu, k: Key)
    requires WellFormed(s) && TablesSourced(s, ecu)
    ensures TablesSourced(s, FinalizeIfReady(ecu, k))
  {
    if k in ecu.pending && Complete(ecu.pending[k]) {
      assert TxnSourced(s, k, ecu.pending[k]);
      assert RowSourced(s, RowOf(k, ecu.pending[k]));
    }
  }

  lemma {:induction false} PerformSourced(c: Config, s: System, a: Action)
    requires WellFormed(s) && Enabled(c, s, a) && Timed(c, s) && Sourced(s)
    ensures WellFormed(Perform(c, s, a)) && Sourced(Perform(c, s, a))
  {
    PerformExtends(c, s, a);
    match a
    case RecordMeta => SourcedAfterRecord(c, s);
    case TakeAckOf(h) => SourcedAfterAck(c, s, h);
    case StoreAnswered => SourcedAfterResp(c, s);
    case Close => SourcedAfterClose(c, s);
    case _ => TablesKept(s, Perform(c, s, a), s.ecu);
  }

  lemma {:induction false} ExecuteKeeps(c: Config, s: System, schedule: seq<Action>)
    requires WellFormed(s) && Timed(c, s) && Sourced(s)
    ensures Timed(c, Execute(c, s, schedule)) && Sourced(Execute(c, s, schedule))
    decreases |schedule|
  {
    if schedule == [] {
    } else {
      if Enabled(c, s, schedule[0]) {
        PerformTimed(c, s, schedule[0]);
        PerformSourced(c, s, schedule[0]);
        ExecuteKeeps(c, Perform(c, s, schedule[0]), schedule[1..]);
      } else {
        ExecuteKeeps(c, s, schedule[1..]);
      }
    }
  }

  // ----- Main results -----

  /**
   The row joins request `i`, the ACK of handler `a` and the RESP of handler `r`, both of the row's radar and both
   serving request `i`, and the ECU answered that RESP at `ecuMs`; the four times are in causal order.
   */
  predicate Explains(c: Config, s: System, row: Row, i: nat, a: nat, r: nat, ecuMs: nat) {
    && i < |s.sent| && a < |s.handlers| && r < |s.handlers|
    && var request, acker, responder := s.sent[i], s.handlers[a], s.handlers[r];
    && acker.rid == row.rid && acker.request == i && acker.pc in {AckSent, Working, RespStamped, RespSent}
    && responder.rid == row.rid && responder.request == i && responder.pc == RespSent
    && row == Row(row.rid, request.d1, Wire(request.ms), Wire(acker.ackMs), Wire(responder.respMs), Wire(ecuMs),
                  request.d1, request.d2, request.d3, request.d4, responder.c, responder.d)
    && request.ms <= acker.ackMs <= Ms(s.now)
    && request.ms <= responder.ackMs && responder.ackMs + c.Lo() <= responder.respMs <= ecuMs <= Ms(s.now)
  }

  /**
   In every run - with loss, reordering, duplication, overlapping requests and any number of radars - a row whose
   request id is unique carries the request actually sent and timestamps taken in causal order.
   */
  lemma {:induction false} RowsAreCausal(c: Config, startNs: nat, schedule: seq<Action>, row: Row)
    requires row in Execute(c, Boot(startNs), schedule).ecu.rows
    requires UniqueId(Execute(c, Boot(startNs), schedule), row.reqId)
    ensures exists i: nat, a: nat, r: nat, ecuMs: nat ::
              Explains(c, Execute(c, Boot(startNs), schedule), row, i, a, r, ecuMs)
  {
    var s := Execute(c, Boot(startNs), schedule);
    ExecuteKeeps(c, Boot(startNs), schedule);
    assert RowSourced(s, row);
    var k, m := (row.rid, row.reqId), Meta(row.sendTs, row.d1, row.d2, row.d3, row.d4);
    var i: nat :| IsRequest(s, i, row.reqId, m);
    var a: nat :| IsAck(s, a, k, row.ackTs);
    var r: nat, ecuMs: nat :| IsResp(s, r, ecuMs, k, row.respTs, row.c, row.d, row.ecuTs);
    assert s.sent[s.handlers[a].request].d1 == s.sent[s.handlers[r].request].d1 == s.sent[i].d1;
    assert Explains(c, s, row, i, a, r, ecuMs);
  }

  /** The three latencies of a row, as the log line and the worksheet compute them. */
  function L1(row: Row): Option<int> { IntDifference(row.ackTs, row.sendTs) }

  function L2(row: Row): Option<int> { IntDifference(row.respTs, row.ackTs) }

  function L3(row: Row): Option<int> { IntDifference(row.ecuTs, row.respTs) }

  /** The whole run, from boot to now, stays between two of the instants at which the cast to `int` changes sign. */
  predicate WithinSignWindow(startNs: nat, s: System) {
    SignWindow(Ms(startNs)) == SignWindow(Ms(s.now)) && Ms(s.now) - Ms(startNs) < TWO_31
  }

  ghost predicate SentSince(startNs: nat, s: System) {
    startNs <= s.now && forall i :: 0 <= i < |s.sent| ==> Ms(startNs) <= s.sent[i].ms
  }

  lemma {:induction false} ExecuteSentSince(c: Config, startNs: nat, s: System, schedule: seq<Action>)
    requires WellFormed(s) && SentSince(startNs, s)
    ensures SentSince(startNs, Execute(c, s, schedule))
    decreases |schedule|
  {
    if schedule == [] {
    } else {
      if Enabled(c, s, schedule[0]) {
        MsMonotone(startNs, s.now);
        PerformExtends(c, s, schedule[0]);
        ExecuteSentSince(c, startNs, Perform(c, s, schedule[0]), schedule[1..]);
      } else {
        ExecuteSentSince(c, startNs, s, schedule[1..]);
      }
    }
  }

  lemma {:induction false} SameWindow(earlier: nat, t: nat, u: nat, later: nat)
    requires earlier <= t <= later && earlier <= u <= later
    requires SignWindow(earlier) == SignWindow(later) && later - earlier < TWO_31
    ensures IntDifference(Wire(u), Wire(t)) == Some(u - t)
  {
    IntDifferenceExact(u, t);
  }

  /** The four differences of a row's stamps, taken at these true times. */
  lemma {:induction false} LatenciesAre(row: Row, start: nat, now: nat, send: nat, ack: nat, resp: nat, ecu: nat)
    requires row.sendTs == Wire(send) && row.ackTs == Wire(ack) && row.respTs == Wire(resp) && row.ecuTs == Wire(ecu)
    requires start <= send <= now && start <= ack <= now && start <= resp <= now && start <= ecu <= now
    requires SignWindow(start) == SignWindow(now) && now - start < TWO_31
    ensures L1(row) == Some(ack - send) && L2(row) == Some(resp - ack) && L3(row) == Some(ecu - resp)
    ensures IntDifference(row.ecuTs, row.sendTs) == Some(ecu - send)
  {
    SameWindow(start, send, ack, now);
    SameWindow(start, ack, resp, now);
    SameWindow(start, resp, ecu, now);
    SameWindow(start, send, ecu, now);
  }

  lemma {:induction false} RunExplains(c: Config, startNs: nat, schedule: seq<Action>, row: Row)
    returns (i: nat, a: nat, r: nat, ecuMs: nat)
    requires row in Execute(c, Boot(startNs), schedule).ecu.rows
    requires UniqueId(Execute(c, Boot(startNs), schedule), row.reqId)
    ensures var s := Execute(c, Boot(startNs), schedule);
            && Explains(c, s, row, i, a, r, ecuMs)
            && Ms(startNs) <= s.sent[i].ms
            && KeyOf(s, a) == KeyOf(s, r) == (row.rid, row.reqId)
  {
    RowsAreCausal(c, startNs, schedule, row);
    ExecuteSentSince(c, startNs, Boot(startNs), schedule);
    i, a, r, ecuMs :| Explains(c, Execute(c, Boot(startNs), schedule), row, i, a, r, ecuMs);
  }

  /**
   Timing safety: within one sign window the latencies of such a row are defined, the outer two are non-negative, they
   add up to the ECU's round trip, and the middle one is at least the radar's minimum work time when one handler served
   the request.
   */
  lemma {:induction false} RowsAreTimed(c: Config, startNs: nat, schedule: seq<Action>, row: Row)
    requires row in Execute(c, Boot(startNs), schedule).ecu.rows
    requires UniqueId(Execute(c, Boot(startNs), schedule), row.reqId)
    requires WithinSignWindow(startNs, Execute(c, Boot(startNs), schedule))
    ensures L1(row).Some? && L2(row).Some? && L3(row).Some?
    ensures L1(row).value >= 0 && L3(row).value >= 0
    ensures IntDifference(row.ecuTs, row.sendTs) == Some(L1(row).value + L2(row).value + L3(row).value)
    ensures HandledOnce(Execute(c, Boot(startNs), schedule), (row.rid, row.reqId)) ==> L2(row).value >= c.Lo()
  {
    var s := Execute(c, Boot(startNs), schedule);
    var i, a, r, ecuMs := RunExplains(c, startNs, schedule, row);
    LatenciesAre(row, Ms(startNs), Ms(s.now), s.sent[i].ms, s.handlers[a].ackMs, s.handlers[r].respMs, ecuMs);
  }

  /** A handler that set out to work for `ms` milliseconds does not respond before they are over. */
  predicate WorksFor(s: System, h: nat, ms: nat) {
    && h < |s.handlers| && Rank(s.handlers[h].pc) >= 3
    && (s.handlers[h].ackMs + ms) * NS_PER_MS <= s.handlers[h].wakeNs
    && (Rank(s.handlers[h].pc) >= 4 ==> s.handlers[h].ackMs + ms <= s.handlers[h].respMs)
  }

  lemma {:induction false} PerformWorksFor(c: Config, s: System, a: Action, h: nat, ms: nat)
    requires WellFormed(s) && Enabled(c, s, a) && WorksFor(s, h, ms)
    ensures WorksFor(Perform(c, s, a), h, ms)
  {
    if a.StampResp? && a.h == h {
      StampsAfterWaking(s.handlers[h].ackMs + ms, s.handlers[h].wakeNs, s.now);
    }
  }

  lemma {:induction false} ExecuteWorksFor(c: Config, s: System, schedule: seq<Action>, h: nat, ms: nat)
    requires WellFormed(s) && WorksFor(s, h, ms)
    ensures WorksFor(Execute(c, s, schedule), h, ms)
    decreases |schedule|
  {
    if schedule == [] {
    } else {
      if Enabled(c, s, schedule[0]) {
        PerformWorksFor(c, s, schedule[0], h, ms);
        ExecuteWorksFor(c, Perform(c, s, schedule[0]), schedule[1..], h, ms);
      } else {
        ExecuteWorksFor(c, s, schedule[1..], h, ms);
      }
    }
  }

  /** Whatever work time within the configured range is drawn, the RESP comes at least that long after the ACK. */
  lemma {:induction false} WorkIsDone(c: Config, startNs: nat, before: seq<Action>, h: nat, ms: nat,
                                      after: seq<Action>)
    requires Enabled(c, Execute(c, Boot(startNs), before), StartWork(h, ms))
    ensures var s := Execute(c, Perform(c, Execute(c, Boot(startNs), before), StartWork(h, ms)), after);
            h < |s.handlers| && (Rank(s.handlers[h].pc) >= 4 ==> s.handlers[h].ackMs + ms <= s.handlers[h].respMs)
  {
    var s := Execute(c, Boot(startNs), before);
    ExecuteKeeps(c, Boot(startNs), before);
    assert HandlerTimed(c, s, s.handlers[h]);
    assert (s.handlers[h].ackMs + ms) * NS_PER_MS <= s.now + ms * NS_PER_MS;
    ExecuteWorksFor(c, Perform(c, s, StartWork(h, ms)), after, h, ms);
  }

  // ----- Exactly which networks keep the work-time bound -----

  lemma {:induction false} ExecuteSnoc(c: Config, s: System, schedule: seq<Action>, a: Action)
    requires WellFormed(s)
    ensures var s' := Execute(c, s, schedule);
            Execute(c, s, schedule + [a]) == if Enabled(c, s', a) then Perform(c, s', a) else s'
    decreases |schedule|
  {
    if schedule == [] {
      assert ([] + [a])[1..] == [];
    } else {
      assert (schedule + [a])[1..] == schedule[1..] + [a];
      if Enabled(c, s, schedule[0]) {
        ExecuteSnoc(c, Perform(c, s, schedule[0]), schedule[1..], a);
      } else {
        ExecuteSnoc(c, s, schedule[1..], a);
      }
    }
  }

  /** Adds one enabled action to a schedule. */
  lemma {:induction false} Then(c: Config, start: System, schedule: seq<Action>, s: System, a: Action)
    returns (schedule': seq<Action>, s': System)
    requires WellFormed(start) && s == Execute(c, start, schedule) && Enabled(c, s, a)
    ensures schedule' == schedule + [a] && s' == Perform(c, s, a) == Execute(c, start, schedule')
  {
    schedule', s' := schedule + [a], Perform(c, s, a);
    ExecuteSnoc(c, start, schedule, a);
  }

  const START_MS: nat := TWO_31
  const REQUEST_7 := Request(7, 0, 0, 0, START_MS)
  const TABLE_7 := Ecu(map[7 := Meta(Wire(START_MS), 7, 0, 0, 0)], map[], [])

  /** The first handler, serving the request from the start and done after the shortest work; the second, a ms later. */
  function FirstDone(c: Config): Handler {
    Handler("1", 0, RespSent, START_MS, (START_MS + c.Lo()) * NS_PER_MS, START_MS + c.Lo(), 5, 6)
  }

  /** The second handler acknowledges a ms after the first one responded, or a ms after the start. */
  function SecondAckMs(c: Config, respFirst: bool): nat {
    if respFirst then START_MS + c.Lo() + 1 else START_MS + 1
  }

  function SecondAcked(ms: nat): Handler {
    Handler("1", 0, AckSent, ms, 0, 0, 0, 0)
  }

  /** When the later of the RESP and the second ACK is stamped. */
  function EndMs(c: Config, respFirst: bool): nat {
    if respFirst then START_MS + c.Lo() + 1 else START_MS + c.Lo()
  }

  /** A request that was sent and recorded. */
  lemma {:induction false} OneRequest(c: Config) returns (schedule: seq<Action>, s: System)
    ensures s == Execute(c, Boot(START_MS * NS_PER_MS), schedule)
    ensures s == System(START_MS * NS_PER_MS, [REQUEST_7], 1, 1, [], TABLE_7, Idle)
  {
    var start := Boot(START_MS * NS_PER_MS);
    schedule, s := Then(c, start, [], start, StampRequest(7, 0, 0, 0));
    schedule, s := Then(c, start, schedule, s, PublishRequest);
    schedule, s := Then(c, start, schedule, s, RecordMeta);
  }

  /** It reached a radar twice; the first handler acknowledged it and went to work. */
  lemma {:induction false} TwoHandlers(c: Config) returns (schedule: seq<Action>, s: System)
    ensures s == Execute(c, Boot(START_MS * NS_PER_MS), schedule)
    ensures s == System(START_MS * NS_PER_MS, [REQUEST_7], 1, 1,
                        [FirstDone(c).(pc := Working, respMs := 0, c := 0, d := 0),
                         SecondAcked(0).(pc := Started)], TABLE_7, Idle)
  {
    var start := Boot(START_MS * NS_PER_MS);
    schedule, s := OneRequest(c);
    schedule, s := Then(c, start, schedule, s, Deliver("1", 0));
    schedule, s := Then(c, start, schedule, s, Deliver("1", 0));
    schedule, s := Then(c, start, schedule, s, StampAck(0));
    schedule, s := Then(c, start, schedule, s, SendAck(0));
    schedule, s := Then(c, start, schedule, s, StartWork(0, c.Lo()));
  }

  /** A millisecond later the second handler acknowledges it, too. */
  lemma {:induction false} SecondAcks(c: Config, schedule: seq<Action>, s: System, ms: nat)
    returns (schedule': seq<Action>, s': System)
    requires WellFormed(s) && s == Execute(c, Boot(START_MS * NS_PER_MS), schedule)
    requires s.now == ms * NS_PER_MS && |s.handlers| == 2 && s.handlers[1] == SecondAcked(0).(pc := Started)
    ensures s' == Execute(c, Boot(START_MS * NS_PER_MS), schedule')
    ensures s' == s.(now := (ms + 1) * NS_PER_MS, handlers := [s.handlers[0], SecondAcked(ms + 1)])
  {
    var start := Boot(START_MS * NS_PER_MS);
    schedule', s' := Then(c, start, schedule, s, Tick(NS_PER_MS));
    schedule', s' := Then(c, start, schedule', s', StampAck(1));
    schedule', s' := Then(c, start, schedule', s', SendAck(1));
  }

  /** ... and the first one responds as soon as it may. */
  lemma {:induction false} FirstResponds(c: Config, schedule: seq<Action>, s: System)
    returns (schedule': seq<Action>, s': System)
    requires WellFormed(s) && s == Execute(c, Boot(START_MS * NS_PER_MS), schedule)
    requires s.now <= (START_MS + c.Lo()) * NS_PER_MS && |s.handlers| == 2
    requires s.handlers[0] == FirstDone(c).(pc := Working, respMs := 0, c := 0, d := 0)
    ensures s' == Execute(c, Boot(START_MS * NS_PER_MS), schedule')
    ensures s' == s.(now := (START_MS + c.Lo()) * NS_PER_MS, handlers := [FirstDone(c), s.handlers[1]])
  {
    var start := Boot(START_MS * NS_PER_MS);
    schedule', s' := Then(c, start, schedule, s, Tick((START_MS + c.Lo()) * NS_PER_MS - s.now));
    schedule', s' := Then(c, start, schedule', s', StampResp(0, 5, 6));
    schedule', s' := Then(c, start, schedule', s', SendResp(0));
  }

  lemma {:induction false} BothHandled(c: Config, respFirst: bool) returns (schedule: seq<Action>, s: System)
    requires respFirst || c.Lo() > 0
    ensures s == Execute(c, Boot(START_MS * NS_PER_MS), schedule)
    ensures s == System(EndMs(c, respFirst) * NS_PER_MS, [REQUEST_7], 1, 1,
                        [FirstDone(c), SecondAcked(SecondAckMs(c, respFirst))], TABLE_7, Idle)
  {
    schedule, s := TwoHandlers(c);
    if respFirst {
      schedule, s := FirstResponds(c, schedule, s);
      schedule, s := SecondAcks(c, schedule, s, START_MS + c.Lo());
    } else {
      schedule, s := SecondAcks(c, schedule, s, START_MS);
      schedule, s := FirstResponds(c, schedule, s);
    }
  }

  /** The ECU takes the second handler's ACK. */
  lemma {:induction false} SecondAckTaken(c: Config, respFirst: bool) returns (schedule: seq<Action>, s: System)
    requires respFirst || c.Lo() > 0
    requires EndMs(c, respFirst) - START_MS < TWO_31
    ensures s == Execute(c, Boot(START_MS * NS_PER_MS), schedule)
    ensures s == System(EndMs(c, respFirst) * NS_PER_MS, [REQUEST_7], 1, 1,
                        [FirstDone(c), SecondAcked(SecondAckMs(c, respFirst))],
                        TABLE_7.(pending := map[("1", 7) := Txn(Wire(START_MS), Wire(SecondAckMs(c, respFirst)), 0, 0,
                                                                7, 0, 0, 0, 0, 0)]), Idle)
  {
    var start := Boot(START_MS * NS_PER_MS);
    schedule, s := BothHandled(c, respFirst);
    schedule, s := Then(c, start, schedule, s, TakeAckOf(1));
    schedule, s := Then(c, start, schedule, s, Close);
  }

  /** ... and stores the first handler's RESP. */
  lemma {:induction false} FirstRespStored(c: Config, respFirst: bool) returns (schedule: seq<Action>, s: System)
    requires respFirst || c.Lo() > 0
    requires EndMs(c, respFirst) - START_MS < TWO_31
    ensures s == Execute(c, Boot(START_MS * NS_PER_MS), schedule)
    ensures s == System(EndMs(c, respFirst) * NS_PER_MS, [REQUEST_7], 1, 1,
                        [FirstDone(c), SecondAcked(SecondAckMs(c, respFirst))],
                        TABLE_7.(pending := map[("1", 7) := MixedEntry(c, respFirst)]), Closing(("1", 7)))
  {
    var start := Boot(START_MS * NS_PER_MS);
    schedule, s := SecondAckTaken(c, respFirst);
    schedule, s := Then(c, start, schedule, s, AnswerRespOf(0));
    schedule, s := Then(c, start, schedule, s, StoreAnswered);
  }

  function MixedEntry(c: Config, respFirst: bool): Txn {
    Txn(Wire(START_MS), Wire(SecondAckMs(c, respFirst)), Wire(START_MS + c.Lo()), Wire(EndMs(c, respFirst)),
        7, 0, 0, 0, 5, 6)
  }

  lemma {:induction false} FirstRespJoined(c: Config, respFirst: bool) returns (schedule: seq<Action>, s: System)
    requires respFirst || c.Lo() > 0
    requires EndMs(c, respFirst) - START_MS < TWO_31
    ensures s == Execute(c, Boot(START_MS * NS_PER_MS), schedule)
    ensures s == System(EndMs(c, respFirst) * NS_PER_MS, [REQUEST_7], 1, 1,
                        [FirstDone(c), SecondAcked(SecondAckMs(c, respFirst))],
                        TABLE_7.(rows := [RowOf(("1", 7), MixedEntry(c, respFirst))]), Idle)
  {
    schedule, s := FirstRespStored(c, respFirst);
    schedule, s := Then(c, Boot(START_MS * NS_PER_MS), schedule, s, Close);
  }

  /** The handlers that ran for a radar and a request id: how often the network delivered that request to that radar. */
  function HandlersOf(s: System, k: Key): set<nat>
    requires WellFormed(s)
  {
    set h: nat | h < |s.handlers| && KeyOf(s, h) == k
  }

  ghost predicate DeliversAtMost(s: System, n: nat)
    requires WellFormed(s)
  {
    forall k :: |HandlersOf(s, k)| <= n
  }

  /**
   When the network delivers a request twice to a radar, the ECU may join the ACK of the second handler with the RESP of
   the first: the reported work time is negative, or just short of the work that was done.
   */
  lemma {:induction false} DuplicatedRequestBreaksL2(c: Config, respFirst: bool)
    returns (schedule: seq<Action>, row: Row)
    requires respFirst || c.Lo() > 0
    requires EndMs(c, respFirst) - START_MS < TWO_31
    ensures var s := Execute(c, Boot(START_MS * NS_PER_MS), schedule);
            && s.ecu.rows == [row] && UniqueId(s, row.reqId) && WithinSignWindow(START_MS * NS_PER_MS, s)
            && DeliversAtMost(s, 2) && !HandledOnce(s, (row.rid, row.reqId))
            && L2(row) == Some(if respFirst then -1 else c.Lo() - 1)
  {
    var s;
    schedule, s := FirstRespJoined(c, respFirst);
    row := s.ecu.rows[0];
    forall k ensures |HandlersOf(s, k)| <= 2 {
      SubsetSize(HandlersOf(s, k), {0, 1});
    }
    assert KeyOf(s, 0) == KeyOf(s, 1) == ("1", 7);
    SameWindow(START_MS, SecondAckMs(c, respFirst), START_MS + c.Lo(), Ms(s.now));
  }

  lemma {:induction false} OnceIsHandledOnce(s: System, k: Key)
    requires WellFormed(s) && |HandlersOf(s, k)| <= 1
    ensures HandledOnce(s, k)
  {
    forall h, g | 0 <= h < |s.handlers| && 0 <= g < |s.handlers| && KeyOf(s, h) == k && KeyOf(s, g) == k
      ensures h == g
    {
      if h != g {
        SubsetSize({h, g}, HandlersOf(s, k));
      }
    }
  }

  /** A work time of 2^31 ms or more leaves no room for a row within one sign window. */
  lemma {:induction false} LongWorkHasNoRows(c: Config, startNs: nat, schedule: seq<Action>, row: Row)
    requires row in Execute(c, Boot(startNs), schedule).ecu.rows
    requires UniqueId(Execute(c, Boot(startNs), schedule), row.reqId)
    requires WithinSignWindow(startNs, Execute(c, Boot(startNs), schedule))
    ensures c.Lo() < TWO_31
  {
    var i, a, r, ecuMs := RunExplains(c, startNs, schedule, row);
  }

  /** In every run that delivers each request at most `n` times to a radar, every row shows the work time. */
  ghost predicate KeepsWorkTime(c: Config, n: nat) {
    forall startNs, schedule, row :: ShowsWorkTime(c, n, startNs, schedule, row)
  }

  ghost predicate ShowsWorkTime(c: Config, n: nat, startNs: nat, schedule: seq<Action>, row: Row) {
    var s := Execute(c, Boot(startNs), schedule);
    row in s.ecu.rows && UniqueId(s, row.reqId) && WithinSignWindow(startNs, s) && DeliversAtMost(s, n) ==>
      L2(row).Some? && L2(row).value >= c.Lo()
  }

  /**
   The bound on L2 holds over all runs if and only if no request is delivered twice to a radar, or the work time is so
   long that no row fits in the window at all.
   */
  lemma {:induction false} WorkTimeExactly(c: Config, n: nat)
    ensures KeepsWorkTime(c, n) <==> n <= 1 || c.Lo() >= TWO_31
  {
    if n <= 1 || c.Lo() >= TWO_31 {
      forall startNs, schedule, row ensures ShowsWorkTime(c, n, startNs, schedule, row) {
        var s := Execute(c, Boot(startNs), schedule);
        if row in s.ecu.rows && UniqueId(s, row.reqId) && WithinSignWindow(startNs, s) && DeliversAtMost(s, n) {
          LongWorkHasNoRows(c, startNs, schedule, row);
          OnceIsHandledOnce(s, (row.rid, row.reqId));
          RowsAreTimed(c, startNs, schedule, row);
        }
      }
    } else {
      var schedule, row := DuplicatedRequestBreaksL2(c, c.Lo() + 1 < TWO_31);
      assert !ShowsWorkTime(c, n, START_MS * NS_PER_MS, schedule, row);
    }
  }
}
