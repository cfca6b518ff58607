/**
 The vsomeip start-up barrier across both processes. The ECU collects service availability per slot, sends READY once a
 slot has all three services, and starts the calibration broadcaster on the first READY response; the publisher counts
 slots with a compare-exchange on the slot's flag followed by a separate increment, and its workers wait for the
 count. Callbacks run on any number of threads, so every atomic access is a step, and the network may deliver a READY
 request or response any number of times.
 */
module ReadyBarrier {
  import opened Common

  datatype Service = Heartbeat | Objects | Detections

  /** `try_send_ready_for_slot`, between its atomic accesses. */
  datatype SenderPc = CheckSent | CheckServices | Armed | Sent | SenderDone
  datatype Sender = Sender(slot: nat, pc: SenderPc)

  /** `on_ready`: received, past a successful compare-exchange but not yet counted, about to respond, done. */
  datatype HandlerPc = Received | Won | Answering | HandlerDone
  datatype Handler = Handler(slot: nat, pc: HandlerPc)

  /** The broadcaster thread in its `k`-th iteration. */
  datatype BroadcasterPc = LoopTop | Scanning(slot: nat) | Inserting(slot: nat) | Sleeping | Finished
  datatype Broadcaster = Broadcaster(k: nat, pc: BroadcasterPc)

  /** A calibration event sent to a slot in the `k`-th broadcast. */
  datatype Notification = Notification(k: nat, slot: nat)

  const ECU_SLOTS: nat := 6

  /** `slotsTotal` is the publisher's number of slots, `targetCount` the broadcaster's number of iterations. */
  datatype Config = Config(slotsTotal: nat, targetCount: nat)

  datatype System = System(
    hb: set<nat>, obj: set<nat>, det: set<nat>, readySent: set<nat>, readyAcked: set<nat>,
    senders: seq<Sender>, starters: nat, running: bool, broadcasters: seq<Broadcaster>, notified: seq<Notification>,
    requests: set<nat>, responses: set<nat>,
    isReady: set<nat>, slotsReady: nat, handlers: seq<Handler>, released: set<nat>)

  const BOOT := System({}, {}, {}, {}, {}, [], 0, false, [], [], {}, {}, {}, 0, [], {})

  datatype Action =
    | ServiceAvailable(service: Service, slot: nat)
    | StepSender(i: nat)
    | DeliverRequest(slot: nat)
    | StepHandler(i: nat)
    | DeliverResponse(slot: nat)
    | StepStarter
    | StepBroadcaster(i: nat, stop: bool)
    | PassBarrier(worker: nat)

  function ServicesUp(s: System): set<nat> {
    s.hb * s.obj * s.det
  }

  predicate Enabled(c: Config, s: System, a: Action) {
    match a
    case ServiceAvailable(_, slot) => slot < c.slotsTotal && slot < ECU_SLOTS
    case StepSender(i) => i < |s.senders|
    case DeliverRequest(slot) => slot in s.requests
    case StepHandler(i) => i < |s.handlers|
    case DeliverResponse(slot) => slot in s.responses && slot < ECU_SLOTS
    case StepStarter => s.starters > 0
    case StepBroadcaster(i, _) => i < |s.broadcasters|
    case PassBarrier(worker) => worker < c.slotsTotal && s.slotsReady >= c.slotsTotal
  }

  /** `on_availability` stores the service's flag and goes on to `try_send_ready_for_slot`. */
  function OnAvailability(s: System, service: Service, slot: nat): System {
    var s' := match service
              case Heartbeat => s.(hb := s.hb + {slot})
              case Objects => s.(obj := s.obj + {slot})
              case Detections => s.(det := s.det + {slot});
    s'.(senders := s'.senders + [Sender(slot, CheckSent)])
  }

  function SenderStep(s: System, i: nat): System
    requires i < |s.senders|
  {
    var slot := s.senders[i].slot;
    match s.senders[i].pc
    case CheckSent =>
      s.(senders := s.senders[i := Sender(slot, if slot in s.readySent then SenderDone else CheckServices)])
    case CheckServices =>
      s.(senders := s.senders[i := Sender(slot, if slot in ServicesUp(s) then Armed else SenderDone)])
    case Armed => s.(requests := s.requests + {slot}, senders := s.senders[i := Sender(slot, Sent)])
    case Sent => s.(readySent := s.readySent + {slot}, senders := s.senders[i := Sender(slot, SenderDone)])
    case SenderDone => s
  }

  function HandlerStep(c: Config, s: System, i: nat): System
    requires i < |s.handlers|
  {
    var slot := s.handlers[i].slot;
    match s.handlers[i].pc
    case Received =>
      if slot < c.slotsTotal && slot !in s.isReady then
        s.(isReady := s.isReady + {slot}, handlers := s.handlers[i := Handler(slot, Won)])
      else
        s.(handlers := s.handlers[i := Handler(slot, Answering)])
    case Won => s.(slotsReady := s.slotsReady + 1, handlers := s.handlers[i := Handler(slot, Answering)])
    case Answering => s.(responses := s.responses + {slot}, handlers := s.handlers[i := Handler(slot, HandlerDone)])
    case HandlerDone => s
  }

  /** `start_cal_broadcast_if_needed`: the exchange that at most one caller wins. */
  function StarterStep(s: System): System
    requires s.starters > 0
  {
    var s' := s.(starters := s.starters - 1, running := true);
    if s.running then s' else s'.(broadcasters := s.broadcasters + [Broadcaster(0, LoopTop)])
  }

  function BroadcasterStep(c: Config, s: System, i: nat, stop: bool): System
    requires i < |s.broadcasters|
  {
    var k := s.broadcasters[i].k;
    match s.broadcasters[i].pc
    case LoopTop =>
      var pc := if k < c.targetCount && !stop then (if s.readyAcked != {} then Scanning(0) else Sleeping) else Finished;
      s.(broadcasters := s.broadcasters[i := Broadcaster(k, pc)])
    case Scanning(slot) =>
      if slot >= ECU_SLOTS then
        s.(broadcasters := s.broadcasters[i := Broadcaster(k, Sleeping)])
      else if slot in s.readyAcked then
        s.(notified := s.notified + [Notification(k, slot)],
           broadcasters := s.broadcasters[i := Broadcaster(k, Inserting(slot))])
      else
        s.(broadcasters := s.broadcasters[i := Broadcaster(k, Scanning(slot + 1))])
    case Inserting(slot) => s.(broadcasters := s.broadcasters[i := Broadcaster(k, Scanning(slot + 1))])
    case Sleeping => s.(broadcasters := s.broadcasters[i := Broadcaster(k + 1, LoopTop)])
    case Finished => s
  }

  function Perform(c: Config, s: System, a: Action): System
    requires Enabled(c, s, a)
  {
    match a
    case ServiceAvailable(service, slot) => OnAvailability(s, service, slot)
    case StepSender(i) => SenderStep(s, i)
    case DeliverRequest(slot) => s.(handlers := s.handlers + [Handler(slot, Received)])
    case StepHandler(i) => HandlerStep(c, s, i)
    case DeliverResponse(slot) => s.(readyAcked := s.readyAcked + {slot}, starters := s.starters + 1)
    case StepStarter => StarterStep(s)
    case StepBroadcaster(i, stop) => BroadcasterStep(c, s, i, stop)
    case PassBarrier(worker) => s.(released := s.released + {worker})
  }

  function Next(c: Config, s: System, a: Action): System {
    if Enabled(c, s, a) then Perform(c, s, a) else s
  }

  /** Any interleaving is a list of actions; one that is not enabled when its turn comes does nothing. */
  function Execute(c: Config, schedule: seq<Action>): System {
    if schedule == [] then BOOT
    else Next(c, Execute(c, schedule[..|schedule| - 1]), schedule[|schedule| - 1])
  }

  // ----- The counter -----

  /** The handlers that won the compare-exchange and have not incremented the counter yet. */
  function WonCount(handlers: seq<Handler>): nat {
    if handlers == [] then 0
    else WonCount(handlers[..|handlers| - 1]) + if handlers[|handlers| - 1].pc == Won then 1 else 0
  }

  lemma {:induction false} WonCountUpdate(handlers: seq<Handler>, i: nat, h: Handler)
    requires i < |handlers|
    ensures WonCount(handlers[i := h]) == WonCount(handlers) - (if handlers[i].pc == Won then 1 else 0)
                                          + if h.pc == Won then 1 else 0
  {
    var n := |handlers| - 1;
    if i < n {
      WonCountUpdate(handlers[..n], i, h);
      assert handlers[i := h][..n] == handlers[..n][i := h];
    } else {
      assert handlers[i := h][..n] == handlers[..n];
    }
  }

  /** `won` handlers short, the counter is the number of flags, which are those of some of the slots. */
  predicate Counted(total: nat, flags: set<nat>, count: nat, won: nat) {
    count + won == |flags| && forall slot :: slot in flags ==> slot < total
  }

  ghost predicate CounterInv(c: Config, s: System) {
    && Counted(c.slotsTotal, s.isReady, s.slotsReady, WonCount(s.handlers))
    && (s.released != {} ==> s.slotsReady >= c.slotsTotal)
  }

  lemma {:induction false} OneMoreFlag(total: nat, flags: set<nat>, count: nat, won: nat, slot: nat)
    requires Counted(total, flags, count, won) && slot < total && slot !in flags
    ensures Counted(total, flags + {slot}, count, won + 1)
  {
    assert |flags + {slot}| == |flags| + 1;
  }

  lemma {:induction false} WonCountSnoc(handlers: seq<Handler>, h: Handler)
    ensures WonCount(handlers + [h]) == WonCount(handlers) + if h.pc == Won then 1 else 0
  {
    assert (handlers + [h])[..|handlers|] == handlers;
  }

  lemma {:induction false} CounterAfterHandler(c: Config, s: System, i: nat)
    requires CounterInv(c, s) && i < |s.handlers|
    ensures CounterInv(c, HandlerStep(c, s, i))
  {
    var slot := s.handlers[i].slot;
    match s.handlers[i].pc
    case Received =>
      if slot < c.slotsTotal && slot !in s.isReady {
        WonCountUpdate(s.handlers, i, Handler(slot, Won));
        OneMoreFlag(c.slotsTotal, s.isReady, s.slotsReady, WonCount(s.handlers), slot);
      } else {
        WonCountUpdate(s.handlers, i, Handler(slot, Answering));
      }
    case Won => WonCountUpdate(s.handlers, i, Handler(slot, Answering));
    case Answering => WonCountUpdate(s.handlers, i, Handler(slot, HandlerDone));
    case HandlerDone =>
  }

  /** Steps that have no part in counting: those of the ECU's threads. */
  predicate StepsEcu(a: Action) {
    a.ServiceAvailable? || a.StepSender? || a.DeliverResponse? || a.StepStarter? || a.StepBroadcaster?
  }

  lemma {:induction false} EcuKeepsCounter(c: Config, s: System, a: Action)
    requires Enabled(c, s, a) && StepsEcu(a)
    ensures var s' := Perform(c, s, a);
            && s'.isReady == s.isReady && s'.slotsReady == s.slotsReady
            && s'.handlers == s.handlers && s'.released == s.released
  {
  }

  lemma {:induction false} CounterKept(c: Config, s: System, a: Action)
    requires CounterInv(c, s)
    ensures CounterInv(c, Next(c, s, a))
  {
    if Enabled(c, s, a) {
      if StepsEcu(a) {
        EcuKeepsCounter(c, s, a);
      } else if a.StepHandler? {
        CounterAfterHandler(c, s, a.i);
      } else if a.DeliverRequest? {
        WonCountSnoc(s.handlers, Handler(a.slot, Received));
      } else {
        assert a.PassBarrier?;
      }
    }
  }

  // ----- The causal chain -----

  /** Each stage has its predecessor: services, READY request, slot flag, READY response, acknowledgement, event. */
  ghost predicate ChainInv(c: Config, s: System) {
    && (forall slot :: slot in s.hb || slot in s.obj || slot in s.det ==> slot < c.slotsTotal && slot < ECU_SLOTS)
    && (forall i :: 0 <= i < |s.senders| && s.senders[i].pc in {Armed, Sent} ==> s.senders[i].slot in ServicesUp(s))
    && (forall i :: 0 <= i < |s.senders| && s.senders[i].pc == Sent ==> s.senders[i].slot in s.requests)
    && s.readySent <= s.requests <= ServicesUp(s)
    && (forall i :: 0 <= i < |s.handlers| ==> s.handlers[i].slot in s.requests)
    && (forall i :: 0 <= i < |s.handlers| && s.handlers[i].pc != Received ==> s.handlers[i].slot in s.isReady)
    && s.isReady <= s.requests
    && s.responses <= s.isReady
    && s.readyAcked <= s.responses
    && (forall i :: 0 <= i < |s.notified| ==> s.notified[i].slot in s.readyAcked)
  }

  lemma {:induction false} ChainAfterSender(c: Config, s: System, i: nat)
    requires ChainInv(c, s) && i < |s.senders|
    ensures ChainInv(c, SenderStep(s, i))
  {
  }

  lemma {:induction false} ChainAfterHandler(c: Config, s: System, i: nat)
    requires ChainInv(c, s) && i < |s.handlers|
    ensures ChainInv(c, HandlerStep(c, s, i))
  {
    var slot := s.handlers[i].slot;
    assert slot in s.requests && slot in ServicesUp(s);
    assert slot in s.hb;
  }

  lemma {:induction false} ChainAfterBroadcaster(c: Config, s: System, i: nat, stop: bool)
    requires ChainInv(c, s) && i < |s.broadcasters|
    ensures ChainInv(c, BroadcasterStep(c, s, i, stop))
  {
  }

  lemma {:induction false} ChainAfterAvailability(c: Config, s: System, service: Service, slot: nat)
    requires ChainInv(c, s) && slot < c.slotsTotal && slot < ECU_SLOTS
    ensures ChainInv(c, OnAvailability(s, service, slot))
  {
    var s' := OnAvailability(s, service, slot);
    assert ServicesUp(s) <= ServicesUp(s');
  }

  lemma {:induction false} ChainKept(c: Config, s: System, a: Action)
    requires ChainInv(c, s)
    ensures ChainInv(c, Next(c, s, a))
  {
    if Enabled(c, s, a) {
      match a
      case ServiceAvailable(service, slot) => ChainAfterAvailability(c, s, service, slot);
      case StepSender(i) => ChainAfterSender(c, s, i);
      case StepHandler(i) => ChainAfterHandler(c, s, i);
      case StepBroadcaster(i, stop) => ChainAfterBroadcaster(c, s, i, stop);
      case _ =>
    }
  }

  // ----- The broadcaster -----

  /** Broadcasts number the notifications: first by iteration, then by slot. */
  function Position(n: Notification): nat {
    ECU_SLOTS * n.k + n.slot
  }

  /** Every notification made so far lies before this position. */
  function Progress(b: Broadcaster): nat {
    ECU_SLOTS * b.k + match b.pc
                      case LoopTop => 0
                      case Scanning(slot) => slot
                      case Inserting(slot) => slot + 1
                      case Sleeping => ECU_SLOTS
                      case Finished => 0
  }

  predicate BroadcasterInv(c: Config, b: Broadcaster) {
    && b.k <= c.targetCount
    && (b.pc.Scanning? ==> b.k < c.targetCount && b.pc.slot <= ECU_SLOTS)
    && (b.pc.Inserting? ==> b.k < c.targetCount && b.pc.slot < ECU_SLOTS)
    && (b.pc.Sleeping? ==> b.k < c.targetCount)
  }

  ghost predicate BroadcastInv(c: Config, s: System) {
    && |s.broadcasters| == (if s.running then 1 else 0)
    && (s.starters > 0 || s.running ==> s.readyAcked != {})
    && (forall i :: 0 <= i < |s.broadcasters| ==> BroadcasterInv(c, s.broadcasters[i]))
    && (forall i :: 0 <= i < |s.notified| ==> s.notified[i].k < c.targetCount && s.notified[i].slot < ECU_SLOTS)
    && (forall i, j :: 0 <= i < j < |s.notified| ==> Position(s.notified[i]) < Position(s.notified[j]))
    && (!s.running ==> s.notified == [])
    && (s.running ==> forall i :: 0 <= i < |s.notified| ==> Position(s.notified[i]) < Progress(s.broadcasters[0]))
  }

  lemma {:induction false} BroadcastAfterStep(c: Config, s: System, i: nat, stop: bool)
    requires BroadcastInv(c, s) && i < |s.broadcasters|
    ensures BroadcastInv(c, BroadcasterStep(c, s, i, stop))
  {
    var s' := BroadcasterStep(c, s, i, stop);
    var b, b' := s.broadcasters[0], s'.broadcasters[0];
    assert i == 0 && BroadcasterInv(c, b) && BroadcasterInv(c, b');
    assert Progress(b) <= Progress(b');
  }

  lemma {:induction false} BroadcastAfterStarter(c: Config, s: System)
    requires BroadcastInv(c, s) && s.starters > 0
    ensures BroadcastInv(c, StarterStep(s))
  {
    if s.running {
    } else {
      assert StarterStep(s).broadcasters == [Broadcaster(0, LoopTop)];
    }
  }

  /** Steps that have no part in broadcasting. */
  lemma {:induction false} BroadcastUntouched(c: Config, s: System, s': System)
    requires BroadcastInv(c, s) && s'.broadcasters == s.broadcasters && s'.notified == s.notified
    requires s'.running == s.running && s.readyAcked <= s'.readyAcked
    requires s'.starters > 0 ==> s'.readyAcked != {}
    ensures BroadcastInv(c, s')
  {
  }

  lemma {:induction false} BroadcastKept(c: Config, s: System, a: Action)
    requires BroadcastInv(c, s)
    ensures BroadcastInv(c, Next(c, s, a))
  {
    if Enabled(c, s, a) {
      match a
      case StepBroadcaster(i, stop) => BroadcastAfterStep(c, s, i, stop);
      case StepStarter => BroadcastAfterStarter(c, s);
      case DeliverResponse(slot) =>
        assert slot in Next(c, s, a).readyAcked;
        BroadcastUntouched(c, s, Next(c, s, a));
      case _ => BroadcastUntouched(c, s, Next(c, s, a));
    }
  }

  lemma {:induction false} InvariantsHold(c: Config, schedule: seq<Action>)
    ensures CounterInv(c, Execute(c, schedule))
    ensures ChainInv(c, Execute(c, schedule))
    ensures BroadcastInv(c, Execute(c, schedule))
  {
    if schedule == [] {
    } else {
      var before, a := schedule[..|schedule| - 1], schedule[|schedule| - 1];
      InvariantsHold(c, before);
      CounterKept(c, Execute(c, before), a);
      ChainKept(c, Execute(c, before), a);
      BroadcastKept(c, Execute(c, before), a);
    }
  }

  // ----- Main results -----

  /** The numbers below `n`. */
  function Below(n: nat): (s: set<nat>)
    ensures |s| == n
    ensures forall x: nat :: x in s <==> x < n
  {
    if n == 0 then {} else Below(n - 1) + {n - 1}
  }

  lemma {:induction false} FullSet(s: set<nat>, n: nat)
    requires forall x :: x in s ==> x < n
    ensures |s| <= n
    ensures |s| == n <==> s == Below(n)
  {
    SubsetSize(s, Below(n));
    if |s| == n && s != Below(n) {
      var x :| x in Below(n) && x !in s;
      SubsetSize(s, Below(n) - {x});
    }
  }

  /**
   Under any interleaving and any number of duplicated READY messages the counter plus the handlers between
   compare-exchange and increment is the number of set flags, and a worker that has passed the barrier proves that every
   slot's flag is set.
   */
  lemma {:induction false} BarrierIsSafe(c: Config, schedule: seq<Action>)
    ensures var s := Execute(c, schedule);
            && s.slotsReady + WonCount(s.handlers) == |s.isReady|
            && (s.released != {} ==> s.isReady == Below(c.slotsTotal))
  {
    InvariantsHold(c, schedule);
    FullSet(Execute(c, schedule).isReady, c.slotsTotal);
  }

  /** With no handler half-way, the barrier is open exactly when every slot's flag is set. */
  lemma {:induction false} BarrierOpensExactly(c: Config, schedule: seq<Action>)
    requires WonCount(Execute(c, schedule).handlers) == 0
    ensures var s := Execute(c, schedule);
            s.slotsReady >= c.slotsTotal <==> s.isReady == Below(c.slotsTotal)
  {
    InvariantsHold(c, schedule);
    FullSet(Execute(c, schedule).isReady, c.slotsTotal);
  }

  /** The causes of a calibration event for a slot, all of which lie before it. */
  ghost predicate Caused(c: Config, s: System, slot: nat) {
    && slot < c.slotsTotal
    && slot in s.hb && slot in s.obj && slot in s.det
    && slot in s.requests && slot in s.isReady && slot in s.responses && slot in s.readyAcked
  }

  lemma {:induction false} NotifyingStep(c: Config, s: System, a: Action) returns (n: Notification)
    requires ChainInv(c, s) && Next(c, s, a).notified != s.notified
    ensures Next(c, s, a).notified == s.notified + [n] && Caused(c, s, n.slot)
  {
    assert a.StepBroadcaster?;
    var b := s.broadcasters[a.i];
    n := Notification(b.k, b.pc.slot);
    assert n.slot in s.readyAcked && n.slot in s.requests && n.slot in ServicesUp(s);
  }

  /**
   Whenever a step notifies a slot, then before that step all three of its services had become available, READY had been
   sent for it, the radar had set the slot's flag and answered, and the ECU had seen the answer.
   */
  lemma {:induction false} NotificationsAreCaused(c: Config, schedule: seq<Action>, a: Action)
    requires Execute(c, schedule + [a]).notified != Execute(c, schedule).notified
    ensures exists n :: Execute(c, schedule + [a]).notified == Execute(c, schedule).notified + [n]
                     && Caused(c, Execute(c, schedule), n.slot)
  {
    InvariantsHold(c, schedule);
    assert (schedule + [a])[..|schedule|] == schedule;
    var n := NotifyingStep(c, Execute(c, schedule), a);
  }

  /** A publisher thread that streams has every slot's whole start-up chain behind it. */
  lemma {:induction false} StreamsAreCaused(c: Config, schedule: seq<Action>, slot: nat)
    requires Execute(c, schedule).released != {} && slot < c.slotsTotal
    ensures var s := Execute(c, schedule);
            slot in s.hb && slot in s.obj && slot in s.det && slot in s.requests && slot in s.isReady
  {
    InvariantsHold(c, schedule);
    BarrierIsSafe(c, schedule);
    assert slot in Below(c.slotsTotal);
  }

  lemma {:induction false} PositionsGrow(notified: seq<Notification>, i: nat)
    requires forall i, j :: 0 <= i < j < |notified| ==> Position(notified[i]) < Position(notified[j])
    requires i < |notified|
    ensures i <= Position(notified[i])
  {
    if i == 0 {
    } else {
      PositionsGrow(notified, i - 1);
    }
  }

  /**
   The broadcaster is started at most once however many responses arrive; no slot is notified twice in one broadcast, no
   broadcast is numbered beyond the target, and so there are at most six notifications per planned broadcast.
   */
  lemma {:induction false} BroadcastsAreBounded(c: Config, schedule: seq<Action>)
    ensures var s := Execute(c, schedule);
            && |s.broadcasters| <= 1
            && (forall i :: 0 <= i < |s.notified| ==> s.notified[i].k < c.targetCount)
            && (forall i, j :: 0 <= i < j < |s.notified| ==> s.notified[i] != s.notified[j])
            && |s.notified| <= ECU_SLOTS * c.targetCount
  {
    InvariantsHold(c, schedule);
    var s := Execute(c, schedule);
    if s.notified != [] {
      var last := |s.notified| - 1;
      PositionsGrow(s.notified, last);
      assert s.notified[last].k < c.targetCount && s.notified[last].slot < ECU_SLOTS;
    }
  }

  // ----- Nobody is passed over -----

  lemma {:induction false} ExecuteSnoc(c: Config, schedule: seq<Action>, a: Action)
    ensures Execute(c, schedule + [a]) == Next(c, Execute(c, schedule), a)
  {
    assert (schedule + [a])[..|schedule|] == schedule;
  }

  /** The broadcaster has not got past the slot in the `k`-th broadcast yet, or has notified it there. */
  ghost predicate Reaches(s: System, k: nat, slot: nat) {
    && s.broadcasters != [] && slot in s.readyAcked
    && (Progress(s.broadcasters[0]) > ECU_SLOTS * k + slot ==> Notification(k, slot) in s.notified)
  }

  lemma {:induction false} BroadcasterReaches(c: Config, s: System, i: nat, stop: bool, k: nat, slot: nat)
    requires BroadcastInv(c, s) && i < |s.broadcasters| && Reaches(s, k, slot) && slot < ECU_SLOTS
    ensures Reaches(BroadcasterStep(c, s, i, stop), k, slot)
  {
    var s', b := BroadcasterStep(c, s, i, stop), s.broadcasters[0];
    assert i == 0 && BroadcasterInv(c, b);
    assert s.notified <= s'.notified;
    if Progress(s'.broadcasters[0]) > ECU_SLOTS * k + slot >= Progress(b) {
      assert b.pc == Scanning(slot) && b.k == k;
      assert s'.notified[|s.notified|] == Notification(k, slot);
    }
  }

  lemma {:induction false} NextReaches(c: Config, s: System, a: Action, k: nat, slot: nat)
    requires BroadcastInv(c, s) && Reaches(s, k, slot) && slot < ECU_SLOTS
    ensures Reaches(Next(c, s, a), k, slot)
  {
    if Enabled(c, s, a) {
      match a
      case StepBroadcaster(i, stop) => BroadcasterReaches(c, s, i, stop, k, slot);
      case StepStarter => assert s.running;
      case _ =>
    }
  }

  /**
   A slot whose acknowledgement is in before the `k`-th broadcast gets to it is notified in that broadcast, whatever
   else happens: once the broadcaster is past it, the notification has been made.
   */
  lemma {:induction false} NobodyIsPassedOver(c: Config, before: seq<Action>, more: seq<Action>, k: nat, slot: nat)
    requires var s := Execute(c, before);
             s.broadcasters != [] && slot in s.readyAcked && Progress(s.broadcasters[0]) <= ECU_SLOTS * k + slot
    ensures var s' := Execute(c, before + more);
            && s'.broadcasters != []
            && (Progress(s'.broadcasters[0]) > ECU_SLOTS * k + slot ==> Notification(k, slot) in s'.notified)
  {
    InvariantsHold(c, before);
    assert slot in ServicesUp(Execute(c, before));
    StaysReached(c, before, more, k, slot);
  }

  lemma {:induction false} StaysReached(c: Config, before: seq<Action>, more: seq<Action>, k: nat, slot: nat)
    requires Reaches(Execute(c, before), k, slot) && slot < ECU_SLOTS
    ensures Reaches(Execute(c, before + more), k, slot)
  {
    if more == [] {
      assert before + more == before;
    } else {
      var n := |more| - 1;
      StaysReached(c, before, more[..n], k, slot);
      InvariantsHold(c, before + more[..n]);
      assert before + more == before + more[..n] + [more[n]];
      ExecuteSnoc(c, before + more[..n], more[n]);
      NextReaches(c, Execute(c, before + more[..n]), more[n], k, slot);
    }
  }

  /** So when the broadcaster sleeps, every slot that was acknowledged as the scan began has been notified. */
  lemma {:induction false} ScanIsComplete(c: Config, before: seq<Action>, more: seq<Action>, k: nat)
    requires Execute(c, before).broadcasters == [Broadcaster(k, LoopTop)]
    requires Execute(c, before + more).broadcasters == [Broadcaster(k, Sleeping)]
    ensures forall slot :: slot in Execute(c, before).readyAcked ==>
              Notification(k, slot) in Execute(c, before + more).notified
  {
    forall slot | slot in Execute(c, before).readyAcked
      ensures Notification(k, slot) in Execute(c, before + more).notified
    {
      InvariantsHold(c, before);
      assert slot in ServicesUp(Execute(c, before));
      NobodyIsPassedOver(c, before, more, k, slot);
    }
  }

  /** The broadcaster has ended, with these notifications made. */
  predicate Ended(s: System, notified: seq<Notification>) {
    s.running && |s.broadcasters| == 1 && s.broadcasters[0].pc == Finished && s.notified == notified
  }

  lemma {:induction false} NextStaysEnded(c: Config, s: System, a: Action, notified: seq<Notification>)
    requires Ended(s, notified)
    ensures Ended(Next(c, s, a), notified)
  {
    if Enabled(c, s, a) {
      match a
      case StepBroadcaster(i, stop) => assert BroadcasterStep(c, s, i, stop) == s;
      case _ =>
    }
  }

  lemma {:induction false} EndedStaysEnded(c: Config, before: seq<Action>, more: seq<Action>,
                                           notified: seq<Notification>)
    requires Ended(Execute(c, before), notified)
    ensures Ended(Execute(c, before + more), notified)
  {
    if more == [] {
      assert before + more == before;
    } else {
      var n := |more| - 1;
      var p := before + more[..n];
      EndedStaysEnded(c, before, more[..n], notified);
      NextStaysEnded(c, Execute(c, p), more[n], notified);
      ExecuteSnoc(c, p, more[n]);
      assert before + more == p + [more[n]];
    }
  }

  /** A broadcaster that sees the stop flag between two broadcasts makes no further one. */
  lemma {:induction false} StopIsHeeded(c: Config, before: seq<Action>, more: seq<Action>, k: nat)
    requires Execute(c, before).broadcasters == [Broadcaster(k, LoopTop)]
    ensures Execute(c, before + [StepBroadcaster(0, true)] + more).notified == Execute(c, before).notified
  {
    InvariantsHold(c, before);
    ExecuteSnoc(c, before, StepBroadcaster(0, true));
    EndedStaysEnded(c, before + [StepBroadcaster(0, true)], more, Execute(c, before).notified);
  }

  // ----- Every READY is answered, and none is sent again -----

  /** A handler that is done has answered, also one that found its slot's flag set already. */
  ghost predicate DoneHaveAnswered(s: System) {
    forall i :: 0 <= i < |s.handlers| && s.handlers[i].pc == HandlerDone ==> s.handlers[i].slot in s.responses
  }

  lemma {:induction false} HandlersAnswer(c: Config, schedule: seq<Action>)
    ensures DoneHaveAnswered(Execute(c, schedule))
  {
    if schedule == [] {
    } else {
      HandlersAnswer(c, schedule[..|schedule| - 1]);
    }
  }

  /** Senders beyond the first `n` have not got past the look at the flag of `slot`. */
  ghost predicate LateSendersLook(s: System, n: nat, slot: nat) {
    && n <= |s.senders| && slot in s.readySent
    && forall i :: n <= i < |s.senders| && s.senders[i].slot == slot ==> s.senders[i].pc in {CheckSent, SenderDone}
  }

  lemma {:induction false} SenderLooks(s: System, i: nat, n: nat, slot: nat)
    requires LateSendersLook(s, n, slot) && i < |s.senders|
    ensures LateSendersLook(SenderStep(s, i), n, slot)
  {
  }

  lemma {:induction false} AvailabilityLooks(s: System, service: Service, up: nat, n: nat, slot: nat)
    requires LateSendersLook(s, n, slot)
    ensures LateSendersLook(OnAvailability(s, service, up), n, slot)
  {
  }

  lemma {:induction false} NextLooks(c: Config, s: System, a: Action, n: nat, slot: nat)
    requires LateSendersLook(s, n, slot)
    ensures LateSendersLook(Next(c, s, a), n, slot)
  {
    if Enabled(c, s, a) {
      if a.StepSender? {
        SenderLooks(s, a.i, n, slot);
      } else if a.ServiceAvailable? {
        AvailabilityLooks(s, a.service, a.slot, n, slot);
      } else {
        OthersKeepSenders(c, s, a);
      }
    }
  }

  lemma {:induction false} OthersKeepSenders(c: Config, s: System, a: Action)
    requires Enabled(c, s, a) && !a.StepSender? && !a.ServiceAvailable?
    ensures Perform(c, s, a).senders == s.senders && Perform(c, s, a).readySent == s.readySent
  {
  }

  /** After READY is known to be sent for a slot, no attempt that starts later sends it again. */
  lemma {:induction false} SentOnlyBefore(c: Config, before: seq<Action>, more: seq<Action>, slot: nat)
    requires slot in Execute(c, before).readySent
    ensures LateSendersLook(Execute(c, before + more), |Execute(c, before).senders|, slot)
  {
    if more == [] {
      assert before + more == before;
    } else {
      var n := |more| - 1;
      SentOnlyBefore(c, before, more[..n], slot);
      assert before + more == before + more[..n] + [more[n]];
      ExecuteSnoc(c, before + more[..n], more[n]);
      NextLooks(c, Execute(c, before + more[..n]), more[n], |Execute(c, before).senders|, slot);
    }
  }

  // ----- The chain can be completed -----

  /** Adds one enabled action to a schedule. */
  lemma {:induction false} Then(c: Config, schedule: seq<Action>, s: System, a: Action)
    returns (schedule': seq<Action>, s': System)
    requires s == Execute(c, schedule) && Enabled(c, s, a)
    ensures schedule' == schedule + [a] && s' == Perform(c, s, a) == Execute(c, schedule')
  {
    schedule', s' := schedule + [a], Perform(c, s, a);
    assert schedule'[..|schedule|] == schedule;
  }

  const SENDERS := [Sender(0, CheckSent), Sender(0, CheckSent), Sender(0, SenderDone)]
  const ASKED := BOOT.(hb := {0}, obj := {0}, det := {0}, readySent := {0}, requests := {0}, senders := SENDERS)
  const ANSWERED := ASKED.(isReady := {0}, slotsReady := 1, handlers := [Handler(0, HandlerDone)], responses := {0})

  /** The first slot's services came up and the ECU sent it READY. */
  lemma {:induction false} ReadySent(c: Config) returns (schedule: seq<Action>, s: System)
    requires c.slotsTotal > 0
    ensures s == Execute(c, schedule) == ASKED
  {
    schedule, s := Then(c, [], BOOT, ServiceAvailable(Heartbeat, 0));
    schedule, s := Then(c, schedule, s, ServiceAvailable(Objects, 0));
    schedule, s := Then(c, schedule, s, ServiceAvailable(Detections, 0));
    assert s == BOOT.(hb := {0}, obj := {0}, det := {0},
                      senders := [Sender(0, CheckSent), Sender(0, CheckSent), Sender(0, CheckSent)]);
    schedule, s := Then(c, schedule, s, StepSender(2));
    schedule, s := Then(c, schedule, s, StepSender(2));
    schedule, s := Then(c, schedule, s, StepSender(2));
    schedule, s := Then(c, schedule, s, StepSender(2));
    assert s.senders == SENDERS;
  }

  /** The radar took it, counted the slot and answered. */
  lemma {:induction false} ReadyAnswered(c: Config) returns (schedule: seq<Action>, s: System)
    requires c.slotsTotal > 0
    ensures s == Execute(c, schedule) == ANSWERED
  {
    schedule, s := ReadySent(c);
    schedule, s := Then(c, schedule, s, DeliverRequest(0));
    schedule, s := Then(c, schedule, s, StepHandler(0));
    schedule, s := Then(c, schedule, s, StepHandler(0));
    schedule, s := Then(c, schedule, s, StepHandler(0));
    assert s.handlers == [Handler(0, HandlerDone)];
  }

  /** Whatever the configuration, some run gets as far as a calibration event; with one slot its worker streams, too. */
  lemma {:induction false} StartupCanComplete(c: Config)
    requires c.slotsTotal > 0 && c.targetCount > 0
    ensures exists schedule :: Execute(c, schedule).notified == [Notification(0, 0)]
                            && (c.slotsTotal == 1 ==> Execute(c, schedule).released == {0})
  {
    var schedule, s := ReadyAnswered(c);
    schedule, s := Then(c, schedule, s, DeliverResponse(0));
    schedule, s := Then(c, schedule, s, StepStarter);
    assert s == ANSWERED.(readyAcked := {0}, running := true, broadcasters := [Broadcaster(0, LoopTop)]);
    schedule, s := Then(c, schedule, s, StepBroadcaster(0, false));
    schedule, s := Then(c, schedule, s, StepBroadcaster(0, false));
    assert s.notified == [Notification(0, 0)] && s.slotsReady == 1 && s.released == {};
    if c.slotsTotal == 1 {
      schedule, s := Then(c, schedule, s, PassBarrier(0));
    }
  }

  /** A handler that finds the flag set answers without counting. */
  lemma {:induction false} ReadyRepeated(c: Config) returns (schedule: seq<Action>, s: System)
    requires c.slotsTotal > 0
    ensures s == Execute(c, schedule) == ANSWERED.(handlers := [Handler(0, HandlerDone), Handler(0, HandlerDone)])
  {
    schedule, s := ReadyAnswered(c);
    schedule, s := Then(c, schedule, s, DeliverRequest(0));
    schedule, s := Then(c, schedule, s, StepHandler(1));
    schedule, s := Then(c, schedule, s, StepHandler(1));
    assert s.handlers == [Handler(0, HandlerDone), Handler(0, HandlerDone)];
  }

  /** READY handled twice and answered twice, and both answers taken: one slot is counted and one broadcaster runs. */
  lemma {:induction false} DuplicatesAreHarmless(c: Config)
    requires c.slotsTotal > 0
    ensures exists schedule ::
              && |Execute(c, schedule).handlers| == 2 && Execute(c, schedule).slotsReady == 1
              && Execute(c, schedule).broadcasters == [Broadcaster(0, LoopTop)] && Execute(c, schedule).starters == 0
  {
    var schedule, s := ReadyRepeated(c);
    schedule, s := Then(c, schedule, s, DeliverResponse(0));
    schedule, s := Then(c, schedule, s, DeliverResponse(0));
    assert s.starters == 2;
    schedule, s := Then(c, schedule, s, StepStarter);
    assert s.running && s.broadcasters == [Broadcaster(0, LoopTop)];
    schedule, s := Then(c, schedule, s, StepStarter);
  }

  /** The first `m` slots are counted and answered, nothing has been sent for the others, no answer has been taken. */
  ghost predicate UpTo(s: System, m: nat) {
    && s.isReady == Below(m) && s.readySent == Below(m) && s.slotsReady == m && s.released == {}
    && s.responses == Below(m) && s.readyAcked == {} && s.starters == 0 && !s.running
    && s.broadcasters == [] && s.notified == []
  }

  /** The services of one more slot come up. */
  lemma {:induction false} ServicesComeUp(c: Config, schedule: seq<Action>, s: System, slot: nat)
    returns (schedule': seq<Action>, s': System)
    requires s == Execute(c, schedule) && slot < c.slotsTotal && slot < ECU_SLOTS
    ensures s' == Execute(c, schedule')
    ensures s' == s.(hb := s.hb + {slot}, obj := s.obj + {slot}, det := s.det + {slot}, senders := s'.senders)
    ensures s'.senders != [] && s'.senders[|s'.senders| - 1] == Sender(slot, CheckSent)
  {
    schedule', s' := Then(c, schedule, s, ServiceAvailable(Heartbeat, slot));
    schedule', s' := Then(c, schedule', s', ServiceAvailable(Objects, slot));
    schedule', s' := Then(c, schedule', s', ServiceAvailable(Detections, slot));
  }

  /** The ECU finds them and has not sent READY yet ... */
  lemma {:induction false} ReadyIsDue(c: Config, schedule: seq<Action>, s: System, slot: nat)
    returns (schedule': seq<Action>, s': System)
    requires s == Execute(c, schedule) && slot in ServicesUp(s) && slot !in s.readySent
    requires s.senders != [] && s.senders[|s.senders| - 1] == Sender(slot, CheckSent)
    ensures s' == Execute(c, schedule') && s' == s.(senders := s.senders[|s.senders| - 1 := Sender(slot, Armed)])
  {
    var i := |s.senders| - 1;
    schedule', s' := Then(c, schedule, s, StepSender(i));
    assert s' == s.(senders := s.senders[i := Sender(slot, CheckServices)]);
    schedule', s' := Then(c, schedule', s', StepSender(i));
  }

  /** ... so it sends it. */
  lemma {:induction false} ReadyIsSent(c: Config, schedule: seq<Action>, s: System, slot: nat)
    returns (schedule': seq<Action>, s': System)
    requires s == Execute(c, schedule)
    requires s.senders != [] && s.senders[|s.senders| - 1] == Sender(slot, Armed)
    ensures s' == Execute(c, schedule')
    ensures s' == s.(requests := s.requests + {slot}, readySent := s.readySent + {slot}, senders := s'.senders)
  {
    var i := |s.senders| - 1;
    schedule', s' := Then(c, schedule, s, StepSender(i));
    assert s'.senders[i] == Sender(slot, Sent);
    schedule', s' := Then(c, schedule', s', StepSender(i));
  }

  /** The radar counts it and answers. */
  lemma {:induction false} SlotIsCounted(c: Config, schedule: seq<Action>, s: System, slot: nat)
    returns (schedule': seq<Action>, s': System)
    requires s == Execute(c, schedule) && slot in s.requests && slot !in s.isReady && slot < c.slotsTotal
    ensures s' == Execute(c, schedule')
    ensures s' == s.(isReady := s.isReady + {slot}, slotsReady := s.slotsReady + 1, responses := s.responses + {slot},
                     handlers := s'.handlers)
  {
    var i := |s.handlers|;
    schedule', s' := Then(c, schedule, s, DeliverRequest(slot));
    assert s'.handlers[i] == Handler(slot, Received);
    schedule', s' := Then(c, schedule', s', StepHandler(i));
    assert s'.handlers[i] == Handler(slot, Won);
    schedule', s' := Then(c, schedule', s', StepHandler(i));
    assert s'.handlers[i] == Handler(slot, Answering);
    schedule', s' := Then(c, schedule', s', StepHandler(i));
  }

  lemma {:induction false} SlotsComeUp(c: Config, m: nat) returns (schedule: seq<Action>, s: System)
    requires m <= c.slotsTotal && m <= ECU_SLOTS
    ensures s == Execute(c, schedule) && UpTo(s, m)
  {
    if m == 0 {
      schedule, s := [], BOOT;
    } else {
      schedule, s := SlotsComeUp(c, m - 1);
      schedule, s := ServicesComeUp(c, schedule, s, m - 1);
      schedule, s := ReadyIsDue(c, schedule, s, m - 1);
      schedule, s := ReadyIsSent(c, schedule, s, m - 1);
      schedule, s := SlotIsCounted(c, schedule, s, m - 1);
    }
  }

  lemma {:induction false} WorkersPass(c: Config, schedule: seq<Action>, s: System, w: nat)
    returns (schedule': seq<Action>, s': System)
    requires s == Execute(c, schedule) && s.slotsReady == c.slotsTotal && s.released == {} && w <= c.slotsTotal
    ensures s' == Execute(c, schedule') && s' == s.(released := Below(w))
  {
    if w == 0 {
      schedule', s' := schedule, s;
    } else {
      schedule', s' := WorkersPass(c, schedule, s, w - 1);
      schedule', s' := Then(c, schedule', s', PassBarrier(w - 1));
    }
  }

  // ----- Every broadcast can reach every slot -----

  /** The notifications made so far, and those of the `k`-th broadcast to these slots below `j`. */
  function Broadcast(slots: set<nat>, soFar: seq<Notification>, k: nat, j: nat): seq<Notification> {
    if j == 0 then soFar
    else
      var before := Broadcast(slots, soFar, k, j - 1);
      if j - 1 in slots then before + [Notification(k, j - 1)] else before
  }

  /** Those of the first `n` broadcasts. */
  function Broadcasts(slots: set<nat>, n: nat): seq<Notification> {
    if n == 0 then [] else Broadcast(slots, Broadcasts(slots, n - 1), n - 1, 6)
  }

  lemma {:induction false} AnswersTaken(c: Config, schedule: seq<Action>, s: System, m: nat)
    returns (schedule': seq<Action>, s': System)
    requires s == Execute(c, schedule) && Below(m) <= s.responses && m <= ECU_SLOTS
    requires s.readyAcked == {} && s.starters == 0
    ensures s' == Execute(c, schedule') && s' == s.(readyAcked := Below(m), starters := m)
  {
    if m == 0 {
      schedule', s' := schedule, s;
    } else {
      assert m - 1 in Below(m);
      schedule', s' := AnswersTaken(c, schedule, s, m - 1);
      schedule', s' := Then(c, schedule', s', DeliverResponse(m - 1));
    }
  }

  /** The same system with the broadcaster there, having made these notifications. */
  function Broadcasting(s: System, notified: seq<Notification>, b: Broadcaster): System {
    s.(notified := notified, broadcasters := [b])
  }

  /** A run leads to a broadcaster at this point, the rest of the system being as in `s`. */
  ghost predicate LeadsTo(c: Config, schedule: seq<Action>, s: System, notified: seq<Notification>, b: Broadcaster) {
    Execute(c, schedule) == Broadcasting(s, notified, b)
  }

  /** One step of the broadcaster. */
  lemma {:induction false} BroadcasterMoves(c: Config, schedule: seq<Action>, s: System,
                                            notified: seq<Notification>, b: Broadcaster)
    returns (schedule': seq<Action>)
    requires LeadsTo(c, schedule, s, notified, b)
    ensures Execute(c, schedule') == BroadcasterStep(c, Broadcasting(s, notified, b), 0, false)
  {
    schedule' := schedule + [StepBroadcaster(0, false)];
    ExecuteSnoc(c, schedule, StepBroadcaster(0, false));
  }

  /** The next slot is scanned, and notified if it is acknowledged. */
  lemma {:induction false} SlotScanned(c: Config, schedule: seq<Action>, s: System, notified: seq<Notification>,
                                       k: nat, slot: nat)
    returns (schedule': seq<Action>)
    requires LeadsTo(c, schedule, s, notified, Broadcaster(k, Scanning(slot))) && slot < ECU_SLOTS
    ensures LeadsTo(c, schedule', s, if slot in s.readyAcked then notified + [Notification(k, slot)] else notified,
                    Broadcaster(k, Scanning(slot + 1)))
  {
    schedule' := BroadcasterMoves(c, schedule, s, notified, Broadcaster(k, Scanning(slot)));
    if slot in s.readyAcked {
      var notified' := notified + [Notification(k, slot)];
      assert LeadsTo(c, schedule', s, notified', Broadcaster(k, Inserting(slot)));
      schedule' := BroadcasterMoves(c, schedule', s, notified', Broadcaster(k, Inserting(slot)));
    }
  }

  /** The slots below `j` are scanned. */
  lemma {:induction false} SlotsScanned(c: Config, schedule: seq<Action>, s: System, notified: seq<Notification>,
                                        k: nat, j: nat)
    returns (schedule': seq<Action>)
    requires LeadsTo(c, schedule, s, notified, Broadcaster(k, Scanning(0))) && j <= ECU_SLOTS
    ensures LeadsTo(c, schedule', s, Broadcast(s.readyAcked, notified, k, j), Broadcaster(k, Scanning(j)))
  {
    if j == 0 {
      schedule' := schedule;
    } else {
      var slot, before := j - 1, Broadcast(s.readyAcked, notified, k, j - 1);
      schedule' := SlotsScanned(c, schedule, s, notified, k, slot);
      schedule' := SlotScanned(c, schedule', s, before, k, slot);
      assert Broadcaster(k, Scanning(slot + 1)) == Broadcaster(k, Scanning(j));
    }
  }

  lemma {:induction false} ScanBegins(c: Config, schedule: seq<Action>, s: System, notified: seq<Notification>, k: nat)
    returns (schedule': seq<Action>)
    requires LeadsTo(c, schedule, s, notified, Broadcaster(k, LoopTop)) && s.readyAcked != {} && k < c.targetCount
    ensures LeadsTo(c, schedule', s, notified, Broadcaster(k, Scanning(0)))
  {
    schedule' := BroadcasterMoves(c, schedule, s, notified, Broadcaster(k, LoopTop));
  }

  lemma {:induction false} ScanEnds(c: Config, schedule: seq<Action>, s: System, notified: seq<Notification>, k: nat)
    returns (schedule': seq<Action>)
    requires LeadsTo(c, schedule, s, notified, Broadcaster(k, Scanning(ECU_SLOTS)))
    ensures LeadsTo(c, schedule', s, notified, Broadcaster(k + 1, LoopTop))
  {
    schedule' := BroadcasterMoves(c, schedule, s, notified, Broadcaster(k, Scanning(ECU_SLOTS)));
    assert LeadsTo(c, schedule', s, notified, Broadcaster(k, Sleeping));
    schedule' := BroadcasterMoves(c, schedule', s, notified, Broadcaster(k, Sleeping));
  }

  /** A whole iteration. */
  lemma {:induction false} BroadcastMade(c: Config, schedule: seq<Action>, s: System, notified: seq<Notification>,
                                         k: nat)
    returns (schedule': seq<Action>)
    requires LeadsTo(c, schedule, s, notified, Broadcaster(k, LoopTop))
    requires s.readyAcked != {} && k < c.targetCount
    ensures LeadsTo(c, schedule', s, Broadcast(s.readyAcked, notified, k, 6), Broadcaster(k + 1, LoopTop))
  {
    schedule' := ScanBegins(c, schedule, s, notified, k);
    schedule' := SlotsScanned(c, schedule', s, notified, k, ECU_SLOTS);
    schedule' := ScanEnds(c, schedule', s, Broadcast(s.readyAcked, notified, k, ECU_SLOTS), k);
  }

  lemma {:induction false} BroadcastsMade(c: Config, schedule: seq<Action>, s: System, n: nat)
    returns (schedule': seq<Action>)
    requires LeadsTo(c, schedule, s, [], Broadcaster(0, LoopTop)) && s.readyAcked != {} && n <= c.targetCount
    ensures LeadsTo(c, schedule', s, Broadcasts(s.readyAcked, n), Broadcaster(n, LoopTop))
  {
    if n == 0 {
      schedule' := schedule;
    } else {
      var k, before := n - 1, Broadcasts(s.readyAcked, n - 1);
      schedule' := BroadcastsMade(c, schedule, s, k);
      schedule' := BroadcastMade(c, schedule', s, before, k);
      assert Broadcast(s.readyAcked, before, k, 6) == Broadcasts(s.readyAcked, n);
      assert Broadcaster(k + 1, LoopTop) == Broadcaster(n, LoopTop);
    }
  }

  /** The first `m` slots came up and were acknowledged, and the broadcaster runs. */
  lemma {:induction false} BroadcasterStarted(c: Config, m: nat) returns (schedule: seq<Action>, s: System)
    requires 0 < m <= c.slotsTotal && m <= ECU_SLOTS
    ensures s == Execute(c, schedule) && LeadsTo(c, schedule, s, [], Broadcaster(0, LoopTop))
    ensures s.readyAcked == Below(m) && s.slotsReady == m && s.released == {}
  {
    schedule, s := SlotsComeUp(c, m);
    schedule, s := AnswersTaken(c, schedule, s, m);
    schedule, s := Then(c, schedule, s, StepStarter);
  }

  /**
   For every number of slots the ECU knows, some run makes all the planned broadcasts, each to every slot that is up, in
   order, and ends the broadcaster; if these are all of the publisher's slots, its workers stream.
   */
  lemma {:induction false} BroadcastsCanComplete(c: Config, m: nat)
    requires 0 < m <= c.slotsTotal && m <= ECU_SLOTS
    ensures exists schedule ::
              && Execute(c, schedule).notified == Broadcasts(Below(m), c.targetCount)
              && Execute(c, schedule).broadcasters == [Broadcaster(c.targetCount, Finished)]
              && (m == c.slotsTotal ==> Execute(c, schedule).released == Below(m))
  {
    var schedule, s := BroadcasterStarted(c, m);
    var notified := Broadcasts(Below(m), c.targetCount);
    assert 0 in Below(m);
    schedule := BroadcastsMade(c, schedule, s, c.targetCount);
    schedule := BroadcasterMoves(c, schedule, s, notified, Broadcaster(c.targetCount, LoopTop));
    var s' := Broadcasting(s, notified, Broadcaster(c.targetCount, Finished));
    assert s' == Execute(c, schedule);
    if m == c.slotsTotal {
      schedule, s' := WorkersPass(c, schedule, s', m);
    }
  }

  /**
   The ECU knows six slots, so the barrier never opens for a publisher that waits for more of them. This concerns the
   barrier alone: while setting up a seventh slot the program has already written past its array of six loggers.
   */
  lemma {:induction false} TooManySlotsBlock(c: Config, schedule: seq<Action>)
    requires c.slotsTotal > ECU_SLOTS
    ensures Execute(c, schedule).released == {}
  {
    var s := Execute(c, schedule);
    InvariantsHold(c, schedule);
    assert forall slot :: slot in s.isReady ==> slot in s.requests && slot in ServicesUp(s) && slot in s.hb;
    FullSet(s.isReady, ECU_SLOTS);
  }

  /** Some run of the barrier lets all workers pass if and only if there are no more slots than the ECU knows. */
  lemma {:induction false} WorkersStreamExactly(c: Config)
    ensures (exists schedule :: Execute(c, schedule).released == Below(c.slotsTotal)) <==> c.slotsTotal <= ECU_SLOTS
  {
    if c.slotsTotal <= ECU_SLOTS {
      var schedule, s := SlotsComeUp(c, c.slotsTotal);
      schedule, s := WorkersPass(c, schedule, s, c.slotsTotal);
    } else {
      assert 0 in Below(c.slotsTotal);
      if schedule :| Execute(c, schedule).released == Below(c.slotsTotal) {
        TooManySlotsBlock(c, schedule);
      }
    }
  }
}
