/**
 The threads behind a trace of lock regions: one sender, which publishes a request before it records it, and one
 callback per ACK or RESP that the network delivers, which stores its half in one lock region and then tries to close
 the transaction in another. The OpenDDS main loop is the special case in which one callback runs at a time.
 */
module CalibrationCallbacks {
  import opened Common
  import opened Calibration

  datatype Pc = Arrived | HalfWay | Finished

  /** An ACK or a RESP. */
  type Half = e: Event | e.Ack? || e.Resp? witness Ack(("", 0), 0)

  /** The execution of a callback and the half it stores. */
  datatype Callback = Callback(half: Half, pc: Pc)

  /** `published[..recorded]` are in the table of requests. */
  datatype System = System(published: seq<Meta>, recorded: nat, callbacks: seq<Callback>, trace: seq<Event>)

  const BOOT := System([], 0, [], [])

  /** The network may deliver any half at any time and any number of times. */
  datatype Action = Publish(m: Meta) | RecordNext | Deliver(half: Half) | StepCallback(i: nat)

  predicate Enabled(s: System, a: Action) {
    match a
    case Publish(_) => s.recorded == |s.published|
    case RecordNext => s.recorded < |s.published|
    case Deliver(_) => true
    case StepCallback(i) => i < |s.callbacks| && s.callbacks[i].pc != Finished
  }

  function CallbackStep(s: System, i: nat): System
    requires Enabled(s, StepCallback(i))
  {
    var half := s.callbacks[i].half;
    if s.callbacks[i].pc == Arrived then
      s.(callbacks := s.callbacks[i := Callback(half, HalfWay)], trace := s.trace + [half])
    else
      s.(callbacks := s.callbacks[i := Callback(half, Finished)], trace := s.trace + [Finalize(half.key)])
  }

  function Perform(s: System, a: Action): System
    requires Enabled(s, a)
  {
    match a
    case Publish(m) => s.(published := s.published + [m])
    case RecordNext => s.(recorded := s.recorded + 1, trace := s.trace + [Record(s.published[s.recorded])])
    case Deliver(half) => s.(callbacks := s.callbacks + [Callback(half, Arrived)])
    case StepCallback(i) => CallbackStep(s, i)
  }

  function Next(s: System, a: Action): System {
    if Enabled(s, a) then Perform(s, a) else s
  }

  /** Any interleaving is a list of actions; one that is not enabled when its turn comes does nothing. */
  function Execute(schedule: seq<Action>): System {
    if schedule == [] then BOOT
    else Next(Execute(schedule[..|schedule| - 1]), schedule[|schedule| - 1])
  }

  /** The callbacks for `k` between their two lock regions. */
  function HalfWayCount(callbacks: seq<Callback>, k: Key): nat {
    if callbacks == [] then 0
    else
      var last := callbacks[|callbacks| - 1];
      HalfWayCount(callbacks[..|callbacks| - 1], k) + if last.pc == HalfWay && IsStore(last.half, k) then 1 else 0
  }

  lemma {:induction false} HalfWayCountUpdate(callbacks: seq<Callback>, i: nat, c: Callback, k: Key)
    requires i < |callbacks|
    ensures HalfWayCount(callbacks[i := c], k)
         == HalfWayCount(callbacks, k) - (if callbacks[i].pc == HalfWay && IsStore(callbacks[i].half, k) then 1 else 0)
            + if c.pc == HalfWay && IsStore(c.half, k) then 1 else 0
  {
    var n := |callbacks| - 1;
    if i < n {
      HalfWayCountUpdate(callbacks[..n], i, c, k);
      assert callbacks[i := c][..n] == callbacks[..n][i := c];
    } else {
      assert callbacks[i := c][..n] == callbacks[..n];
    }
  }

  /** Every half stored has been followed by an attempt to close, or its callback is half-way. */
  ghost predicate Inv(s: System, k: Key) {
    && Stores(s.trace, k) == Closes(s.trace, k) + HalfWayCount(s.callbacks, k)
    && ClosesAfterStores(s.trace, k)
  }

  lemma {:induction false} ClosesAfterStoresSnoc(tr: seq<Event>, e: Event, k: Key)
    requires ClosesAfterStores(tr, k) && Closes(tr + [e], k) <= Stores(tr + [e], k)
    ensures ClosesAfterStores(tr + [e], k)
  {
    var tr' := tr + [e];
    forall n | 0 <= n <= |tr'| ensures Closes(tr'[..n], k) <= Stores(tr'[..n], k) {
      if n <= |tr| {
        assert tr'[..n] == tr[..n];
      } else {
        assert tr'[..n] == tr';
      }
    }
  }

  lemma {:induction false} StepKeepsInv(s: System, i: nat, k: Key)
    requires Inv(s, k) && Enabled(s, StepCallback(i))
    ensures Inv(CallbackStep(s, i), k)
  {
    var s' := CallbackStep(s, i);
    var e := s'.trace[|s.trace|];
    CountsSnoc(s.trace, e, OneKey(k));
    HalfWayCountUpdate(s.callbacks, i, s'.callbacks[i], k);
    ClosesAfterStoresSnoc(s.trace, e, k);
  }

  lemma {:induction false} NextKeepsInv(s: System, a: Action, k: Key)
    requires Inv(s, k)
    ensures Inv(Next(s, a), k)
  {
    if Enabled(s, a) {
      match a
      case Publish(_) =>
      case RecordNext =>
        CountsSnoc(s.trace, Record(s.published[s.recorded]), OneKey(k));
        ClosesAfterStoresSnoc(s.trace, Record(s.published[s.recorded]), k);
      case Deliver(half) =>
        assert (s.callbacks + [Callback(half, Arrived)])[..|s.callbacks|] == s.callbacks;
      case StepCallback(i) => StepKeepsInv(s, i, k);
    }
  }

  lemma {:induction false} ExecuteKeepsInv(schedule: seq<Action>, k: Key)
    ensures Inv(Execute(schedule), k)
  {
    if schedule == [] {
      assert ClosesAfterStores([], k);
    } else {
      ExecuteKeepsInv(schedule[..|schedule| - 1], k);
      NextKeepsInv(Execute(schedule[..|schedule| - 1]), schedule[|schedule| - 1], k);
    }
  }

  /** In every interleaving no close runs ahead of its store, and a key is at rest if no callback of it is half-way. */
  lemma {:induction false} CallbacksStoreFirst(schedule: seq<Action>, k: Key)
    ensures var s := Execute(schedule);
            && ClosesAfterStores(s.trace, k)
            && (AtRest(s.trace, k) <==> HalfWayCount(s.callbacks, k) == 0)
  {
    ExecuteKeepsInv(schedule, k);
  }

  lemma {:induction false} ExecuteSnoc(schedule: seq<Action>, a: Action)
    ensures Execute(schedule + [a]) == Next(Execute(schedule), a)
  {
    assert (schedule + [a])[..|schedule|] == schedule;
  }

  // ----- The trace is what was published and delivered -----

  /** The requests recorded in a trace, in order. */
  function RecordsIn(tr: seq<Event>): seq<Meta> {
    if tr == [] then []
    else
      var e, rest := tr[|tr| - 1], RecordsIn(tr[..|tr| - 1]);
      if e.Record? then rest + [e.meta] else rest
  }

  lemma {:induction false} RecordsInSnoc(tr: seq<Event>, e: Event)
    ensures RecordsIn(tr + [e]) == if e.Record? then RecordsIn(tr) + [e.meta] else RecordsIn(tr)
  {
    assert (tr + [e])[..|tr|] == tr;
  }

  /** How often an event occurs in a trace. */
  function Occurrences(tr: seq<Event>, e: Event): nat {
    if tr == [] then 0 else Occurrences(tr[..|tr| - 1], e) + if tr[|tr| - 1] == e then 1 else 0
  }

  lemma {:induction false} OccurrencesSnoc(tr: seq<Event>, e: Event, half: Event)
    ensures Occurrences(tr + [e], half) == Occurrences(tr, half) + if e == half then 1 else 0
  {
    assert (tr + [e])[..|tr|] == tr;
  }

  /** How many callbacks have stored a half. */
  function StoredCount(callbacks: seq<Callback>, half: Event): nat {
    if callbacks == [] then 0
    else
      var last := callbacks[|callbacks| - 1];
      StoredCount(callbacks[..|callbacks| - 1], half) + if last.pc != Arrived && last.half == half then 1 else 0
  }

  lemma {:induction false} StoredCountSnoc(callbacks: seq<Callback>, c: Callback, half: Event)
    ensures StoredCount(callbacks + [c], half)
         == StoredCount(callbacks, half) + if c.pc != Arrived && c.half == half then 1 else 0
  {
    assert (callbacks + [c])[..|callbacks|] == callbacks;
  }

  lemma {:induction false} StoredCountUpdate(callbacks: seq<Callback>, i: nat, c: Callback, half: Event)
    requires i < |callbacks|
    ensures StoredCount(callbacks[i := c], half)
         == StoredCount(callbacks, half) - (if callbacks[i].pc != Arrived && callbacks[i].half == half then 1 else 0)
            + if c.pc != Arrived && c.half == half then 1 else 0
  {
    var n := |callbacks| - 1;
    if i < n {
      StoredCountUpdate(callbacks[..n], i, c, half);
      assert callbacks[i := c][..n] == callbacks[..n][i := c];
    } else {
      assert callbacks[i := c][..n] == callbacks[..n];
    }
  }

  /** The halves the network delivered according to the schedule. */
  function Delivered(schedule: seq<Action>): seq<Half> {
    if schedule == [] then []
    else
      var a, rest := schedule[|schedule| - 1], Delivered(schedule[..|schedule| - 1]);
      if a.Deliver? then rest + [a.half] else rest
  }

  function HalvesOf(callbacks: seq<Callback>): seq<Half> {
    seq(|callbacks|, i requires 0 <= i < |callbacks| => callbacks[i].half)
  }

  lemma {:induction false} HalvesOfSnoc(callbacks: seq<Callback>, c: Callback)
    ensures HalvesOf(callbacks + [c]) == HalvesOf(callbacks) + [c.half]
  {
  }

  lemma {:induction false} HalvesOfUpdate(callbacks: seq<Callback>, i: nat, c: Callback)
    requires i < |callbacks| && c.half == callbacks[i].half
    ensures HalvesOf(callbacks[i := c]) == HalvesOf(callbacks)
  {
  }

  ghost predicate Remembers(s: System, delivered: seq<Half>) {
    && s.recorded <= |s.published| <= s.recorded + 1
    && RecordsIn(s.trace) == s.published[..s.recorded]
    && HalvesOf(s.callbacks) == delivered
  }

  lemma {:induction false} StepRemembers(s: System, i: nat, delivered: seq<Half>)
    requires Remembers(s, delivered) && Enabled(s, StepCallback(i))
    ensures Remembers(CallbackStep(s, i), delivered)
  {
    var s' := CallbackStep(s, i);
    RecordsInSnoc(s.trace, s'.trace[|s.trace|]);
    HalvesOfUpdate(s.callbacks, i, s'.callbacks[i]);
  }

  lemma {:induction false} RecordRemembers(s: System, delivered: seq<Half>)
    requires Remembers(s, delivered) && Enabled(s, RecordNext)
    ensures Remembers(Perform(s, RecordNext), delivered)
  {
    RecordsInSnoc(s.trace, Record(s.published[s.recorded]));
    assert s.published[..s.recorded + 1] == s.published[..s.recorded] + [s.published[s.recorded]];
  }

  lemma {:induction false} PublishRemembers(s: System, m: Meta, delivered: seq<Half>)
    requires Remembers(s, delivered) && Enabled(s, Publish(m))
    ensures Remembers(Perform(s, Publish(m)), delivered)
  {
    assert (s.published + [m])[..s.recorded] == s.published[..s.recorded];
  }

  /**
   In every interleaving the requests of the trace are those published and recorded, in order, and there is one callback
   for every delivery.
   */
  lemma {:induction false} TraceIsHistory(schedule: seq<Action>)
    ensures var s := Execute(schedule);
            && s.recorded <= |s.published| <= s.recorded + 1
            && RecordsIn(s.trace) == s.published[..s.recorded]
            && HalvesOf(s.callbacks) == Delivered(schedule)
  {
    if schedule == [] {
    } else {
      var p, a := schedule[..|schedule| - 1], schedule[|schedule| - 1];
      var s := Execute(p);
      TraceIsHistory(p);
      if Enabled(s, a) {
        match a
        case Publish(m) => PublishRemembers(s, m, Delivered(p));
        case RecordNext => RecordRemembers(s, Delivered(p));
        case Deliver(half) => HalvesOfSnoc(s.callbacks, Callback(half, Arrived));
        case StepCallback(i) => StepRemembers(s, i, Delivered(p));
      }
    }
  }

  /** ... and a half occurs in the trace as often as callbacks that carry it are past their first lock region. */
  lemma {:induction false} StoresAreHalves(schedule: seq<Action>, half: Half)
    ensures Occurrences(Execute(schedule).trace, half) == StoredCount(Execute(schedule).callbacks, half)
  {
    if schedule == [] {
    } else {
      var p, a := schedule[..|schedule| - 1], schedule[|schedule| - 1];
      var s := Execute(p);
      StoresAreHalves(p, half);
      if Enabled(s, a) {
        match a
        case Publish(_) =>
        case RecordNext => OccurrencesSnoc(s.trace, Record(s.published[s.recorded]), half);
        case Deliver(other) => StoredCountSnoc(s.callbacks, Callback(other, Arrived), half);
        case StepCallback(i) =>
          var s' := CallbackStep(s, i);
          OccurrencesSnoc(s.trace, s'.trace[|s.trace|], half);
          StoredCountUpdate(s.callbacks, i, s'.callbacks[i], half);
      }
    }
  }

  lemma {:induction false} OccursAt(tr: seq<Event>, i: nat)
    requires i < |tr|
    ensures Occurrences(tr, tr[i]) > 0
  {
    if i == |tr| - 1 {
    } else {
      OccursAt(tr[..|tr| - 1], i);
    }
  }

  lemma {:induction false} StoredWasDelivered(callbacks: seq<Callback>, half: Event)
    requires StoredCount(callbacks, half) > 0
    ensures half in HalvesOf(callbacks)
  {
    var n := |callbacks| - 1;
    if StoredCount(callbacks[..n], half) > 0 {
      StoredWasDelivered(callbacks[..n], half);
      var i :| 0 <= i < n && HalvesOf(callbacks[..n])[i] == half;
      assert HalvesOf(callbacks)[i] == half;
    } else {
      assert HalvesOf(callbacks)[n] == half;
    }
  }

  /** Every half in the trace was delivered. */
  lemma {:induction false} TraceWasDelivered(schedule: seq<Action>, i: nat)
    requires var tr := Execute(schedule).trace; i < |tr| && (tr[i].Ack? || tr[i].Resp?)
    ensures Execute(schedule).trace[i] in Delivered(schedule)
  {
    TraceIsHistory(schedule);
    OccursAt(Execute(schedule).trace, i);
    StoresAreHalves(schedule, Execute(schedule).trace[i]);
    StoredWasDelivered(Execute(schedule).callbacks, Execute(schedule).trace[i]);
  }

  // ----- When every callback of a key has ended -----

  /** The callbacks that have not stored their half of `k`, an ACK or a RESP, yet. */
  function WaitingCount(callbacks: seq<Callback>, k: Key, ack: bool): nat {
    if callbacks == [] then 0
    else
      var last := callbacks[|callbacks| - 1];
      WaitingCount(callbacks[..|callbacks| - 1], k, ack)
      + if last.pc == Arrived && last.half.key == k && last.half.Ack? == ack then 1 else 0
  }

  lemma {:induction false} WaitingSnoc(callbacks: seq<Callback>, c: Callback, k: Key, ack: bool)
    ensures WaitingCount(callbacks + [c], k, ack)
         == WaitingCount(callbacks, k, ack)
            + if c.pc == Arrived && c.half.key == k && c.half.Ack? == ack then 1 else 0
  {
    assert (callbacks + [c])[..|callbacks|] == callbacks;
  }

  lemma {:induction false} WaitingUpdate(callbacks: seq<Callback>, i: nat, pc: Pc, k: Key, ack: bool)
    requires i < |callbacks| && pc != Arrived
    ensures WaitingCount(callbacks[i := callbacks[i].(pc := pc)], k, ack)
         == WaitingCount(callbacks, k, ack)
            - var c := callbacks[i]; if c.pc == Arrived && c.half.key == k && c.half.Ack? == ack then 1 else 0
  {
    var n, c := |callbacks| - 1, callbacks[i].(pc := pc);
    if i < n {
      WaitingUpdate(callbacks[..n], i, pc, k, ack);
      assert callbacks[i := c][..n] == callbacks[..n][i := c];
    } else {
      assert callbacks[i := c][..n] == callbacks[..n];
    }
  }

  /** What was delivered has been stored or waits to be. */
  ghost predicate AllAccounted(s: System, delivered: seq<Event>, k: Key) {
    && AckCount(s.trace, OneKey(k)) + WaitingCount(s.callbacks, k, true) == AckCount(delivered, OneKey(k))
    && RespCount(s.trace, OneKey(k)) + WaitingCount(s.callbacks, k, false) == RespCount(delivered, OneKey(k))
  }

  lemma {:induction false} StepKeepsAccount(s: System, i: nat, delivered: seq<Event>, k: Key)
    requires AllAccounted(s, delivered, k) && Enabled(s, StepCallback(i))
    ensures AllAccounted(CallbackStep(s, i), delivered, k)
  {
    var s' := CallbackStep(s, i);
    CountsSnoc(s.trace, s'.trace[|s.trace|], OneKey(k));
    WaitingUpdate(s.callbacks, i, s'.callbacks[i].pc, k, true);
    WaitingUpdate(s.callbacks, i, s'.callbacks[i].pc, k, false);
  }

  lemma {:induction false} DeliveryKeepsAccount(s: System, half: Half, delivered: seq<Event>, k: Key)
    requires AllAccounted(s, delivered, k)
    ensures AllAccounted(Perform(s, Deliver(half)), delivered + [half], k)
  {
    CountsSnoc(delivered, half, OneKey(k));
    WaitingSnoc(s.callbacks, Callback(half, Arrived), k, true);
    WaitingSnoc(s.callbacks, Callback(half, Arrived), k, false);
  }

  lemma {:induction false} DeliveredIsAccounted(schedule: seq<Action>, k: Key)
    ensures AllAccounted(Execute(schedule), Delivered(schedule), k)
  {
    if schedule == [] {
    } else {
      var p, a := schedule[..|schedule| - 1], schedule[|schedule| - 1];
      var s := Execute(p);
      DeliveredIsAccounted(p, k);
      if Enabled(s, a) {
        match a
        case Publish(_) =>
        case RecordNext => CountsSnoc(s.trace, Record(s.published[s.recorded]), OneKey(k));
        case Deliver(half) => DeliveryKeepsAccount(s, half, Delivered(p), k);
        case StepCallback(i) => StepKeepsAccount(s, i, Delivered(p), k);
      }
    }
  }

  /** Every callback for `k` has run to its end. */
  ghost predicate Settled(s: System, k: Key) {
    forall i :: 0 <= i < |s.callbacks| && s.callbacks[i].half.key == k ==> s.callbacks[i].pc == Finished
  }

  lemma {:induction false} NobodyWaits(callbacks: seq<Callback>, k: Key, ack: bool)
    requires forall i :: 0 <= i < |callbacks| && callbacks[i].half.key == k ==> callbacks[i].pc == Finished
    ensures WaitingCount(callbacks, k, ack) == 0 && HalfWayCount(callbacks, k) == 0
  {
    if callbacks == [] {
    } else {
      NobodyWaits(callbacks[..|callbacks| - 1], k, ack);
    }
  }

  /** Once its callbacks have ended, the trace holds the halves of a key that were delivered, and the key is at rest. */
  lemma {:induction false} SettledCounts(schedule: seq<Action>, k: Key)
    requires Settled(Execute(schedule), k)
    ensures var s := Execute(schedule);
            && HalfWayCount(s.callbacks, k) == 0 && ClosesAfterStores(s.trace, k) && AtRest(s.trace, k)
            && AckCount(s.trace, OneKey(k)) == AckCount(Delivered(schedule), OneKey(k))
            && RespCount(s.trace, OneKey(k)) == RespCount(Delivered(schedule), OneKey(k))
  {
    DeliveredIsAccounted(schedule, k);
    NobodyWaits(Execute(schedule).callbacks, k, true);
    NobodyWaits(Execute(schedule).callbacks, k, false);
    CallbacksStoreFirst(schedule, k);
  }

  // ----- When a request counts as recorded in time -----

  /** The sender published a request `id` and recorded it. */
  ghost predicate HasRecorded(s: System, id: u32) {
    exists j :: 0 <= j < s.recorded && j < |s.published| && s.published[j].d1 == id
  }

  /** The `n`-th action makes callback `i` store a half of `k`, and the request has been recorded by then. */
  ghost predicate StoresRecorded(schedule: seq<Action>, n: nat, i: nat, k: Key) {
    && n < |schedule| && schedule[n] == StepCallback(i)
    && var s := Execute(schedule[..n]);
    && i < |s.callbacks| && s.callbacks[i].pc == Arrived && s.callbacks[i].half.key == k && HasRecorded(s, k.1)
  }

  ghost predicate StoredInTime(schedule: seq<Action>, k: Key) {
    exists n: nat, i: nat :: StoresRecorded(schedule, n, i, k)
  }

  ghost predicate HasId(requests: seq<Meta>, id: u32) {
    exists j :: 0 <= j < |requests| && requests[j].d1 == id
  }

  lemma {:induction false} HasIdSnoc(requests: seq<Meta>, m: Meta, id: u32)
    ensures HasId(requests + [m], id) <==> HasId(requests, id) || m.d1 == id
  {
    var all := requests + [m];
    assert all[|requests|] == m && forall j :: 0 <= j < |requests| ==> all[j] == requests[j];
    if HasId(requests, id) {
      var j :| 0 <= j < |requests| && requests[j].d1 == id;
      assert all[j].d1 == id;
    }
  }

  lemma {:induction false} RecordsAre(tr: seq<Event>, id: u32)
    ensures Recorded(tr, id) <==> HasId(RecordsIn(tr), id)
  {
    if tr == [] {
    } else {
      var p, e := tr[..|tr| - 1], tr[|tr| - 1];
      assert p + [e] == tr;
      RecordsAre(p, id);
      RecordedSnoc(p, e, id);
      if e.Record? {
        HasIdSnoc(RecordsIn(p), e.meta, id);
      }
    }
  }

  lemma {:induction false} HasRecordedIsRecorded(schedule: seq<Action>, id: u32)
    ensures HasRecorded(Execute(schedule), id) <==> Recorded(Execute(schedule).trace, id)
  {
    var s := Execute(schedule);
    TraceIsHistory(schedule);
    RecordsAre(s.trace, id);
    assert forall j :: 0 <= j < s.recorded ==> s.published[..s.recorded][j] == s.published[j];
  }

  lemma {:induction false} StoredInTimeSnoc(p: seq<Action>, a: Action, k: Key)
    ensures StoredInTime(p + [a], k)
       <==> StoredInTime(p, k) || (a.StepCallback? && StoresRecorded(p + [a], |p|, a.i, k))
  {
    var schedule := p + [a];
    forall n: nat, i: nat | n < |p| ensures StoresRecorded(schedule, n, i, k) <==> StoresRecorded(p, n, i, k) {
      assert schedule[..n] == p[..n] && schedule[n] == p[n];
    }
    if n: nat, i: nat :| StoresRecorded(schedule, n, i, k) && n >= |p| {
      assert n == |p| && a == StepCallback(i);
    }
  }

  /** An action that adds nothing to the trace stores nothing. */
  lemma {:induction false} SilentStoresNothing(p: seq<Action>, a: Action, k: Key)
    requires Execute(p + [a]).trace == Execute(p).trace
    ensures !(a.StepCallback? && StoresRecorded(p + [a], |p|, a.i, k))
  {
    ExecuteSnoc(p, a);
    assert (p + [a])[..|p|] == p;
  }

  /** The event an action adds to the trace, if any. */
  lemma {:induction false} StoresWhenRecorded(p: seq<Action>, a: Action, k: Key) returns (e: Event)
    requires Execute(p + [a]).trace != Execute(p).trace
    ensures Execute(p + [a]).trace == Execute(p).trace + [e]
    ensures a.StepCallback? && StoresRecorded(p + [a], |p|, a.i, k)
       <==> IsStore(e, k) && HasRecorded(Execute(p), k.1)
  {
    ExecuteSnoc(p, a);
    assert (p + [a])[..|p|] == p;
    e := Execute(p + [a]).trace[|Execute(p).trace|];
  }

  /** What RecordedInTime says of the trace, in terms of the sender's progress when a callback took its step. */
  lemma {:induction false} InTimeIsInTime(schedule: seq<Action>, k: Key)
    ensures StoredInTime(schedule, k) <==> RecordedInTime(Execute(schedule).trace, k)
  {
    if schedule == [] {
    } else {
      var p, a := schedule[..|schedule| - 1], schedule[|schedule| - 1];
      assert schedule == p + [a];
      InTimeIsInTime(p, k);
      StoredInTimeSnoc(p, a, k);
      if Execute(p + [a]).trace == Execute(p).trace {
        SilentStoresNothing(p, a, k);
      } else {
        var e := StoresWhenRecorded(p, a, k);
        HasRecordedIsRecorded(p, k.1);
        RecordedInTimeSnoc(Execute(p).trace, e, k);
      }
    }
  }

  // ----- Every such trace is that of a run -----

  lemma {:induction false} SomeoneIsHalfWay(callbacks: seq<Callback>, k: Key) returns (i: nat)
    requires HalfWayCount(callbacks, k) > 0
    ensures i < |callbacks| && callbacks[i].pc == HalfWay && callbacks[i].half.key == k
  {
    i := |callbacks| - 1;
    if !(callbacks[i].pc == HalfWay && IsStore(callbacks[i].half, k)) {
      i := SomeoneIsHalfWay(callbacks[..i], k);
    }
  }

  /** The run has this trace and nothing is published that is not recorded. */
  ghost predicate Yields(schedule: seq<Action>, tr: seq<Event>) {
    Execute(schedule).trace == tr && Execute(schedule).recorded == |Execute(schedule).published|
  }

  lemma {:induction false} RecordOccurs(schedule: seq<Action>, tr: seq<Event>, m: Meta) returns (more: seq<Action>)
    requires Yields(schedule, tr)
    ensures Yields(more, tr + [Record(m)])
  {
    more := schedule + [Publish(m)] + [RecordNext];
    ExecuteSnoc(schedule, Publish(m));
    ExecuteSnoc(schedule + [Publish(m)], RecordNext);
  }

  lemma {:induction false} FinalizeOccurs(schedule: seq<Action>, tr: seq<Event>, k: Key) returns (more: seq<Action>)
    requires Yields(schedule, tr) && HalfWayCount(Execute(schedule).callbacks, k) > 0
    ensures Yields(more, tr + [Finalize(k)])
  {
    var i := SomeoneIsHalfWay(Execute(schedule).callbacks, k);
    more := schedule + [StepCallback(i)];
    ExecuteSnoc(schedule, StepCallback(i));
  }

  lemma {:induction false} StoreOccurs(schedule: seq<Action>, tr: seq<Event>, half: Half) returns (more: seq<Action>)
    requires Yields(schedule, tr)
    ensures Yields(more, tr + [half])
  {
    var i := |Execute(schedule).callbacks|;
    more := schedule + [Deliver(half)] + [StepCallback(i)];
    ExecuteSnoc(schedule, Deliver(half));
    ExecuteSnoc(schedule + [Deliver(half)], StepCallback(i));
  }

  lemma {:induction false} TraceOccurs(tr: seq<Event>) returns (schedule: seq<Action>)
    requires forall k :: ClosesAfterStores(tr, k)
    ensures Yields(schedule, tr)
  {
    if tr == [] {
      schedule := [];
    } else {
      var p, e := tr[..|tr| - 1], tr[|tr| - 1];
      assert tr == p + [e];
      assert forall n :: 0 <= n <= |p| ==> p[..n] == tr[..n];
      assert forall k :: ClosesAfterStores(tr, k) ==> ClosesAfterStores(p, k);
      schedule := TraceOccurs(p);
      match e
      case Record(m) => schedule := RecordOccurs(schedule, p, m);
      case Finalize(k) =>
        ExecuteKeepsInv(schedule, k);
        CountsSnoc(p, e, OneKey(k));
        assert ClosesAfterStores(tr, k) && tr[..|tr|] == tr;
        schedule := FinalizeOccurs(schedule, p, k);
      case _ => schedule := StoreOccurs(schedule, p, e);
    }
  }

  /** The traces of runs are exactly those in which no close of any key runs ahead of its store. */
  lemma {:induction false} TracesExactly(tr: seq<Event>)
    ensures (exists schedule :: Execute(schedule).trace == tr) <==> forall k :: ClosesAfterStores(tr, k)
  {
    if schedule :| Execute(schedule).trace == tr {
      forall k ensures ClosesAfterStores(tr, k) {
        CallbacksStoreFirst(schedule, k);
      }
    }
    if forall k :: ClosesAfterStores(tr, k) {
      var schedule := TraceOccurs(tr);
      assert Execute(schedule).trace == tr;
    }
  }
}
