/**
 The vsomeip ECU's calibration bookkeeping: a map of requests in flight under a packed 64-bit key, filled by the
 broadcaster after it notified a slot, amended by ACKs and emptied by RESPs. The specification keeps pairs as keys; the
 class keeps the packed map in place and is proved to refine it.
 */
module VsomeipCalibration {
  import opened Common
  import opened CalFrame

  /** The four words of a request; `d1` is its id. */
  datatype Request = Request(d1: u32, d2: u32, d3: u32, d4: u32)

  /** A slot (the radar number less one) and a request id. */
  type Key = (u32, u32)

  datatype CalInflight = CalInflight(sendMs: u32, d1: u32, d2: u32, d3: u32, d4: u32, ackMs: u32)

  datatype CalRow = CalRow(slot: u32, reqId: u32, sendMs: u32, ackMs: u32, respMs: u32, ecuMs: u32,
                           d1: u32, d2: u32, d3: u32, d4: u32, c: u32, d: u32)

  /** The lock regions of the broadcaster and of the two method handlers. */
  datatype Event =
    | Insert(slot: u32, req: Request, ecuTs: u32)
    | Ack(slot: u32, id: u32, ts: u32)
    | Resp(slot: u32, id: u32, ts: u32, c: u32, d: u32, ecuTs: u32)

  function KeyOf(e: Event): Key {
    match e
    case Insert(slot, req, _) => (slot, req.d1)
    case Ack(slot, id, _) => (slot, id)
    case Resp(slot, id, _, _, _, _) => (slot, id)
  }

  datatype Table = Table(inflight: map<Key, CalInflight>, rows: seq<CalRow>)

  const START := Table(map[], [])
  const NEW_INFLIGHT := CalInflight(0, 0, 0, 0, 0, 0)

  /** A second insertion under the same key keeps an ACK that came in between. */
  function Refilled(inf: CalInflight, req: Request, ecuTs: u32): CalInflight {
    inf.(sendMs := ecuTs, d1 := req.d1, d2 := req.d2, d3 := req.d3, d4 := req.d4)
  }

  function RowOf(slot: u32, id: u32, inf: CalInflight, respMs: u32, c: u32, d: u32, ecuMs: u32): CalRow {
    CalRow(slot, id, inf.sendMs, inf.ackMs, respMs, ecuMs, inf.d1, inf.d2, inf.d3, inf.d4, c, d)
  }

  function Step(t: Table, e: Event): Table {
    var k := KeyOf(e);
    match e
    case Insert(_, req, ecuTs) =>
      t.(inflight := t.inflight[k := Refilled(GetOr(t.inflight, k, NEW_INFLIGHT), req, ecuTs)])
    case Ack(_, _, ts) =>
      if k in t.inflight then t.(inflight := t.inflight[k := t.inflight[k].(ackMs := ts)]) else t
    case Resp(slot, id, ts, c, d, ecuTs) =>
      if k in t.inflight then
        Table(t.inflight - {k}, t.rows + [RowOf(slot, id, t.inflight[k], ts, c, d, ecuTs)])
      else t
  }

  function Run(tr: seq<Event>): Table {
    if tr == [] then START else Step(Run(tr[..|tr| - 1]), tr[|tr| - 1])
  }

  lemma {:induction false} RunSnoc(tr: seq<Event>, e: Event)
    ensures Run(tr + [e]) == Step(Run(tr), e)
  {
    assert (tr + [e])[..|tr|] == tr;
  }

  // ----- Conservation -----

  function RowsOf(rows: seq<CalRow>, k: Key): nat {
    if rows == [] then 0
    else
      var last := rows[|rows| - 1];
      RowsOf(rows[..|rows| - 1], k) + if (last.slot, last.reqId) == k then 1 else 0
  }

  function InsertsOf(tr: seq<Event>, k: Key): nat {
    if tr == [] then 0
    else
      var e := tr[|tr| - 1];
      InsertsOf(tr[..|tr| - 1], k) + if e.Insert? && KeyOf(e) == k then 1 else 0
  }

  lemma {:induction false} RowsOfSnoc(rows: seq<CalRow>, row: CalRow, k: Key)
    ensures RowsOf(rows + [row], k) == RowsOf(rows, k) + if (row.slot, row.reqId) == k then 1 else 0
  {
    assert (rows + [row])[..|rows|] == rows;
  }

  /** Under any duplication and any collision of request ids, each row and each entry has an insertion of its own. */
  lemma {:induction false} RowsWithinInsertions(tr: seq<Event>, k: Key)
    ensures RowsOf(Run(tr).rows, k) + (if k in Run(tr).inflight then 1 else 0) <= InsertsOf(tr, k)
  {
    if tr == [] {
    } else {
      var p, e := tr[..|tr| - 1], tr[|tr| - 1];
      RowsWithinInsertions(p, k);
      if e.Resp? && KeyOf(e) in Run(p).inflight {
        RowsOfSnoc(Run(p).rows, RowOf(e.slot, e.id, Run(p).inflight[KeyOf(e)], e.ts, e.c, e.d, e.ecuTs), k);
      }
    }
  }

  // ----- What an entry and a row stand for in the trace -----

  predicate IsInsert(e: Event, k: Key) { e.Insert? && KeyOf(e) == k }

  predicate IsAck(e: Event, k: Key) { e.Ack? && KeyOf(e) == k }

  predicate IsResp(e: Event, k: Key) { e.Resp? && KeyOf(e) == k }

  /** No RESP for `k` came after position `i`. */
  ghost predicate Unanswered(tr: seq<Event>, k: Key, i: int) {
    forall j :: i < j < |tr| && 0 <= j ==> !IsResp(tr[j], k)
  }

  ghost predicate OpenInsert(tr: seq<Event>, k: Key, i: int) {
    0 <= i < |tr| && IsInsert(tr[i], k) && Unanswered(tr, k, i)
  }

  ghost predicate Waiting(tr: seq<Event>, k: Key) {
    exists i :: OpenInsert(tr, k, i)
  }

  ghost predicate LatestInsert(tr: seq<Event>, k: Key, i: int) {
    OpenInsert(tr, k, i) && forall j :: i < j < |tr| ==> !IsInsert(tr[j], k)
  }

  /** An ACK that found the request in flight and has not been answered since. */
  ghost predicate HeldAck(tr: seq<Event>, k: Key, a: int) {
    && 0 <= a < |tr| && IsAck(tr[a], k) && Unanswered(tr, k, a)
    && exists i :: 0 <= i < a && OpenInsert(tr, k, i)
  }

  ghost predicate LatestAck(tr: seq<Event>, k: Key, a: int) {
    HeldAck(tr, k, a) && forall j :: a < j < |tr| ==> !IsAck(tr[j], k)
  }

  /** The send time is the clock reading and the words are the request of an insertion. */
  predicate SentBy(e: Event, inf: CalInflight)
    requires e.Insert?
  {
    && inf.sendMs == e.ecuTs
    && inf.d1 == e.req.d1 && inf.d2 == e.req.d2 && inf.d3 == e.req.d3 && inf.d4 == e.req.d4
  }

  /** They are those of the latest insertion. */
  ghost predicate SendExplained(tr: seq<Event>, k: Key, inf: CalInflight) {
    exists i :: LatestInsert(tr, k, i) && SentBy(tr[i], inf)
  }

  /** The ACK time is that of the latest ACK that found the request in flight, or 0 when there was none. */
  ghost predicate AckExplained(tr: seq<Event>, k: Key, ackMs: u32) {
    || (exists a :: LatestAck(tr, k, a) && ackMs == tr[a].ts)
    || (ackMs == 0 && forall a :: !HeldAck(tr, k, a))
  }

  lemma {:induction false} SendSnoc(tr: seq<Event>, e: Event, k: Key)
    ensures Waiting(tr + [e], k) <==> !IsResp(e, k) && (IsInsert(e, k) || Waiting(tr, k))
    ensures IsInsert(e, k) ==> LatestInsert(tr + [e], k, |tr|)
    ensures forall i :: !IsInsert(e, k) && !IsResp(e, k) && LatestInsert(tr, k, i) ==> LatestInsert(tr + [e], k, i)
  {
    var tr' := tr + [e];
    assert tr'[|tr|] == e;
    assert forall i :: 0 <= i < |tr| ==> tr'[i] == tr[i];
    forall i | 0 <= i < |tr|
      ensures OpenInsert(tr', k, i) <==> OpenInsert(tr, k, i) && !IsResp(e, k)
    {
      OpenInsertSnoc(tr, e, k, i);
    }
    if !IsResp(e, k) && IsInsert(e, k) {
      assert OpenInsert(tr', k, |tr|);
    }
  }

  lemma {:induction false} UnansweredSnoc(tr: seq<Event>, e: Event, k: Key, i: int)
    requires i < |tr|
    ensures Unanswered(tr + [e], k, i) <==> Unanswered(tr, k, i) && !IsResp(e, k)
  {
    var tr' := tr + [e];
    assert tr'[|tr|] == e;
    assert forall j :: 0 <= j < |tr| ==> tr'[j] == tr[j];
  }

  lemma {:induction false} OpenInsertSnoc(tr: seq<Event>, e: Event, k: Key, i: int)
    requires 0 <= i < |tr|
    ensures OpenInsert(tr + [e], k, i) <==> OpenInsert(tr, k, i) && !IsResp(e, k)
  {
    UnansweredSnoc(tr, e, k, i);
  }

  lemma {:induction false} HeldAckSnoc(tr: seq<Event>, e: Event, k: Key, a: int)
    ensures HeldAck(tr + [e], k, a) <==>
              || (a == |tr| && IsAck(e, k) && Waiting(tr, k))
              || (a < |tr| && HeldAck(tr, k, a) && !IsResp(e, k))
  {
    var tr' := tr + [e];
    assert tr'[|tr|] == e;
    if 0 <= a <= |tr| {
      forall i | 0 <= i < a
        ensures OpenInsert(tr', k, i) <==> OpenInsert(tr, k, i) && !IsResp(e, k)
      {
        OpenInsertSnoc(tr, e, k, i);
      }
      if a < |tr| {
        UnansweredSnoc(tr, e, k, a);
      }
    }
  }

  lemma {:induction false} AckExplainedSnoc(tr: seq<Event>, e: Event, k: Key, ackMs: u32)
    requires Waiting(tr, k) && AckExplained(tr, k, ackMs) && !IsResp(e, k)
    ensures AckExplained(tr + [e], k, if IsAck(e, k) then e.ts else ackMs)
  {
    var tr' := tr + [e];
    assert tr'[|tr|] == e;
    if IsAck(e, k) {
      HeldAckSnoc(tr, e, k, |tr|);
      assert LatestAck(tr', k, |tr|);
    } else if a :| LatestAck(tr, k, a) && ackMs == tr[a].ts {
      HeldAckSnoc(tr, e, k, a);
      assert LatestAck(tr', k, a);
    } else {
      forall a
        ensures !HeldAck(tr', k, a)
      {
        HeldAckSnoc(tr, e, k, a);
      }
    }
  }

  lemma {:induction false} AckExplainedAtFirstInsert(tr: seq<Event>, e: Event, k: Key)
    requires !Waiting(tr, k) && IsInsert(e, k)
    ensures AckExplained(tr + [e], k, 0)
  {
    forall a
      ensures !HeldAck(tr + [e], k, a)
    {
      HeldAckSnoc(tr, e, k, a);
    }
  }

  /** A key is in flight exactly while an insertion is unanswered, and its entry is what the trace says it is. */
  lemma {:induction false} EntriesExplained(tr: seq<Event>, k: Key)
    ensures k in Run(tr).inflight <==> Waiting(tr, k)
    ensures k in Run(tr).inflight ==>
              SendExplained(tr, k, Run(tr).inflight[k]) && AckExplained(tr, k, Run(tr).inflight[k].ackMs)
  {
    if tr == [] {
    } else {
      var p, e := tr[..|tr| - 1], tr[|tr| - 1];
      assert p + [e] == tr;
      EntriesExplained(p, k);
      EntriesStep(p, e, k);
    }
  }

  lemma {:induction false} SendExplainedSnoc(p: seq<Event>, e: Event, k: Key)
    requires !IsResp(e, k) && (k in Run(p).inflight ==> SendExplained(p, k, Run(p).inflight[k]))
    requires k in Step(Run(p), e).inflight
    ensures SendExplained(p + [e], k, Step(Run(p), e).inflight[k])
  {
    SendSnoc(p, e, k);
    var tr, inf := p + [e], Step(Run(p), e).inflight[k];
    assert tr[|p|] == e;
    if IsInsert(e, k) {
      assert LatestInsert(tr, k, |p|);
      assert SentBy(tr[|p|], inf);
    } else {
      var i :| LatestInsert(p, k, i) && SentBy(p[i], Run(p).inflight[k]);
      assert tr[i] == p[i] && LatestInsert(tr, k, i);
    }
  }

  lemma {:induction false} EntriesStep(p: seq<Event>, e: Event, k: Key)
    requires k in Run(p).inflight <==> Waiting(p, k)
    requires k in Run(p).inflight ==>
               SendExplained(p, k, Run(p).inflight[k]) && AckExplained(p, k, Run(p).inflight[k].ackMs)
    ensures k in Step(Run(p), e).inflight <==> Waiting(p + [e], k)
    ensures var t := Step(Run(p), e);
            k in t.inflight ==>
              SendExplained(p + [e], k, t.inflight[k]) && AckExplained(p + [e], k, t.inflight[k].ackMs)
  {
    SendSnoc(p, e, k);
    if k in Step(Run(p), e).inflight {
      SendExplainedSnoc(p, e, k);
      if k in Run(p).inflight {
        AckExplainedSnoc(p, e, k, Run(p).inflight[k].ackMs);
      } else {
        AckExplainedAtFirstInsert(p, e, k);
      }
    }
  }

  /** The row was emitted by the RESP at position `n`, which found the request in flight. */
  ghost predicate RowExplained(tr: seq<Event>, n: nat, row: CalRow) {
    && n < |tr| && tr[n].Resp?
    && var k := KeyOf(tr[n]);
    && Waiting(tr[..n], k)
    && row.slot == k.0 && row.reqId == row.d1 == k.1
    && row.respMs == tr[n].ts && row.c == tr[n].c && row.d == tr[n].d && row.ecuMs == tr[n].ecuTs
    && SendExplained(tr[..n], k, CalInflight(row.sendMs, row.d1, row.d2, row.d3, row.d4, 0))
    && AckExplained(tr[..n], k, row.ackMs)
  }

  /** A RESP that finds its request in flight. */
  ghost predicate Answers(tr: seq<Event>, n: nat)
    requires n < |tr|
  {
    tr[n].Resp? && Waiting(tr[..n], KeyOf(tr[n]))
  }

  /** The positions of these RESPs. */
  ghost function Answering(tr: seq<Event>): seq<nat> {
    if tr == [] then []
    else
      var n := |tr| - 1;
      if Answers(tr, n) then Answering(tr[..n]) + [n] else Answering(tr[..n])
  }

  /** They are listed completely ... */
  lemma {:induction false} AnsweringIsComplete(tr: seq<Event>, n: nat)
    requires n < |tr|
    ensures n in Answering(tr) <==> Answers(tr, n)
  {
    var p := tr[..|tr| - 1];
    if n < |p| {
      assert p[n] == tr[n] && p[..n] == tr[..n];
      AnsweringIsComplete(p, n);
    } else {
      AnsweringBelow(p);
    }
  }

  lemma {:induction false} AnsweringBelow(tr: seq<Event>)
    ensures forall j :: 0 <= j < |Answering(tr)| ==> Answering(tr)[j] < |tr|
  {
    if tr == [] {
    } else {
      AnsweringBelow(tr[..|tr| - 1]);
    }
  }

  /** ... and in order. */
  lemma {:induction false} AnsweringIncreases(tr: seq<Event>, i: nat, j: nat)
    requires i < j < |Answering(tr)|
    ensures Answering(tr)[i] < Answering(tr)[j]
  {
    var p := tr[..|tr| - 1];
    AnsweringBelow(p);
    if j < |Answering(p)| {
      AnsweringIncreases(p, i, j);
    }
  }

  lemma {:induction false} RowExplainedSnoc(tr: seq<Event>, e: Event, n: nat, row: CalRow)
    requires RowExplained(tr, n, row)
    ensures RowExplained(tr + [e], n, row)
  {
    assert (tr + [e])[..n] == tr[..n] && (tr + [e])[n] == tr[n];
  }

  /**
   There is exactly one row for every RESP that finds its request in flight, in the order of these RESPs, and none for
   any other; each row carries the send time and words of the latest insertion, whose first word is the row's request
   id, and the time of the latest ACK that found the request in flight.
   */
  lemma {:induction false} RowsExplained(tr: seq<Event>)
    ensures |Run(tr).rows| == |Answering(tr)|
    ensures forall j :: 0 <= j < |Answering(tr)| ==> RowExplained(tr, Answering(tr)[j], Run(tr).rows[j])
  {
    if tr == [] {
    } else {
      var p, e := tr[..|tr| - 1], tr[|tr| - 1];
      assert p + [e] == tr;
      RowsExplained(p);
      forall j | 0 <= j < |Answering(p)| ensures RowExplained(tr, Answering(p)[j], Run(p).rows[j]) {
        RowExplainedSnoc(p, e, Answering(p)[j], Run(p).rows[j]);
      }
      if e.Resp? {
        EntriesExplained(p, KeyOf(e));
        if KeyOf(e) in Run(p).inflight {
          NewRowExplained(p, e);
        }
      }
    }
  }

  lemma {:induction false} NewRowExplained(p: seq<Event>, e: Event)
    requires e.Resp? && KeyOf(e) in Run(p).inflight
    ensures RowExplained(p + [e], |p|, RowOf(e.slot, e.id, Run(p).inflight[KeyOf(e)], e.ts, e.c, e.d, e.ecuTs))
  {
    var k, tr := KeyOf(e), p + [e];
    EntriesExplained(p, k);
    assert tr[..|p|] == p && tr[|p|] == e;
    var inf := Run(p).inflight[k];
    var i :| LatestInsert(p, k, i) && SentBy(p[i], inf);
    assert KeyOf(p[i]) == k;
    assert SentBy(p[i], CalInflight(inf.sendMs, inf.d1, inf.d2, inf.d3, inf.d4, 0));
  }

  // ----- The packed map -----

  /** Bitwise or, bit by bit from the lowest. */
  function BitOr(a: nat, b: nat): nat
    decreases a + b
  {
    if a == 0 && b == 0 then 0
    else 2 * BitOr(a / 2, b / 2) + if a % 2 == 1 || b % 2 == 1 then 1 else 0
  }

  function Pow2(n: nat): nat {
    if n == 0 then 1 else 2 * Pow2(n - 1)
  }

  lemma {:induction false} OrZero(a: nat)
    ensures BitOr(a, 0) == a
  {
    if a == 0 {
    } else {
      OrZero(a / 2);
    }
  }

  /** A number shifted left by `n` shares no bit with one below 2^n, so the bitwise or adds them. */
  lemma {:induction false} DisjointHalves(x: nat, n: nat, y: nat)
    requires y < Pow2(n)
    ensures BitOr(x * Pow2(n), y) == x * Pow2(n) + y
  {
    if n == 0 {
      OrZero(x);
    } else {
      var a := x * Pow2(n - 1);
      assert x * Pow2(n) == 2 * a;
      assert 2 * a / 2 == a && 2 * a % 2 == 0;
      DisjointHalves(x, n - 1, y / 2);
      assert y == 2 * (y / 2) + y % 2;
    }
  }

  lemma {:induction false} Pow2Add(m: nat, n: nat)
    ensures Pow2(m + n) == Pow2(m) * Pow2(n)
  {
    if m == 0 {
    } else {
      Pow2Add(m - 1, n);
    }
  }

  lemma {:induction false} Pow2Is()
    ensures Pow2(32) == TWO_32
  {
    assert Pow2(2) == 4;
    Pow2Add(2, 2);
    Pow2Add(4, 4);
    Pow2Add(8, 8);
    Pow2Add(16, 16);
  }

  lemma {:induction false} PackedHalves(slot: u32, reqId: u32)
    ensures BitOr(slot * TWO_32 % TWO_64, reqId) == slot * TWO_32 + reqId
  {
    Pow2Is();
    DisjointHalves(slot, 32, reqId);
  }

  /** `((uint64_t)(uint32_t)slot << 32) | (uint64_t)req_id`. */
  function CalKey(slot: u32, reqId: u32): (key: u64)
    ensures key == slot * TWO_32 + reqId
  {
    PackedHalves(slot, reqId);
    BitOr(slot * TWO_32 % TWO_64, reqId)
  }

  lemma {:induction false} HalvesAreUnique(high: int, low: u32, high': int, low': u32)
    requires high * TWO_32 + low == high' * TWO_32 + low'
    ensures high == high' && low == low'
  {
  }

  lemma {:induction false} CalKeyInjective(slot: u32, id: u32, slot': u32, id': u32)
    ensures CalKey(slot, id) == CalKey(slot', id') <==> slot == slot' && id == id'
  {
    if CalKey(slot, id) == CalKey(slot', id') {
      HalvesAreUnique(slot, id, slot', id');
    }
  }

  predicate SameAt(m: map<u64, CalInflight>, t: map<Key, CalInflight>, slot: u32, id: u32) {
    && (CalKey(slot, id) in m <==> (slot, id) in t)
    && (CalKey(slot, id) in m ==> m[CalKey(slot, id)] == t[(slot, id)])
  }

  /** The packed map holds what the pair-keyed one does, under the packed keys. */
  ghost predicate Refines(m: map<u64, CalInflight>, t: map<Key, CalInflight>) {
    forall slot, id :: SameAt(m, t, slot, id)
  }

  lemma {:induction false} RefinesUpdate(m: map<u64, CalInflight>, t: map<Key, CalInflight>,
                                         slot: u32, id: u32, inf: CalInflight)
    requires Refines(m, t)
    ensures Refines(m[CalKey(slot, id) := inf], t[(slot, id) := inf])
  {
    var m', t' := m[CalKey(slot, id) := inf], t[(slot, id) := inf];
    forall slot': u32, id': u32
      ensures SameAt(m', t', slot', id')
    {
      assert SameAt(m, t, slot', id');
      CalKeyInjective(slot', id', slot, id);
    }
  }

  lemma {:induction false} RefinesErase(m: map<u64, CalInflight>, t: map<Key, CalInflight>, slot: u32, id: u32)
    requires Refines(m, t)
    ensures Refines(m - {CalKey(slot, id)}, t - {(slot, id)})
  {
    var m', t' := m - {CalKey(slot, id)}, t - {(slot, id)};
    forall slot': u32, id': u32
      ensures SameAt(m', t', slot', id')
    {
      assert SameAt(m, t, slot', id');
      CalKeyInjective(slot', id', slot, id);
    }
  }

  type u16 = n: int | 0 <= n < 0x1_0000

  const CALIB_INSTANCE_BASE: u16 := 0x8A00
  const SLOTS: nat := 6

  /** The instance under which a publisher offers the calibration service of a slot. */
  function InstanceOf(slot: nat): u16
    requires slot < SLOTS
  {
    CALIB_INSTANCE_BASE + slot
  }

  /** The slot of a calibration instance, if it is one of the ECU's six. */
  function SlotOf(inst: u16): Option<u32> {
    if inst < CALIB_INSTANCE_BASE || inst - CALIB_INSTANCE_BASE >= SLOTS then None
    else Some(inst - CALIB_INSTANCE_BASE)
  }

  /** What the publisher of a slot sends is taken for that slot ... */
  lemma {:induction false} SlotOfInstance(slot: nat)
    requires slot < SLOTS
    ensures SlotOf(InstanceOf(slot)) == Some(slot)
  {
  }

  /** ... and nothing else is: the six instances from 0x8A00 belong to a slot. */
  lemma {:induction false} InstanceOfSlot(inst: u16)
    ensures SlotOf(inst).Some? <==> 0x8A00 <= inst <= 0x8A05
    ensures SlotOf(inst).Some? ==> SlotOf(inst).value < 6 && InstanceOf(SlotOf(inst).value) == inst
  {
  }

  /** What goes back to the radar. */
  datatype Reply = NotOk | Ok(payload: seq<bv8>)

  /** A payload the handlers accept: sixteen bytes for a known slot. */
  predicate Accepted(inst: u16, payload: Option<seq<bv8>>) {
    payload.Some? && |payload.value| == FRAME_SIZE && SlotOf(inst).Some?
  }

  /** The value of a word of the wire. */
  function Value(w: bv32): u32 {
    w as int
  }

  class CalSubscriber {
    const host: Host
    var calInflight: map<u64, CalInflight>
    var calRows: seq<CalRow>
    ghost var trace: seq<Event>

    ghost predicate Valid()
      reads this
    {
      calRows == Run(trace).rows && Refines(calInflight, Run(trace).inflight)
    }

    constructor (host: Host)
      ensures Valid() && trace == [] && this.host == host
    {
      this.host := host;
      calInflight, calRows, trace := map[], [], [];
    }

    /** The broadcaster's lock region for one slot, after it notified the slot. */
    method InsertInflight(slot: u32, req: Request, ecuTs: u32)
      requires Valid()
      modifies this
      ensures Valid() && trace == old(trace) + [Insert(slot, req, ecuTs)]
    {
      RunSnoc(trace, Insert(slot, req, ecuTs));
      var key := CalKey(slot, req.d1);
      assert SameAt(calInflight, Run(trace).inflight, slot, req.d1);
      var inf := NEW_INFLIGHT;
      if key in calInflight {
        inf := calInflight[key];
      }
      inf := inf.(sendMs := ecuTs);
      inf := inf.(d1 := req.d1, d2 := req.d2, d3 := req.d3, d4 := req.d4);
      RefinesUpdate(calInflight, Run(trace).inflight, slot, req.d1, inf);
      calInflight := calInflight[key := inf];
      trace := trace + [Insert(slot, req, ecuTs)];
    }

    method HandleRadarAck(inst: u16, payload: Option<seq<bv8>>) returns (reply: Reply)
      requires Valid()
      modifies this
      ensures Valid()
      ensures !Accepted(inst, payload) ==> reply == NotOk && trace == old(trace)
      ensures Accepted(inst, payload) ==>
                var ack := UnpackBe(host, payload.value);
                reply == Ok([]) && trace == old(trace) + [Ack(SlotOf(inst).value, Value(ack.d1), Value(ack.d2))]
    {
      if payload.None? || |payload.value| != 16 || SlotOf(inst).None? {
        return NotOk;
      }
      var slot := SlotOf(inst).value;
      var ack := UnpackBe(host, payload.value);
      var reqId, radarRxTs := Value(ack.d1), Value(ack.d2);
      RunSnoc(trace, Ack(slot, reqId, radarRxTs));
      var key := CalKey(slot, reqId);
      assert SameAt(calInflight, Run(trace).inflight, slot, reqId);
      if key in calInflight {
        var inf := calInflight[key].(ackMs := radarRxTs);
        RefinesUpdate(calInflight, Run(trace).inflight, slot, reqId, inf);
        calInflight := calInflight[key := inf];
      }
      trace := trace + [Ack(slot, reqId, radarRxTs)];
      return Ok([]);
    }

    /** The reply carries the ECU-ACK: request id, receive time and the two words of the RESP. */
    method HandleRadarResp(inst: u16, payload: Option<seq<bv8>>, now: bv32) returns (reply: Reply)
      requires Valid()
      modifies this
      ensures Valid()
      ensures !Accepted(inst, payload) ==> reply == NotOk && trace == old(trace)
      ensures Accepted(inst, payload) ==>
                var r := UnpackBe(host, payload.value);
                && reply.Ok? && DecodeCalibration(reply.payload) == Some(U32x4(r.d1, now, r.d3, r.d4))
                && trace == old(trace) + [Resp(SlotOf(inst).value, Value(r.d1), Value(r.d2),
                                               Value(r.d3), Value(r.d4), Value(now))]
    {
      if payload.None? || |payload.value| != 16 || SlotOf(inst).None? {
        return NotOk;
      }
      var slot := SlotOf(inst).value;
      var r := UnpackBe(host, payload.value);
      var ack := U32x4(r.d1, now, r.d3, r.d4);
      FrameRoundTrip(host, host, ack);
      reply := Ok(PackBe(host, ack));
      var reqId, radarRespTs, c, d, ecuTs := Value(r.d1), Value(r.d2), Value(r.d3), Value(r.d4), Value(now);
      RunSnoc(trace, Resp(slot, reqId, radarRespTs, c, d, ecuTs));
      var key := CalKey(slot, reqId);
      assert SameAt(calInflight, Run(trace).inflight, slot, reqId);
      if key in calInflight {
        calRows := calRows + [RowOf(slot, reqId, calInflight[key], radarRespTs, c, d, ecuTs)];
        RefinesErase(calInflight, Run(trace).inflight, slot, reqId);
        calInflight := calInflight - {key};
      }
      trace := trace + [Resp(slot, reqId, radarRespTs, c, d, ecuTs)];
    }
  }
}
