/**
 The OpenDDS ECU marks a missing timestamp by zero, the Zenoh ECU by a missing field. On traces without zero timestamps
 in which a request id stands for one request the two keep corresponding tables and emit the same rows.
 */
module JoinerSimulation {
  import opened Common
  import opened Calibration
  import opened Clock
  import O = OpenDdsEcu
  import Z = ZenohEcu
  import OpenDdsExactlyOnce
  import ZenohExactlyOnce
  import Callbacks = CalibrationCallbacks

  predicate NonZeroEvent(e: Event) {
    match e
    case Record(m) => m.sendTs != 0
    case Ack(_, ts) => ts != 0
    case Resp(_, ts, _, _, ecuTs) => ts != 0 && ecuTs != 0
    case Finalize(_) => true
  }

  ghost predicate NonZeroTimestamps(tr: seq<Event>) {
    forall i :: 0 <= i < |tr| ==> NonZeroEvent(tr[i])
  }

  /** A request id is never recorded with two different requests. */
  ghost predicate IdsDenoteOneRequest(tr: seq<Event>) {
    forall i, j :: 0 <= i < |tr| && 0 <= j < |tr| && tr[i].Record? && tr[j].Record? && tr[i].meta.d1 == tr[j].meta.d1
                   ==> tr[i] == tr[j]
  }

  /** The zero-marked entry and the dictionary hold the same fields with the same values. */
  predicate SameEntry(t: O.Txn, u: Z.Entry) {
    && Z.FieldGroups(u)
    && (Z.RadarAckRxTs in u <==> t.ackTs != 0) && (Z.RadarAckRxTs in u ==> u[Z.RadarAckRxTs] == t.ackTs)
    && (Z.RadarRespTs in u <==> t.respTs != 0) && (t.respTs != 0 <==> t.ecuTs != 0)
    && (Z.RadarRespTs in u ==>
          u[Z.RadarRespTs] == t.respTs && u[Z.EcuAckTs] == t.ecuTs && u[Z.RespC] == t.c && u[Z.RespD] == t.d)
    && (Z.EcuSendTs in u <==> t.sendTs != 0)
    && (Z.EcuSendTs in u ==>
          && u[Z.EcuSendTs] == t.sendTs && u[Z.ReqD1] == t.d1 && u[Z.ReqD2] == t.d2
          && u[Z.ReqD3] == t.d3 && u[Z.ReqD4] == t.d4)
  }

  /** An entry that has request fields has them from the recorded request of its id. */
  predicate FromTable(t: O.Txn, id: u32, meta: map<u32, Meta>) {
    t.sendTs != 0 ==> id in meta && meta[id] == Meta(t.sendTs, t.d1, t.d2, t.d3, t.d4)
  }

  ghost predicate SameTables(o: O.Ecu, z: Z.Ecu) {
    && o.meta == z.meta && o.rows == z.rows
    && o.pending.Keys == z.pending.Keys
    && (forall id :: id in o.meta ==> o.meta[id].sendTs != 0)
    && (forall k :: k in o.pending ==> SameEntry(o.pending[k], z.pending[k]))
    && (forall k :: k in o.pending ==> FromTable(o.pending[k], k.1, o.meta))
  }

  lemma {:induction false} SameCompleteness(t: O.Txn, u: Z.Entry)
    requires SameEntry(t, u)
    ensures O.Complete(t) <==> Z.Complete(u)
  {
    Z.CompleteByGroups(u);
  }

  lemma {:induction false} SameEntryAfterAck(t: O.Txn, u: Z.Entry, ts: u32)
    requires SameEntry(t, u) && ts != 0
    ensures SameEntry(t.(ackTs := ts), u[Z.RadarAckRxTs := ts])
  {
  }

  lemma {:induction false} SameEntryAfterResp(t: O.Txn, u: Z.Entry, ts: u32, c: u32, d: u32, ecuTs: u32)
    requires SameEntry(t, u) && ts != 0 && ecuTs != 0
    ensures SameEntry(t.(respTs := ts, c := c, d := d, ecuTs := ecuTs),
                      u[Z.RadarRespTs := ts][Z.RespC := c][Z.RespD := d][Z.EcuAckTs := ecuTs])
  {
  }

  lemma {:induction false} SameEntryWithRequest(t: O.Txn, u: Z.Entry, m: Meta)
    requires SameEntry(t, u) && m.sendTs != 0
    ensures SameEntry(t.(sendTs := m.sendTs, d1 := m.d1, d2 := m.d2, d3 := m.d3, d4 := m.d4), Z.WithRequest(u, m))
  {
  }

  lemma {:induction false} SameWithEntry(o: O.Ecu, z: Z.Ecu, k: Key, t: O.Txn, u: Z.Entry)
    requires SameTables(o, z) && SameEntry(t, u) && FromTable(t, k.1, o.meta)
    ensures SameTables(o.(pending := o.pending[k := t]), z.(pending := z.pending[k := u]))
  {
  }

  lemma {:induction false} SameAfterAck(o: O.Ecu, z: Z.Ecu, k: Key, ts: u32)
    requires SameTables(o, z) && ts != 0
    ensures SameTables(O.StoreAck(o, k, ts), Z.StoreAck(z, k, ts))
  {
    var t, u := GetOr(o.pending, k, O.EMPTY_TXN), GetOr(z.pending, k, Z.EMPTY_ENTRY);
    SameEntryAfterAck(t, u, ts);
    if k.1 in o.meta {
      SameEntryWithRequest(t.(ackTs := ts), u[Z.RadarAckRxTs := ts], o.meta[k.1]);
    }
    SameWithEntry(o, z, k, O.StoreAck(o, k, ts).pending[k], Z.StoreAck(z, k, ts).pending[k]);
  }

  lemma {:induction false} SameAfterResp(o: O.Ecu, z: Z.Ecu, k: Key, ts: u32, c: u32, d: u32, ecuTs: u32)
    requires SameTables(o, z) && ts != 0 && ecuTs != 0
    ensures SameTables(O.StoreResp(o, k, ts, c, d, ecuTs), Z.StoreResp(z, k, ts, c, d, ecuTs))
  {
    var t, u := GetOr(o.pending, k, O.EMPTY_TXN), GetOr(z.pending, k, Z.EMPTY_ENTRY);
    SameEntryAfterResp(t, u, ts, c, d, ecuTs);
    if k.1 in o.meta {
      SameEntryWithRequest(t.(respTs := ts, c := c, d := d, ecuTs := ecuTs),
                           u[Z.RadarRespTs := ts][Z.RespC := c][Z.RespD := d][Z.EcuAckTs := ecuTs], o.meta[k.1]);
    }
    var o', z' := O.StoreResp(o, k, ts, c, d, ecuTs), Z.StoreResp(z, k, ts, c, d, ecuTs);
    SameWithEntry(o, z, k, o'.pending[k], z'.pending[k]);
  }

  lemma {:induction false} SameAfterFinalize(o: O.Ecu, z: Z.Ecu, k: Key)
    requires SameTables(o, z)
    ensures SameTables(O.FinalizeIfReady(o, k), Z.FinalizeIfReady(z, k))
  {
    if k in o.pending {
      SameCompleteness(o.pending[k], z.pending[k]);
    }
  }

  lemma {:induction false} SameAfterStep(o: O.Ecu, z: Z.Ecu, e: Event)
    requires SameTables(o, z) && NonZeroEvent(e)
    requires e.Record? && e.meta.d1 in o.meta ==> o.meta[e.meta.d1] == e.meta
    ensures SameTables(O.Step(o, e), Z.Step(z, e))
  {
    match e
    case Record(_) =>
    case Ack(k, ts) => SameAfterAck(o, z, k, ts);
    case Resp(k, ts, c, d, ecuTs) => SameAfterResp(o, z, k, ts, c, d, ecuTs);
    case Finalize(k) => SameAfterFinalize(o, z, k);
  }

  lemma {:induction false} MetaFromTrace(tr: seq<Event>, id: u32)
    ensures id in O.Run(tr).meta ==>
              exists i :: 0 <= i < |tr| && tr[i] == Record(O.Run(tr).meta[id]) && tr[i].meta.d1 == id
  {
    if tr == [] {
    } else {
      var p := tr[..|tr| - 1];
      MetaFromTrace(p, id);
      if id in O.Run(p).meta {
        var i :| 0 <= i < |p| && p[i] == Record(O.Run(p).meta[id]) && p[i].meta.d1 == id;
        assert tr[i] == p[i];
      }
      if id in O.Run(tr).meta && O.Run(tr).meta != O.Run(p).meta && tr[|tr| - 1].meta.d1 == id {
        assert tr[|tr| - 1] == Record(O.Run(tr).meta[id]);
      }
    }
  }

  /** Over any such trace both ECUs emit the same rows, in the same order, and keep corresponding entries. */
  lemma {:induction false} JoinersAgree(tr: seq<Event>)
    requires NonZeroTimestamps(tr) && IdsDenoteOneRequest(tr)
    ensures O.Run(tr).rows == Z.Run(tr).rows
    ensures O.Run(tr).pending.Keys == Z.Run(tr).pending.Keys
    ensures SameTables(O.Run(tr), Z.Run(tr))
  {
    if tr == [] {
    } else {
      var p, e := tr[..|tr| - 1], tr[|tr| - 1];
      assert forall i :: 0 <= i < |p| ==> p[i] == tr[i];
      JoinersAgree(p);
      assert NonZeroEvent(e);
      if e.Record? && e.meta.d1 in O.Run(p).meta {
        MetaFromTrace(p, e.meta.d1);
        var i :| 0 <= i < |p| && p[i] == Record(O.Run(p).meta[e.meta.d1]) && p[i].meta.d1 == e.meta.d1;
        assert tr[i] == tr[|tr| - 1];
      }
      SameAfterStep(O.Run(p), Z.Run(p), e);
    }
  }

  // ----- Where they part -----

  /**
   With one ACK and one RESP processed for a key and nothing under way, the two ECUs differ in whether they have its row
   exactly when the request was recorded in time but one of the four stamps OpenDDS would put in its row is zero; it is
   then OpenDDS that has none.
   */
  lemma {:induction false} JoinersPartExactly(tr: seq<Event>, k: Key, a: nat, r: nat)
    requires ClosesAfterStores(tr, k) && AtRest(tr, k) && OnlyHalves(tr, k, a, r)
    ensures var rowsO, rowsZ := RowCount(O.Run(tr).rows, OneKey(k)), RowCount(Z.Run(tr).rows, OneKey(k));
            var stamped := OpenDdsExactlyOnce.AllStamped(OpenDdsExactlyOnce.JoinedRequest(tr, k, a, r), tr[a], tr[r]);
            && (rowsO != rowsZ <==> RecordedInTime(tr, k) && !stamped)
            && (rowsO != rowsZ ==> rowsO == 0 && rowsZ == 1)
  {
    OpenDdsExactlyOnce.RowExactly(tr, k, a, r);
    RowsOfKeyCount(O.Run(tr).rows, k);
    RecordedBeforeLater(tr, k, a, r);
    ZenohExactlyOnce.ExactlyOnce(tr, k);
  }

  predicate SameWords(m: Meta, m': Meta) {
    m.d1 == m'.d1 && m.d2 == m'.d2 && m.d3 == m'.d3 && m.d4 == m'.d4
  }

  /** The RESP came second and found a request that OpenDDS would, and Zenoh would not, take fields from. */
  predicate RequestsPart(ackFirst: bool, atAck: Option<Meta>, atResp: Option<Meta>) {
    && ackFirst && atAck.Some? && atResp.Some?
    && (atAck.value.sendTs == 0 || !SameWords(atAck.value, atResp.value))
  }

  /**
   With one ACK and one RESP processed for a key and nothing under way, the two ECUs hold the same rows for it, or both
   none, exactly in these cases: OpenDDS has its four stamps and the ACK did not find a request whose send time is zero
   or whose words differ from those the RESP found later; or the request was not recorded in time.
   */
  lemma {:induction false} RowsAgreeExactly(tr: seq<Event>, k: Key, a: nat, r: nat)
    requires ClosesAfterStores(tr, k) && AtRest(tr, k) && OnlyHalves(tr, k, a, r)
    ensures var stamped := OpenDdsExactlyOnce.AllStamped(OpenDdsExactlyOnce.JoinedRequest(tr, k, a, r), tr[a], tr[r]);
            var atAck, atResp := LatestRequest(tr[..a], k.1), LatestRequest(tr[..r], k.1);
            RowsOfKey(O.Run(tr).rows, k) == RowsOfKey(Z.Run(tr).rows, k)
            <==> if stamped then !RequestsPart(a < r, atAck, atResp) else !RecordedInTime(tr, k)
  {
    OpenDdsExactlyOnce.RowExactly(tr, k, a, r);
    ZenohExactlyOnce.RowExactly(tr, k, a, r);
    RecordedBeforeLater(tr, k, a, r);
    if a < r {
      LatestPersists(tr, a, r, k.1);
    } else {
      LatestPersists(tr, r, a, k.1);
    }
  }

  /** In every interleaving of the callbacks with each other and with the sender. */
  lemma {:induction false} RowsAgreeExactlyInEveryRun(schedule: seq<Callbacks.Action>, k: Key, a: nat, r: nat)
    requires Callbacks.HalfWayCount(Callbacks.Execute(schedule).callbacks, k) == 0
    requires OnlyHalves(Callbacks.Execute(schedule).trace, k, a, r)
    ensures var tr := Callbacks.Execute(schedule).trace;
            var stamped := OpenDdsExactlyOnce.AllStamped(OpenDdsExactlyOnce.JoinedRequest(tr, k, a, r), tr[a], tr[r]);
            var atAck, atResp := LatestRequest(tr[..a], k.1), LatestRequest(tr[..r], k.1);
            RowsOfKey(O.Run(tr).rows, k) == RowsOfKey(Z.Run(tr).rows, k)
            <==> if stamped then !RequestsPart(a < r, atAck, atResp) else !Callbacks.StoredInTime(schedule, k)
  {
    Callbacks.CallbacksStoreFirst(schedule, k);
    Callbacks.InTimeIsInTime(schedule, k);
    RowsAgreeExactly(Callbacks.Execute(schedule).trace, k, a, r);
  }

  // ----- Examples of both -----

  /** Both ECUs after one more event. */
  lemma {:induction false} Append(tr: seq<Event>, o: O.Ecu, z: Z.Ecu, e: Event)
    returns (tr': seq<Event>, o': O.Ecu, z': Z.Ecu)
    requires o == O.Run(tr) && z == Z.Run(tr)
    ensures tr' == tr + [e] && o' == O.Step(o, e) == O.Run(tr') && z' == Z.Step(z, e) == Z.Run(tr')
  {
    tr', o', z' := tr + [e], O.Step(o, e), Z.Step(z, e);
    assert tr'[..|tr|] == tr;
  }

  const K7: Key := ("1", 7)
  const FIRST := Meta(1, 7, 10, 0, 0)
  const SECOND := Meta(9, 7, 20, 0, 0)

  /** The entry that a recorded request, its ACK and its RESP fill. */
  function FilledEntry(m: Meta, ackTs: u32, respTs: u32, c: u32, d: u32, ecuTs: u32): Z.Entry {
    map[Z.EcuSendTs := m.sendTs, Z.ReqD1 := m.d1, Z.ReqD2 := m.d2, Z.ReqD3 := m.d3, Z.ReqD4 := m.d4,
        Z.RadarAckRxTs := ackTs, Z.RadarRespTs := respTs, Z.EcuAckTs := ecuTs, Z.RespC := c, Z.RespD := d]
  }

  lemma {:induction false} FilledEntryIs(k: Key, m: Meta, ackTs: u32, respTs: u32, c: u32, d: u32, ecuTs: u32)
    ensures Z.Complete(FilledEntry(m, ackTs, respTs, c, d, ecuTs))
    ensures Z.RowOf(k, FilledEntry(m, ackTs, respTs, c, d, ecuTs))
         == Row(k.0, k.1, m.sendTs, ackTs, respTs, ecuTs, m.d1, m.d2, m.d3, m.d4, c, d)
  {
  }

  /** Neither half completes an entry alone; an ACK and then a RESP fill it. */
  lemma {:induction false} AckThenResp(m: Meta, atResp: Option<Meta>,
                                       ackTs: u32, respTs: u32, c: u32, d: u32, ecuTs: u32)
    ensures var ack := Z.WithAck(Z.EMPTY_ENTRY, Some(m), ackTs);
            && !Z.Complete(ack)
            && Z.WithResp(ack, atResp, respTs, c, d, ecuTs) == FilledEntry(m, ackTs, respTs, c, d, ecuTs)
  {
    assert Z.RadarRespTs !in Z.WithAck(Z.EMPTY_ENTRY, Some(m), ackTs);
  }

  /** What a RESP alone leaves, besides the fields of the request. */
  function RespFields(respTs: u32, c: u32, d: u32, ecuTs: u32): Z.Entry {
    map[Z.RadarRespTs := respTs, Z.RespC := c, Z.RespD := d, Z.EcuAckTs := ecuTs]
  }

  lemma {:induction false} RequestTwice(m: Meta, ackTs: u32, respTs: u32, c: u32, d: u32, ecuTs: u32)
    ensures Z.WithRequest(Z.WithRequest(RespFields(respTs, c, d, ecuTs), m)[Z.RadarAckRxTs := ackTs], m)
         == FilledEntry(m, ackTs, respTs, c, d, ecuTs)
  {
  }

  /** So do a RESP and then an ACK. */
  lemma {:induction false} RespThenAck(m: Meta, ackTs: u32, respTs: u32, c: u32, d: u32, ecuTs: u32)
    ensures var resp := Z.WithResp(Z.EMPTY_ENTRY, Some(m), respTs, c, d, ecuTs);
            !Z.Complete(resp) && Z.WithAck(resp, Some(m), ackTs) == FilledEntry(m, ackTs, respTs, c, d, ecuTs)
  {
    var half := RespFields(respTs, c, d, ecuTs);
    assert Z.EMPTY_ENTRY[Z.RadarRespTs := respTs][Z.RespC := c][Z.RespD := d][Z.EcuAckTs := ecuTs] == half;
    assert Z.RadarAckRxTs !in Z.WithRequest(half, m);
    RequestTwice(m, ackTs, respTs, c, d, ecuTs);
  }

  /** A request and its ACK. */
  lemma {:induction false} RequestAndAck(ackTs: u32) returns (tr: seq<Event>, o: O.Ecu, z: Z.Ecu)
    ensures o == O.Run(tr) && z == Z.Run(tr) && tr == [Record(FIRST), Ack(K7, ackTs)]
    ensures o == O.Ecu(map[7 := FIRST], map[K7 := O.Txn(1, ackTs, 0, 0, 7, 10, 0, 0, 0, 0)], [])
    ensures z == Z.Ecu(map[7 := FIRST], map[K7 := Z.WithAck(Z.EMPTY_ENTRY, Some(FIRST), ackTs)], [])
  {
    tr, o, z := Append([], O.START, Z.START, Record(FIRST));
    tr, o, z := Append(tr, o, z, Ack(K7, ackTs));
  }

  /** A zero timestamp is enough to part them: the ACK stamped 0 is lost on the OpenDDS side only. */
  lemma {:induction false} ZeroTimestampDiverges()
    ensures exists tr: seq<Event> :: IdsDenoteOneRequest(tr) && O.Run(tr).rows == [] && |Z.Run(tr).rows| == 1
  {
    var tr, o, z := RequestAndAck(0);
    AckThenResp(FIRST, Some(FIRST), 0, 3, 5, 6, 4);
    FilledEntryIs(K7, FIRST, 0, 3, 5, 6, 4);
    tr, o, z := Append(tr, o, z, Resp(K7, 3, 5, 6, 4));
    tr, o, z := Append(tr, o, z, Finalize(K7));
  }

  const COLLISION := [Record(FIRST), Ack(K7, 2), Record(SECOND), Resp(K7, 3, 5, 6, 4), Finalize(K7)]

  /** A request id used twice, with the second request recorded between the halves. */
  lemma {:induction false} CollisionHalves() returns (tr: seq<Event>, o: O.Ecu, z: Z.Ecu)
    ensures o == O.Run(tr) && z == Z.Run(tr) && tr + [Finalize(K7)] == COLLISION
    ensures o.rows == [] && o.pending == map[K7 := O.Txn(1, 2, 3, 4, 7, 20, 0, 0, 5, 6)]
    ensures z.rows == [] && z.pending == map[K7 := FilledEntry(FIRST, 2, 3, 5, 6, 4)]
  {
    tr, o, z := RequestAndAck(2);
    AckThenResp(FIRST, Some(SECOND), 2, 3, 5, 6, 4);
    tr, o, z := Append(tr, o, z, Record(SECOND));
    assert o.meta == map[7 := SECOND] && z.meta == map[7 := SECOND];
    tr, o, z := Append(tr, o, z, Resp(K7, 3, 5, 6, 4));
  }

  /**
   So is a colliding request id, as RowsAgreeExactly tells: the ACK found other words than the RESP. The OpenDDS row
   carries the first request's send time with the second request's words, the Zenoh row is the first request's.
   */
  lemma {:induction false} CollidingIdDiverges()
    ensures NonZeroTimestamps(COLLISION)
    ensures O.Run(COLLISION).rows == [Row(K7.0, 7, 1, 2, 3, 4, 7, 20, 0, 0, 5, 6)]
    ensures Z.Run(COLLISION).rows == [Row(K7.0, 7, 1, 2, 3, 4, 7, 10, 0, 0, 5, 6)]
  {
    var tr, o, z := CollisionHalves();
    FilledEntryIs(K7, FIRST, 2, 3, 5, 6, 4);
    tr, o, z := Append(tr, o, z, Finalize(K7));
  }

  // ----- Order of the two halves -----

  /** Whichever half comes first, with the request recorded before both, the OpenDDS ECU ends in the same state. */
  lemma {:induction false} HalvesCommuteOpenDds(s: O.Ecu, k: Key, ackTs: u32, respTs: u32, c: u32, d: u32, ecuTs: u32)
    requires k !in s.pending && k.1 in s.meta && s.meta[k.1].sendTs != 0
    requires ackTs != 0 && respTs != 0 && ecuTs != 0
    ensures var ack, resp, close := Ack(k, ackTs), Resp(k, respTs, c, d, ecuTs), Finalize(k);
            var s1 := O.Step(O.Step(O.Step(O.Step(s, ack), close), resp), close);
            var s2 := O.Step(O.Step(O.Step(O.Step(s, resp), close), ack), close);
            && s1 == s2 && |s1.rows| == |s.rows| + 1 && k !in s1.pending
  {
    var ack, resp, close := Ack(k, ackTs), Resp(k, respTs, c, d, ecuTs), Finalize(k);
    var a := O.Step(O.Step(O.Step(s, ack), close), resp);
    var b := O.Step(O.Step(O.Step(s, resp), close), ack);
    assert a.pending == b.pending && a.pending - {k} == s.pending;
  }

  /** An entry that is completed in two stores becomes a row. */
  lemma {:induction false} TwoStores(s: Z.Ecu, k: Key, half: Z.Entry, whole: Z.Entry)
    requires k !in s.pending && !Z.Complete(half) && Z.Complete(whole)
    ensures var s1 := Z.FinalizeIfReady(s.(pending := s.pending[k := half]), k);
            && s1 == s.(pending := s.pending[k := half])
            && Z.FinalizeIfReady(s1.(pending := s1.pending[k := whole]), k) == s.(rows := s.rows + [Z.RowOf(k, whole)])
  {
    assert s.pending[k := half][k := whole] - {k} == s.pending;
  }

  /** ... and so does the Zenoh ECU. */
  lemma {:induction false} HalvesCommuteZenoh(s: Z.Ecu, k: Key, ackTs: u32, respTs: u32, c: u32, d: u32, ecuTs: u32)
    requires k !in s.pending && k.1 in s.meta
    ensures var ack, resp, close := Ack(k, ackTs), Resp(k, respTs, c, d, ecuTs), Finalize(k);
            var s1 := Z.Step(Z.Step(Z.Step(Z.Step(s, ack), close), resp), close);
            var s2 := Z.Step(Z.Step(Z.Step(Z.Step(s, resp), close), ack), close);
            && s1 == s2 && |s1.rows| == |s.rows| + 1 && k !in s1.pending
  {
    var m := s.meta[k.1];
    var whole := FilledEntry(m, ackTs, respTs, c, d, ecuTs);
    FilledEntryIs(k, m, ackTs, respTs, c, d, ecuTs);
    AckThenResp(m, Some(m), ackTs, respTs, c, d, ecuTs);
    TwoStores(s, k, Z.WithAck(Z.EMPTY_ENTRY, Some(m), ackTs), whole);
    RespThenAck(m, ackTs, respTs, c, d, ecuTs);
    TwoStores(s, k, Z.WithResp(Z.EMPTY_ENTRY, Some(m), respTs, c, d, ecuTs), whole);
  }

  /**
   The two programs compute a row's latencies differently - one casts both timestamps to `int` first, the other
   subtracts unbounded integers - and agree exactly when both timestamps lie on the same side of 2^31.
   */
  lemma {:induction false} LatenciesAgree(later: u32, earlier: u32)
    ensures IntDifference(later, earlier) == Some(later - earlier) <==> (later < TWO_31 <==> earlier < TWO_31)
  {
  }
}
