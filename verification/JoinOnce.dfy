/**
 What a joiner makes of one ACK and one RESP of a key, whatever the sender records under its id and whenever it does so.
 The two ECUs differ in their entries and in the rules by which a half goes into one; what follows from how entries are
 kept and closed is the same for both and is proved here once.
 */
module JoinOnce {
  import opened Common
  import opened Calibration

  /** How an entry starts, takes a half with the request found in the table, and becomes a row once it is complete. */
  datatype Rules<!T> = Rules(
    empty: T,
    withAck: (T, Option<Meta>, u32) -> T,
    withResp: (T, Option<Meta>, u32, u32, u32, u32) -> T,
    row: (Key, T) -> Option<Row>)

  datatype Tables<T> = Tables(pending: map<Key, T>, rows: seq<Row>)

  /** The entry after a store, given the events before it. */
  ghost function Stored<T>(rules: Rules<T>, t: T, tr: seq<Event>, e: Event): T
    requires e.Ack? || e.Resp?
  {
    var request := LatestRequest(tr, e.key.1);
    if e.Ack? then rules.withAck(t, request, e.ts) else rules.withResp(t, request, e.ts, e.c, e.d, e.ecuTs)
  }

  /** One lock region, given the events before it. */
  ghost function Step<T>(rules: Rules<T>, s: Tables<T>, tr: seq<Event>, e: Event): Tables<T> {
    match e
    case Record(_) => s
    case Finalize(k) =>
      if k in s.pending && rules.row(k, s.pending[k]).Some? then
        Tables(s.pending - {k}, s.rows + [rules.row(k, s.pending[k]).value])
      else s
    case _ => s.(pending := s.pending[e.key := Stored(rules, GetOr(s.pending, e.key, rules.empty), tr, e)])
  }

  ghost function Run<T>(rules: Rules<T>, tr: seq<Event>): Tables<T> {
    if tr == [] then Tables(map[], [])
    else Step(rules, Run(rules, tr[..|tr| - 1]), tr[..|tr| - 1], tr[|tr| - 1])
  }

  /** The entry of `k` as its stores build it, were it never closed. */
  ghost function Joined<T>(rules: Rules<T>, tr: seq<Event>, k: Key): T {
    if tr == [] then rules.empty
    else
      var p, e := tr[..|tr| - 1], tr[|tr| - 1];
      if IsStore(e, k) then Stored(rules, Joined(rules, p, k), p, e) else Joined(rules, p, k)
  }

  lemma {:induction false} RunSnoc<T>(rules: Rules<T>, tr: seq<Event>, e: Event)
    ensures Run(rules, tr + [e]) == Step(rules, Run(rules, tr), tr, e)
  {
    assert (tr + [e])[..|tr|] == tr;
  }

  lemma {:induction false} JoinedSnoc<T>(rules: Rules<T>, tr: seq<Event>, e: Event, k: Key)
    ensures Joined(rules, tr + [e], k)
         == if IsStore(e, k) then Stored(rules, Joined(rules, tr, k), tr, e) else Joined(rules, tr, k)
  {
    assert (tr + [e])[..|tr|] == tr;
  }

  /** A row names its key ... */
  ghost predicate NamesKey<T(!new)>(rules: Rules<T>) {
    forall k, t :: rules.row(k, t).Some? ==> (rules.row(k, t).value.rid, rules.row(k, t).value.reqId) == k
  }

  /** ... and takes an ACK and a RESP. */
  ghost predicate NeedsHalves<T>(rules: Rules<T>, tr: seq<Event>, k: Key) {
    rules.row(k, Joined(rules, tr, k)).Some? ==> AckCount(tr, OneKey(k)) > 0 && RespCount(tr, OneKey(k)) > 0
  }

  ghost predicate Sound<T(!new)>(rules: Rules<T>, tr: seq<Event>, k: Key) {
    NamesKey(rules) && forall n :: 0 <= n <= |tr| ==> NeedsHalves(rules, tr[..n], k)
  }

  lemma {:induction false} NoneJoined<T>(rules: Rules<T>, tr: seq<Event>, k: Key)
    requires Stores(tr, k) == 0
    ensures Joined(rules, tr, k) == rules.empty
  {
    if tr == [] {
    } else {
      NoneJoined(rules, tr[..|tr| - 1], k);
    }
  }

  /** The entry and the rows of `k` while at most one ACK and one RESP have been stored. */
  ghost predicate Joining<T>(rules: Rules<T>, tr: seq<Event>, k: Key) {
    var s, t := Run(rules, tr), Joined(rules, tr, k);
    if RowsOfKey(s.rows, k) == [] then
      (k in s.pending <==> Stores(tr, k) > 0) && (k in s.pending ==> s.pending[k] == t)
    else
      && rules.row(k, t).Some? && RowsOfKey(s.rows, k) == [rules.row(k, t).value] && k !in s.pending
      && AckCount(tr, OneKey(k)) == 1 && RespCount(tr, OneKey(k)) == 1
  }

  lemma {:induction false} JoiningStore<T>(rules: Rules<T>, p: seq<Event>, e: Event, k: Key)
    requires Joining(rules, p, k) && IsStore(e, k)
    requires AckCount(p + [e], OneKey(k)) <= 1 && RespCount(p + [e], OneKey(k)) <= 1
    ensures Joining(rules, p + [e], k)
  {
    CountsSnoc(p, e, OneKey(k));
    RunSnoc(rules, p, e);
    JoinedSnoc(rules, p, e, k);
    if Stores(p, k) == 0 {
      NoneJoined(rules, p, k);
    }
  }

  lemma {:induction false} JoiningFinalize<T(!new)>(rules: Rules<T>, p: seq<Event>, closed: Key, k: Key)
    requires Joining(rules, p, k) && NamesKey(rules) && NeedsHalves(rules, p, k)
    requires AckCount(p, OneKey(k)) <= 1 && RespCount(p, OneKey(k)) <= 1
    ensures Joining(rules, p + [Finalize(closed)], k)
  {
    var s := Run(rules, p);
    CountsSnoc(p, Finalize(closed), OneKey(k));
    RunSnoc(rules, p, Finalize(closed));
    JoinedSnoc(rules, p, Finalize(closed), k);
    if closed in s.pending && rules.row(closed, s.pending[closed]).Some? {
      RowsOfKeySnoc(s.rows, rules.row(closed, s.pending[closed]).value, k);
      if closed == k {
        assert RowsOfKey(s.rows, k) == [] && s.pending[k] == Joined(rules, p, k);
      }
    }
  }

  /** Requests, and stores of other keys. */
  lemma {:induction false} JoiningOther<T>(rules: Rules<T>, p: seq<Event>, e: Event, k: Key)
    requires Joining(rules, p, k) && !e.Finalize? && !IsStore(e, k)
    ensures Joining(rules, p + [e], k)
  {
    CountsSnoc(p, e, OneKey(k));
    RunSnoc(rules, p, e);
    JoinedSnoc(rules, p, e, k);
  }

  lemma {:induction false} JoiningStep<T(!new)>(rules: Rules<T>, p: seq<Event>, e: Event, k: Key)
    requires Joining(rules, p, k) && NamesKey(rules) && NeedsHalves(rules, p, k)
    requires AckCount(p + [e], OneKey(k)) <= 1 && RespCount(p + [e], OneKey(k)) <= 1
    ensures Joining(rules, p + [e], k)
  {
    CountsSnoc(p, e, OneKey(k));
    if e.Finalize? {
      JoiningFinalize(rules, p, e.key, k);
    } else if IsStore(e, k) {
      JoiningStore(rules, p, e, k);
    } else {
      JoiningOther(rules, p, e, k);
    }
  }

  lemma {:induction false} SoundBefore<T(!new)>(rules: Rules<T>, p: seq<Event>, e: Event, k: Key)
    requires Sound(rules, p + [e], k)
    ensures Sound(rules, p, k) && NeedsHalves(rules, p, k)
  {
    var tr := p + [e];
    forall n | 0 <= n <= |p| ensures NeedsHalves(rules, p[..n], k) {
      assert NeedsHalves(rules, tr[..n], k) && p[..n] == tr[..n];
    }
    assert p == p[..|p|];
  }

  lemma {:induction false} JoiningKept<T(!new)>(rules: Rules<T>, tr: seq<Event>, k: Key)
    requires Sound(rules, tr, k)
    requires AckCount(tr, OneKey(k)) <= 1 && RespCount(tr, OneKey(k)) <= 1
    ensures Joining(rules, tr, k)
  {
    if tr == [] {
    } else {
      var p, e := tr[..|tr| - 1], tr[|tr| - 1];
      assert p + [e] == tr;
      CountsSnoc(p, e, OneKey(k));
      SoundBefore(rules, p, e, k);
      JoiningKept(rules, p, k);
      JoiningStep(rules, p, e, k);
    }
  }

  /** No entry that could be closed outlives the callbacks of its key, whatever is duplicated. */
  lemma {:induction false} NothingReadyIsLeft<T>(rules: Rules<T>, tr: seq<Event>, k: Key)
    requires ClosesAfterStores(tr, k)
    ensures var s := Run(rules, tr);
            k in s.pending && rules.row(k, s.pending[k]).Some? ==> Closes(tr, k) < Stores(tr, k)
  {
    if tr == [] {
    } else {
      var p, e := tr[..|tr| - 1], tr[|tr| - 1];
      assert p + [e] == tr;
      assert forall n :: 0 <= n <= |p| ==> p[..n] == tr[..n];
      NothingReadyIsLeft(rules, p, k);
      assert Closes(p, k) <= Stores(p, k);
      CountsSnoc(p, e, OneKey(k));
    }
  }

  /** At rest, one ACK and one RESP have given their row if their joined entry is complete, and else wait in it. */
  lemma {:induction false} JoinsOnce<T(!new)>(rules: Rules<T>, tr: seq<Event>, k: Key)
    requires Sound(rules, tr, k) && ClosesAfterStores(tr, k) && AtRest(tr, k)
    requires AckCount(tr, OneKey(k)) == 1 && RespCount(tr, OneKey(k)) == 1
    ensures var s, t := Run(rules, tr), Joined(rules, tr, k);
            if rules.row(k, t).Some? then RowsOfKey(s.rows, k) == [rules.row(k, t).value] && k !in s.pending
            else RowsOfKey(s.rows, k) == [] && k in s.pending && s.pending[k] == t
  {
    JoiningKept(rules, tr, k);
    NothingReadyIsLeft(rules, tr, k);
  }

  // ----- The joined entry, read from the trace -----

  /** With only one half stored so far, at position `i`. */
  lemma {:induction false} OneHalf<T>(rules: Rules<T>, tr: seq<Event>, k: Key, i: nat)
    requires i < |tr| && IsStore(tr[i], k) && Stores(tr, k) == 1
    ensures Joined(rules, tr, k) == Stored(rules, rules.empty, tr[..i], tr[i])
  {
    var n := |tr| - 1;
    assert tr == tr[..n] + [tr[n]];
    CountsSnoc(tr[..n], tr[n], OneKey(k));
    JoinedSnoc(rules, tr[..n], tr[n], k);
    if i == n {
      NoneJoined(rules, tr[..n], k);
    } else {
      NoneCounted(tr[..n], k, i);
      assert tr[..n][..i] == tr[..i];
      OneHalf(rules, tr[..n], k, i);
    }
  }

  /** The two halves at positions `a` and `r` go into the entry one after the other. */
  ghost function TwoHalves<T>(rules: Rules<T>, tr: seq<Event>, a: nat, r: nat): T
    requires a < |tr| && r < |tr| && tr[a].Ack? && tr[r].Resp?
  {
    if a < r then Stored(rules, Stored(rules, rules.empty, tr[..a], tr[a]), tr[..r], tr[r])
    else Stored(rules, Stored(rules, rules.empty, tr[..r], tr[r]), tr[..a], tr[a])
  }

  lemma {:induction false} SecondHalf<T>(rules: Rules<T>, tr: seq<Event>, k: Key, i: nat)
    requires i < |tr| - 1 && IsStore(tr[i], k) && IsStore(tr[|tr| - 1], k) && Stores(tr, k) == 2
    ensures Joined(rules, tr, k)
         == Stored(rules, Stored(rules, rules.empty, tr[..i], tr[i]), tr[..|tr| - 1], tr[|tr| - 1])
  {
    var p, e := tr[..|tr| - 1], tr[|tr| - 1];
    assert tr == p + [e];
    CountsSnoc(p, e, OneKey(k));
    JoinedSnoc(rules, p, e, k);
    assert p[..i] == tr[..i] && p[i] == tr[i];
    OneHalf(rules, p, k, i);
  }

  lemma {:induction false} JoinedIs<T>(rules: Rules<T>, tr: seq<Event>, k: Key, a: nat, r: nat)
    requires OnlyHalves(tr, k, a, r)
    ensures Joined(rules, tr, k) == TwoHalves(rules, tr, a, r)
  {
    var n := |tr| - 1;
    if a == n {
      SecondHalf(rules, tr, k, r);
    } else if r == n {
      SecondHalf(rules, tr, k, a);
    } else {
      var p := tr[..n];
      assert tr == p + [tr[n]];
      CountsSnoc(p, tr[n], OneKey(k));
      JoinedSnoc(rules, p, tr[n], k);
      assert p[..a] == tr[..a] && p[..r] == tr[..r];
      NoneCounted(p, k, a);
      NoneCounted(p, k, r);
      JoinedIs(rules, p, k, a, r);
    }
  }
}
