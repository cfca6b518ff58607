/**
 How the periodic senders keep time. The OpenDDS calibration sender polls the clock and sends when a deadline has
 passed; the C++ radar loops sleep until a deadline that advances by one period per cycle; the Zenoh loops do the same
 but restart the schedule from the present when they are late. Times are integers of any unit.
 */
module Pacing {
  import opened Common

  // ---------------------------------------------------------------- polling for deadlines

  /** What one pass of the sender's loop sees: the running flag and the clock. */
  datatype Tick = Tick(running: bool, now: int)

  function CountTrue(bits: seq<bool>): (n: nat)
    ensures n <= |bits|
  {
    if bits == [] then 0 else CountTrue(bits[..|bits| - 1]) + if bits[|bits| - 1] then 1 else 0
  }

  lemma {:induction false} CountTrueSnoc(bits: seq<bool>, b: bool)
    ensures CountTrue(bits + [b]) == CountTrue(bits) + if b then 1 else 0
  {
    assert (bits + [b])[..|bits|] == bits;
  }

  /** The deadline after `sent` sends: the first is one period after `t0`, and lateness never shifts the schedule. */
  function Deadline(t0: int, period: nat, sent: nat): int {
    if sent == 0 then t0 + period else Deadline(t0, period, sent - 1) + period
  }

  lemma {:induction false} DeadlineIs(t0: int, period: nat, sent: nat)
    ensures Deadline(t0, period, sent) == t0 + (sent + 1) * period
  {
    if sent == 0 {
    } else {
      DeadlineIs(t0, period, sent - 1);
      assert (sent + 1) * period == sent * period + period;
    }
  }

  /** A pass sends exactly when the deadline after the earlier sends has been reached. */
  ghost predicate Paced(t0: int, period: nat, ticks: seq<Tick>, fired: seq<bool>) {
    && |fired| <= |ticks|
    && forall i :: 0 <= i < |fired| ==> (fired[i] <==> ticks[i].now >= Deadline(t0, period, CountTrue(fired[..i])))
  }

  /** Every pass made saw the flag up and a send still to do. */
  ghost predicate Entitled(target: int, ticks: seq<Tick>, fired: seq<bool>) {
    && |fired| <= |ticks|
    && forall i :: 0 <= i < |fired| ==> ticks[i].running && CountTrue(fired[..i]) < target
  }

  lemma {:induction false} PacedSnoc(t0: int, period: nat, ticks: seq<Tick>, fired: seq<bool>, b: bool)
    requires Paced(t0, period, ticks, fired) && |fired| < |ticks|
    requires b <==> ticks[|fired|].now >= Deadline(t0, period, CountTrue(fired))
    ensures Paced(t0, period, ticks, fired + [b])
  {
    var all := fired + [b];
    forall i | 0 <= i < |all| ensures all[i] <==> ticks[i].now >= Deadline(t0, period, CountTrue(all[..i])) {
      assert all[..i] == fired[..i];
      assert fired[..|fired|] == fired;
    }
  }

  lemma {:induction false} EntitledSnoc(target: int, ticks: seq<Tick>, fired: seq<bool>, b: bool)
    requires Entitled(target, ticks, fired) && |fired| < |ticks|
    requires ticks[|fired|].running && CountTrue(fired) < target
    ensures Entitled(target, ticks, fired + [b])
  {
    var all := fired + [b];
    forall i | 0 <= i < |all| ensures ticks[i].running && CountTrue(all[..i]) < target {
      assert all[..i] == fired[..i];
      assert fired[..|fired|] == fired;
    }
  }

  /** One more pass. */
  lemma {:induction false} PassMade(t0: int, period: nat, target: int, ticks: seq<Tick>, fired: seq<bool>, due: bool)
    requires Paced(t0, period, ticks, fired) && Entitled(target, ticks, fired) && |fired| < |ticks|
    requires due <==> ticks[|fired|].now >= Deadline(t0, period, CountTrue(fired))
    requires ticks[|fired|].running && CountTrue(fired) < target
    ensures Paced(t0, period, ticks, fired + [due]) && Entitled(target, ticks, fired + [due])
    ensures CountTrue(fired + [due]) == CountTrue(fired) + if due then 1 else 0
  {
    PacedSnoc(t0, period, ticks, fired, due);
    EntitledSnoc(target, ticks, fired, due);
    CountTrueSnoc(fired, due);
  }

  /**
   The loop of the OpenDDS sender thread over the clock readings of a run. It stops when the flag falls or the target is
   reached; `fired` says which passes sent.
   */
  method PollDeadlines(t0: int, period: nat, target: int, ticks: seq<Tick>)
    returns (sent: nat, nextDeadline: int, fired: seq<bool>)
    ensures Paced(t0, period, ticks, fired)
    ensures Entitled(target, ticks, fired)
    ensures sent == CountTrue(fired) && nextDeadline == Deadline(t0, period, sent)
    ensures sent <= if target >= 0 then target else 0
    ensures |fired| < |ticks| && ticks[|fired|].running ==> sent >= target
  {
    sent, nextDeadline, fired := 0, t0 + period, [];
    while |fired| < |ticks| && ticks[|fired|].running && sent < target
      invariant Paced(t0, period, ticks, fired)
      invariant Entitled(target, ticks, fired)
      invariant sent == CountTrue(fired) && nextDeadline == Deadline(t0, period, sent)
      invariant sent <= if target >= 0 then target else 0
      decreases |ticks| - |fired|
    {
      var now := ticks[|fired|].now;
      var due := !(now < nextDeadline);
      PassMade(t0, period, target, ticks, fired, due);
      fired := fired + [due];
      if !due {
        continue;
      }
      sent := sent + 1;
      nextDeadline := nextDeadline + period;
    }
  }

  /** The thread itself: its next deadline lies one period per send, and one more, after its start. */
  method RunSender(t0: int, period: nat, target: int, ticks: seq<Tick>)
    returns (sent: nat, nextDeadline: int, fired: seq<bool>)
    ensures Paced(t0, period, ticks, fired)
    ensures Entitled(target, ticks, fired)
    ensures sent == CountTrue(fired) && nextDeadline == t0 + (sent + 1) * period
    ensures sent <= if target >= 0 then target else 0
    ensures |fired| < |ticks| && ticks[|fired|].running ==> sent >= target
  {
    sent, nextDeadline, fired := PollDeadlines(t0, period, target, ticks);
    DeadlineIs(t0, period, sent);
  }

  /** The clock does not go backwards over the passes of a run, nor below `t0`. */
  ghost predicate Monotone(t0: int, ticks: seq<Tick>) {
    && (forall i :: 0 <= i < |ticks| ==> t0 <= ticks[i].now)
    && forall i, j :: 0 <= i <= j < |ticks| ==> ticks[i].now <= ticks[j].now
  }

  /** The number of whole periods since `t0`. */
  function Elapsed(t0: int, period: nat, now: int): nat
    requires period > 0 && t0 <= now
  {
    (now - t0) / period
  }

  lemma {:induction false} TimesMonotone(a: int, b: int, period: nat)
    requires a <= b
    ensures a * period <= b * period
  {
  }

  lemma {:induction false} DivisionIs(x: nat, period: nat, n: nat)
    requires period > 0
    ensures x / period >= n <==> x >= n * period
  {
    var q := x / period;
    assert q * period <= x < (q + 1) * period by {
      assert x == q * period + x % period && (q + 1) * period == q * period + period;
    }
    if q >= n {
      TimesMonotone(n, q, period);
    } else {
      TimesMonotone(q + 1, n, period);
    }
  }

  lemma {:induction false} DueIffElapsed(t0: int, period: nat, now: int, sent: nat)
    requires period > 0 && t0 <= now
    ensures now >= Deadline(t0, period, sent) <==> Elapsed(t0, period, now) >= sent + 1
  {
    DeadlineIs(t0, period, sent);
    DivisionIs(now - t0, period, sent + 1);
  }

  /** The last of `sent` sends was due by the time `now`. */
  predicate WasDue(t0: int, period: nat, sent: nat, now: int) {
    sent == 0 || now >= Deadline(t0, period, sent - 1)
  }

  lemma {:induction false} PassAt(t0: int, period: nat, ticks: seq<Tick>, fired: seq<bool>, i: nat)
    requires Paced(t0, period, ticks, fired) && i < |fired|
    ensures CountTrue(fired[..i + 1]) == CountTrue(fired[..i]) + if fired[i] then 1 else 0
    ensures fired[i] <==> ticks[i].now >= Deadline(t0, period, CountTrue(fired[..i]))
  {
    assert fired[..i + 1] == fired[..i] + [fired[i]];
    CountTrueSnoc(fired[..i], fired[i]);
  }

  /** Every send so far was due. */
  lemma {:induction false} SendsWereDue(t0: int, period: nat, ticks: seq<Tick>, fired: seq<bool>, i: nat)
    requires Monotone(t0, ticks) && Paced(t0, period, ticks, fired) && i < |fired|
    ensures WasDue(t0, period, CountTrue(fired[..i + 1]), ticks[i].now)
  {
    PassAt(t0, period, ticks, fired, i);
    if i == 0 {
      assert fired[..0] == [];
    } else {
      SendsWereDue(t0, period, ticks, fired, i - 1);
      assert ticks[i - 1].now <= ticks[i].now;
    }
  }

  lemma {:induction false} OnePass(t0: int, period: nat, now: int, sent: nat)
    requires period > 0 && t0 <= now && WasDue(t0, period, sent, now)
    ensures sent <= Elapsed(t0, period, now)
    ensures now < Deadline(t0, period, sent) <==> sent == Elapsed(t0, period, now)
  {
    DueIffElapsed(t0, period, now, sent);
    if sent == 0 {
      assert Elapsed(t0, period, now) >= 0;
    } else {
      DueIffElapsed(t0, period, now, sent - 1);
    }
  }

  /** Never ahead of the clock: after every pass at most one send per elapsed period, and just that if none is due. */
  lemma {:induction false} SendsFollowClock(t0: int, period: nat, ticks: seq<Tick>, fired: seq<bool>, i: nat)
    requires period > 0 && Monotone(t0, ticks) && Paced(t0, period, ticks, fired) && i < |fired|
    ensures var sent := CountTrue(fired[..i + 1]);
            && sent <= Elapsed(t0, period, ticks[i].now)
            && (ticks[i].now < Deadline(t0, period, sent) <==> sent == Elapsed(t0, period, ticks[i].now))
  {
    SendsWereDue(t0, period, ticks, fired, i);
    OnePass(t0, period, ticks[i].now, CountTrue(fired[..i + 1]));
  }

  lemma {:induction false} DeadlineMonotone(t0: int, period: nat, i: nat, j: nat)
    requires i <= j
    ensures Deadline(t0, period, i) <= Deadline(t0, period, j)
  {
    if i == j {
    } else {
      DeadlineMonotone(t0, period, i, j - 1);
    }
  }

  lemma {:induction false} PacedPrefix(t0: int, period: nat, ticks: seq<Tick>, fired: seq<bool>, n: nat)
    requires Paced(t0, period, ticks, fired) && n <= |fired|
    ensures Paced(t0, period, ticks, fired[..n])
  {
    forall i | 0 <= i < n ensures fired[..n][..i] == fired[..i] {
    }
  }

  lemma {:induction false} LastPass(t0: int, period: nat, ticks: seq<Tick>, fired: seq<bool>, m: nat)
    requires 0 < m && Paced(t0, period, ticks, fired) && fired != []
    requires ticks[|fired| - 1].now >= Deadline(t0, period, m - 1)
    ensures var sent := CountTrue(fired[..|fired| - 1]);
            CountTrue(fired) >= if sent < m then sent + 1 else sent
  {
    var sent := CountTrue(fired[..|fired| - 1]);
    if sent < m {
      DeadlineMonotone(t0, period, sent, m - 1);
    }
  }

  lemma {:induction false} CatchesUpWithDeadline(t0: int, period: nat, ticks: seq<Tick>, fired: seq<bool>,
                                                 from: nat, m: nat)
    requires m > 0 && Paced(t0, period, ticks, fired) && from <= |fired|
    requires forall i :: from <= i < |fired| ==> ticks[i].now >= Deadline(t0, period, m - 1)
    ensures CountTrue(fired) >= if |fired| - from < m then |fired| - from else m
  {
    if from == |fired| {
    } else {
      var n := |fired| - 1;
      PacedPrefix(t0, period, ticks, fired, n);
      CatchesUpWithDeadline(t0, period, ticks, fired[..n], from, m);
      LastPass(t0, period, ticks, fired, m);
    }
  }

  /** Nor does it stay behind: `n` passes that see `m` periods elapsed leave at least min(n, m) sends done. */
  lemma {:induction false} SenderCatchesUp(t0: int, period: nat, ticks: seq<Tick>, fired: seq<bool>,
                                           from: nat, m: nat)
    requires period > 0 && Monotone(t0, ticks) && Paced(t0, period, ticks, fired) && from <= |fired|
    requires forall i :: from <= i < |fired| ==> Elapsed(t0, period, ticks[i].now) >= m
    ensures CountTrue(fired) >= if |fired| - from < m then |fired| - from else m
  {
    if m > 0 {
      forall i | from <= i < |fired| ensures ticks[i].now >= Deadline(t0, period, m - 1) {
        DueIffElapsed(t0, period, ticks[i].now, m - 1);
      }
      CatchesUpWithDeadline(t0, period, ticks, fired, from, m);
    }
  }

  // ---------------------------------------------------------------- sleeping until a deadline

  /**
   One cycle as the environment has it: how long its body takes, how late the loop wakes up or, having nothing to wait
   for, reads the clock again, and how long from then to the reading at the top of the loop.
   */
  datatype Lap = Lap(work: nat, delay: nat, toTop: nat)

  /** The time at the top of the loop and the scheduled time the cycle belongs to. */
  datatype Pace = Pace(now: int, nextT: int)

  function Later(a: int, b: int): int {
    if a < b then b else a
  }

  /** `next_t += period; sleep_until(next_t)`. */
  function SleepUntil(p: Pace, period: nat, lap: Lap): Pace {
    var next := p.nextT + period;
    Pace(Later(p.now + lap.work, next) + lap.delay + lap.toTop, next)
  }

  /** The same, but a loop that is late takes the present as its new schedule. */
  function SleepOrReset(p: Pace, period: nat, lap: Lap): Pace {
    var next, done := p.nextT + period, p.now + lap.work;
    if next - done > 0 then Pace(next + lap.delay + lap.toTop, next)
    else Pace(done + lap.delay + lap.toTop, done + lap.delay)
  }

  function KeepSchedule(p: Pace, period: nat, laps: seq<Lap>): Pace {
    if laps == [] then p else SleepUntil(KeepSchedule(p, period, laps[..|laps| - 1]), period, laps[|laps| - 1])
  }

  function ResetSchedule(p: Pace, period: nat, laps: seq<Lap>): Pace {
    if laps == [] then p else SleepOrReset(ResetSchedule(p, period, laps[..|laps| - 1]), period, laps[|laps| - 1])
  }

  lemma {:induction false} ScheduleSnoc(p: Pace, period: nat, laps: seq<Lap>, k: nat)
    requires k < |laps|
    ensures KeepSchedule(p, period, laps[..k + 1])
         == SleepUntil(KeepSchedule(p, period, laps[..k]), period, laps[k])
    ensures ResetSchedule(p, period, laps[..k + 1])
         == SleepOrReset(ResetSchedule(p, period, laps[..k]), period, laps[k])
  {
    assert laps[..k + 1][..k] == laps[..k];
  }

  lemma {:induction false} OneMorePeriod(start: int, n: nat, period: nat)
    ensures start + (n + 1) * period == start + n * period + period
  {
  }

  lemma {:induction false} KeepingIsNeverEarly(p: Pace, period: nat, laps: seq<Lap>)
    requires p.nextT <= p.now
    ensures KeepSchedule(p, period, laps).nextT == p.nextT + |laps| * period <= KeepSchedule(p, period, laps).now
  {
    if laps == [] {
    } else {
      var n := |laps| - 1;
      KeepingIsNeverEarly(p, period, laps[..n]);
      OneMorePeriod(p.nextT, n, period);
    }
  }

  lemma {:induction false} ResettingIsNeverEarly(p: Pace, period: nat, laps: seq<Lap>)
    requires p.nextT <= p.now
    ensures p.nextT + |laps| * period <= ResetSchedule(p, period, laps).nextT <= ResetSchedule(p, period, laps).now
  {
    if laps == [] {
    } else {
      var n := |laps| - 1;
      ResettingIsNeverEarly(p, period, laps[..n]);
      OneMorePeriod(p.nextT, n, period);
    }
  }

  /** Neither loop ever runs ahead: its k-th lap (from zero) starts at least k periods after the first was scheduled. */
  lemma {:induction false} NeverEarly(p: Pace, period: nat, laps: seq<Lap>)
    requires p.nextT <= p.now
    ensures var keep := KeepSchedule(p, period, laps);
            keep.nextT == p.nextT + |laps| * period <= keep.now
    ensures var reset := ResetSchedule(p, period, laps);
            p.nextT + |laps| * period <= reset.nextT <= reset.now
  {
    KeepingIsNeverEarly(p, period, laps);
    ResettingIsNeverEarly(p, period, laps);
  }

  /** The schedule that is kept catches up after a late cycle, so it is never behind the one that is reset. */
  lemma {:induction false} KeepingNeverLags(p: Pace, period: nat, laps: seq<Lap>)
    ensures KeepSchedule(p, period, laps).now <= ResetSchedule(p, period, laps).now
    ensures KeepSchedule(p, period, laps).nextT <= ResetSchedule(p, period, laps).nextT
  {
    if laps == [] {
    } else {
      KeepingNeverLags(p, period, laps[..|laps| - 1]);
    }
  }

  /**
   The schedule that is reset never makes up for lost time: after a late cycle it starts again from the second clock
   reading, and a full period passes per cycle from there.
   */
  lemma {:induction false} ResettingNeverBursts(p: Pace, period: nat, late: Lap, laps: seq<Lap>)
    requires p.now + late.work >= p.nextT + period
    ensures var q := SleepOrReset(p, period, late);
            && q.nextT == p.now + late.work + late.delay
            && ResetSchedule(q, period, laps).now >= q.nextT + |laps| * period
  {
    NeverEarly(SleepOrReset(p, period, late), period, laps);
  }

  /** A cycle starts only after the body of the one before it has ended, in either kind of loop. */
  lemma {:induction false} CyclesDoNotOverlap(p: Pace, period: nat, laps: seq<Lap>, k: nat)
    requires k < |laps|
    ensures KeepSchedule(p, period, laps[..k]).now + laps[k].work <= KeepSchedule(p, period, laps[..k + 1]).now
    ensures ResetSchedule(p, period, laps[..k]).now + laps[k].work <= ResetSchedule(p, period, laps[..k + 1]).now
  {
    ScheduleSnoc(p, period, laps, k);
  }

  /**
   From the same point both loops start their next cycle at the same time; they part in what they take for its scheduled
   time, and only if the body ended at or after the deadline.
   */
  lemma {:induction false} LoopsPartWhenLate(p: Pace, period: nat, lap: Lap)
    ensures var keep, reset := KeepSchedule(p, period, [lap]), ResetSchedule(p, period, [lap]);
            && keep.now == reset.now && keep.nextT == p.nextT + period
            && (p.now + lap.work < keep.nextT ==> reset.nextT == keep.nextT == reset.now - lap.delay - lap.toTop)
            && (p.now + lap.work >= keep.nextT ==> reset.nextT == reset.now - lap.toTop == p.now + lap.work + lap.delay)
  {
    assert [lap][..0] == [];
  }

  /** How late the loop is at the top of a cycle. */
  function Lateness(p: Pace): int {
    p.now - p.nextT
  }

  /**
   The schedule that is kept makes up for lost time at full speed: with bodies of equal length and without delays of its
   own, each cycle takes the slack of one period off the lateness, until there is none.
   */
  lemma {:induction false} LatenessShrinks(p: Pace, period: nat, laps: seq<Lap>, work: nat)
    requires p.nextT <= p.now && work <= period
    requires forall i :: 0 <= i < |laps| ==> laps[i] == Lap(work, 0, 0)
    ensures Lateness(KeepSchedule(p, period, laps)) == Later(0, Lateness(p) - |laps| * (period - work))
  {
    if laps == [] {
    } else {
      var n := |laps| - 1;
      LatenessShrinks(p, period, laps[..n], work);
      assert (n + 1) * (period - work) == n * (period - work) + (period - work);
    }
  }

  /** `run / period` rounded up: the number of multiples of the period below `run`. */
  function CeilDiv(run: int, period: nat): nat
    requires period > 0
  {
    if run <= 0 then 0 else (run + period - 1) / period
  }

  lemma {:induction false} CeilDivIs(run: int, period: nat, n: nat)
    requires period > 0
    ensures n < CeilDiv(run, period) <==> n * period < run
  {
    if run > 0 {
      DivisionIs(run + period - 1, period, n + 1);
      assert (n + 1) * period == n * period + period;
    } else {
      TimesMonotone(0, n, period);
    }
  }

  /** At most one cycle per started period fits in a run, whatever the delays, in either kind of loop. */
  lemma {:induction false} CyclesAreBounded(begin: Pace, period: nat, run: int, laps: seq<Lap>, n: nat)
    requires period > 0 && begin.nextT <= begin.now && 0 < n <= |laps|
    requires KeepSchedule(begin, period, laps[..n - 1]).now < begin.nextT + run
          || ResetSchedule(begin, period, laps[..n - 1]).now < begin.nextT + run
    ensures n <= CeilDiv(run, period)
  {
    NeverEarly(begin, period, laps[..n - 1]);
    CeilDivIs(run, period, n - 1);
  }

  /** A cycle that ends within its period and a loop that wakes up on time keep exactly to the schedule. */
  lemma {:induction false} PunctualLaps(p: Pace, period: nat, laps: seq<Lap>)
    requires p.now == p.nextT
    requires forall i :: 0 <= i < |laps| ==> laps[i].work <= period && laps[i].delay == laps[i].toTop == 0
    ensures KeepSchedule(p, period, laps).now == KeepSchedule(p, period, laps).nextT
    ensures ResetSchedule(p, period, laps) == KeepSchedule(p, period, laps)
  {
    if laps == [] {
    } else {
      PunctualLaps(p, period, laps[..|laps| - 1]);
    }
  }

  /** So a punctual run makes just that many cycles: the loop goes on after `n` of them if and only if `n` is less. */
  lemma {:induction false} PunctualRunIsFull(begin: Pace, period: nat, run: int, laps: seq<Lap>, n: nat)
    requires period > 0 && begin.now == begin.nextT && n <= |laps|
    requires forall i :: 0 <= i < |laps| ==> laps[i].work <= period && laps[i].delay == laps[i].toTop == 0
    ensures KeepSchedule(begin, period, laps[..n]).now < begin.nextT + run <==> n < CeilDiv(run, period)
  {
    PunctualLaps(begin, period, laps[..n]);
    NeverEarly(begin, period, laps[..n]);
    CeilDivIs(run, period, n);
  }

  lemma {:induction false} BoundedStarts(begin: Pace, period: nat, endAt: int, laps: seq<Lap>, n: nat)
    requires n <= |laps|
    requires n > 0 ==>
               || KeepSchedule(begin, period, laps[..n - 1]).now < endAt
               || ResetSchedule(begin, period, laps[..n - 1]).now < endAt
    ensures period > 0 && begin.nextT <= begin.now ==> n <= CeilDiv(endAt - begin.nextT, period)
  {
    if period > 0 && begin.nextT <= begin.now && n > 0 {
      CyclesAreBounded(begin, period, endAt - begin.nextT, laps, n);
    }
  }

  /** The C++ radar loops: `starts` are the times of the cycles made before `endAt`. */
  method PublishUntil(begin: Pace, period: nat, endAt: int, laps: seq<Lap>) returns (starts: seq<int>)
    ensures |starts| <= |laps|
    ensures forall k :: 0 <= k < |starts| ==> starts[k] == KeepSchedule(begin, period, laps[..k]).now < endAt
    ensures |starts| < |laps| ==> KeepSchedule(begin, period, laps[..|starts|]).now >= endAt
    ensures period > 0 && begin.nextT <= begin.now ==> |starts| <= CeilDiv(endAt - begin.nextT, period)
  {
    starts := [];
    var now, nextT := begin.now, begin.nextT;
    assert laps[..0] == [];
    while |starts| < |laps| && now < endAt
      invariant |starts| <= |laps|
      invariant Pace(now, nextT) == KeepSchedule(begin, period, laps[..|starts|])
      invariant forall k :: 0 <= k < |starts| ==> starts[k] == KeepSchedule(begin, period, laps[..k]).now < endAt
      decreases |laps| - |starts|
    {
      ScheduleSnoc(begin, period, laps, |starts|);
      var lap := laps[|starts|];
      starts := starts + [now];
      ghost var before := Pace(now, nextT);
      now := now + lap.work;
      nextT := nextT + period;
      if now < nextT {
        now := nextT;
      }
      now := now + lap.delay + lap.toTop;
      assert Pace(now, nextT) == SleepUntil(before, period, lap);
    }
    BoundedStarts(begin, period, endAt, laps, |starts|);
  }

  /** The Zenoh calibration sender. */
  method CalibrateUntil(begin: Pace, period: nat, endAt: int, laps: seq<Lap>) returns (starts: seq<int>)
    ensures |starts| <= |laps|
    ensures forall k :: 0 <= k < |starts| ==> starts[k] == ResetSchedule(begin, period, laps[..k]).now < endAt
    ensures |starts| < |laps| ==> ResetSchedule(begin, period, laps[..|starts|]).now >= endAt
    ensures period > 0 && begin.nextT <= begin.now ==> |starts| <= CeilDiv(endAt - begin.nextT, period)
  {
    starts := [];
    var now, nextT := begin.now, begin.nextT;
    assert laps[..0] == [];
    while |starts| < |laps| && now < endAt
      invariant |starts| <= |laps|
      invariant Pace(now, nextT) == ResetSchedule(begin, period, laps[..|starts|])
      invariant forall k :: 0 <= k < |starts| ==> starts[k] == ResetSchedule(begin, period, laps[..k]).now < endAt
      decreases |laps| - |starts|
    {
      ScheduleSnoc(begin, period, laps, |starts|);
      var lap := laps[|starts|];
      starts := starts + [now];
      ghost var before := Pace(now, nextT);
      now := now + lap.work;
      nextT := nextT + period;
      var sleep := nextT - now;
      if sleep > 0 {
        now := now + sleep + lap.delay;
      } else {
        now := now + lap.delay;
        nextT := now;
      }
      now := now + lap.toTop;
      assert Pace(now, nextT) == SleepOrReset(before, period, lap);
    }
    BoundedStarts(begin, period, endAt, laps, |starts|);
  }
}
