/**
 The asynchronous file logger of the vsomeip processes: callers push lines onto a queue under a mutex, one worker
 moves them to the file in batches, and `stop` raises a flag and waits for the worker. The worker reads the flag under
 the mutex but checks the queue for emptiness again after releasing it, so lines may arrive in between.
 */
module AsyncLogger {
  import opened Common

  /** A line, respectively the contents of the file, as bytes. */
  type Line = string

  const BATCH_LIMIT: nat := 256 * 1024

  function Rendered(line: Line): string {
    line + "\n"
  }

  /** What a list of lines looks like in the file. */
  function Flatten(lines: seq<Line>): string {
    if lines == [] then "" else Rendered(lines[0]) + Flatten(lines[1..])
  }

  lemma {:induction false} FlattenConcat(a: seq<Line>, b: seq<Line>)
    ensures Flatten(a + b) == Flatten(a) + Flatten(b)
  {
    if a == [] {
      assert a + b == b;
    } else {
      FlattenConcat(a[1..], b);
      assert (a + b)[1..] == a[1..] + b;
    }
  }

  // ---------------------------------------------------------------- reading the file again

  /** The lines of a text, after the characters `current` of a line that is not complete yet. */
  function Split(text: string, current: Line): seq<Line> {
    if text == "" then []
    else if text[0] == '\n' then [current] + Split(text[1..], "")
    else Split(text[1..], current + [text[0]])
  }

  /** The lines of a file, each ended by a line feed. */
  function LinesOf(text: string): seq<Line> {
    Split(text, "")
  }

  predicate Plain(lines: seq<Line>) {
    forall i :: 0 <= i < |lines| ==> '\n' !in lines[i]
  }

  lemma {:induction false} SplitAtFeed(line: Line, rest: string, current: Line)
    requires '\n' !in line
    ensures Split(line + "\n" + rest, current) == [current + line] + Split(rest, "")
  {
    var text := line + "\n" + rest;
    if line == "" {
      assert text[1..] == rest && current + line == current;
    } else {
      assert text[1..] == line[1..] + "\n" + rest;
      SplitAtFeed(line[1..], rest, current + [line[0]]);
      assert current + [line[0]] + line[1..] == current + line;
    }
  }

  /** The file determines the lines: none is dropped, altered or merged with another. */
  lemma {:induction false} LinesOfFlatten(lines: seq<Line>)
    requires Plain(lines)
    ensures LinesOf(Flatten(lines)) == lines
  {
    if lines == [] {
    } else {
      SplitAtFeed(lines[0], Flatten(lines[1..]), "");
      assert "" + lines[0] == lines[0];
      LinesOfFlatten(lines[1..]);
    }
  }

  // ---------------------------------------------------------------- one drain

  /** Moves lines from the front of the queue to the batch until the queue is empty or the batch is over its limit. */
  function Drain(queue: seq<Line>, batch: string): (string, seq<Line>)
    decreases |queue|
  {
    if queue == [] then (batch, queue)
    else
      var batch' := batch + Rendered(queue[0]);
      if |batch'| > BATCH_LIMIT then (batch', queue[1..]) else Drain(queue[1..], batch')
  }

  lemma {:induction false} FlattenTake(queue: seq<Line>, batch: string, j: nat)
    requires 0 < j <= |queue|
    ensures batch + Flatten(queue[..j]) == batch + Rendered(queue[0]) + Flatten(queue[1..][..j - 1])
  {
    assert queue[..j][1..] == queue[1..][..j - 1];
  }

  /**
   A drain takes the shortest prefix of the queue that puts the batch over its limit, or everything; in particular it
   takes at least one line if there is one, and overshoots by less than the last line it took.
   */
  lemma {:induction false} DrainTakes(queue: seq<Line>, batch: string) returns (k: nat)
    ensures k <= |queue| && (queue != [] ==> k > 0)
    ensures Drain(queue, batch) == (batch + Flatten(queue[..k]), queue[k..])
    ensures k < |queue| ==> |batch + Flatten(queue[..k])| > 262144
    ensures forall j :: 0 < j < k ==> |batch + Flatten(queue[..j])| <= 262144
    decreases |queue|
  {
    if queue == [] {
      k := 0;
      assert batch + Flatten(queue[..0]) == batch;
    } else {
      var batch' := batch + Rendered(queue[0]);
      if |batch'| > BATCH_LIMIT {
        k := 1;
        FlattenTake(queue, batch, 1);
        assert batch' + Flatten(queue[1..][..0]) == batch';
      } else {
        var k1 := DrainTakes(queue[1..], batch');
        k := k1 + 1;
        FlattenTake(queue, batch, k);
        assert queue[1..][k1..] == queue[k..];
        forall j | 0 < j < k ensures |batch + Flatten(queue[..j])| <= BATCH_LIMIT {
          FlattenTake(queue, batch, j);
        }
      }
    }
  }

  // ---------------------------------------------------------------- all interleavings

  /** Where the worker is: about to lock, holding a batch, about to check whether to leave, or gone. */
  datatype WorkerPc = Waiting | Holding | Checking | Exited

  /**
   `entering` are the lines of callers that have found the file open but have not taken the mutex yet. `accepted` and
   `atDone` are history: every line ever pushed, and how many there were when the flag was raised.
   */
  datatype Logger = Logger(entering: seq<Line>, queue: seq<Line>, batch: string, file: string, open: bool,
                           done: bool, sawDone: bool, pc: WorkerPc, accepted: seq<Line>, atDone: nat)

  const START := Logger([], [], "", "", true, false, false, Waiting, [], 0)

  /** The two steps of `log`, the exchange in `stop`, the worker's three steps, and closing the file after the join. */
  datatype Action = Enter(line: Line) | Push(i: nat) | RaiseDone | DrainQueue | WriteBatch | Check | Close

  predicate Enabled(s: Logger, a: Action) {
    match a
    case Enter(_) => s.open
    case Push(i) => i < |s.entering|
    case RaiseDone => !s.done
    case DrainQueue => s.pc == Waiting
    case WriteBatch => s.pc == Holding
    case Check => s.pc == Checking
    case Close => s.open && s.pc == Exited
  }

  function Perform(s: Logger, a: Action): Logger
    requires Enabled(s, a)
  {
    match a
    case Enter(line) => s.(entering := s.entering + [line])
    case Push(i) =>
      s.(entering := s.entering[..i] + s.entering[i + 1..],
         queue := s.queue + [s.entering[i]], accepted := s.accepted + [s.entering[i]])
    case RaiseDone => s.(done := true, atDone := |s.accepted|)
    case DrainQueue =>
      var (batch, queue) := Drain(s.queue, s.batch);
      s.(batch := batch, queue := queue, sawDone := s.done, pc := Holding)
    case WriteBatch => s.(file := s.file + s.batch, batch := "", pc := Checking)
    case Check => s.(pc := if s.sawDone && s.queue == [] then Exited else Waiting)
    case Close => s.(open := false)
  }

  function Next(s: Logger, a: Action): Logger {
    if Enabled(s, a) then Perform(s, a) else s
  }

  /** Any interleaving is a list of actions; one that is not enabled when its turn comes does nothing. */
  function Execute(schedule: seq<Action>): Logger {
    if schedule == [] then START
    else Next(Execute(schedule[..|schedule| - 1]), schedule[|schedule| - 1])
  }

  /** Nothing is lost, duplicated or reordered between the callers and the file. */
  ghost predicate Conserves(s: Logger) {
    Flatten(s.accepted) == s.file + s.batch + Flatten(s.queue)
  }

  /** The queue is the tail of what was pushed, the rest has left it. */
  ghost predicate Shape(s: Logger) {
    && |s.queue| <= |s.accepted|
    && s.queue == s.accepted[|s.accepted| - |s.queue|..]
    && (s.pc != Holding ==> s.batch == "")
    && (s.sawDone ==> s.done)
    && (s.done ==> s.atDone <= |s.accepted|)
    && (!s.open ==> s.pc == Exited)
    && (s.pc == Exited ==> s.done && s.atDone <= |s.accepted| - |s.queue|)
  }

  lemma {:induction false} PushConserves(s: Logger, i: nat)
    requires Conserves(s) && Enabled(s, Push(i))
    ensures Conserves(Perform(s, Push(i)))
  {
    FlattenConcat(s.accepted, [s.entering[i]]);
    FlattenConcat(s.queue, [s.entering[i]]);
  }

  lemma {:induction false} DrainConserves(queue: seq<Line>, batch: string)
    ensures batch + Flatten(queue) == Drain(queue, batch).0 + Flatten(Drain(queue, batch).1)
  {
    var k := DrainTakes(queue, batch);
    FlattenConcat(queue[..k], queue[k..]);
    assert queue[..k] + queue[k..] == queue;
  }

  lemma {:induction false} NextConserves(s: Logger, a: Action)
    requires Conserves(s) && Shape(s)
    ensures Conserves(Next(s, a))
  {
    if Enabled(s, a) {
      match a
      case Push(i) => PushConserves(s, i);
      case DrainQueue =>
        DrainConserves(s.queue, s.batch);
        var (batch', queue') := Drain(s.queue, s.batch);
        Regroup(s.file, s.batch, Flatten(s.queue), batch', Flatten(queue'));
      case WriteBatch => assert s.file + s.batch + "" == s.file + s.batch;
      case _ =>
    }
  }

  lemma {:induction false} Regroup(file: string, batch: string, queue: string, batch': string, queue': string)
    requires batch + queue == batch' + queue'
    ensures file + batch + queue == file + batch' + queue'
  {
    assert file + batch + queue == file + (batch + queue);
    assert file + batch' + queue' == file + (batch' + queue');
  }

  lemma {:induction false} NextKeepsShape(s: Logger, a: Action)
    requires Shape(s)
    ensures Shape(Next(s, a))
  {
    if Enabled(s, a) && a.DrainQueue? {
      var k := DrainTakes(s.queue, s.batch);
    }
  }

  lemma {:induction false} ExecuteKeeps(schedule: seq<Action>)
    ensures Conserves(Execute(schedule)) && Shape(Execute(schedule))
  {
    if schedule == [] {
    } else {
      var before := Execute(schedule[..|schedule| - 1]);
      ExecuteKeeps(schedule[..|schedule| - 1]);
      NextConserves(before, schedule[|schedule| - 1]);
      NextKeepsShape(before, schedule[|schedule| - 1]);
    }
  }

  /**
   In every interleaving the file, the batch and the queue hold the pushed lines in push order; unless a batch is being
   held the file holds exactly the lines that have left the queue, and once the worker is gone these include all that
   were pushed before the flag was raised.
   */
  lemma {:induction false} LosslessAndOrdered(schedule: seq<Action>)
    ensures var s := Execute(schedule);
            && Flatten(s.accepted) == s.file + s.batch + Flatten(s.queue)
            && (s.pc != Holding ==> FileHolds(s, |s.accepted| - |s.queue|))
            && (s.pc == Exited ==> s.atDone <= |s.accepted| - |s.queue|)
  {
    var s := Execute(schedule);
    ExecuteKeeps(schedule);
    if s.pc != Holding {
      var n := |s.accepted| - |s.queue|;
      FlattenConcat(s.accepted[..n], s.accepted[n..]);
      assert s.accepted[..n] + s.accepted[n..] == s.accepted;
      assert s.file + "" == s.file;
      SameTail(s.file, Flatten(s.accepted[..n]), Flatten(s.queue));
      if Plain(s.accepted[..n]) {
        LinesOfFlatten(s.accepted[..n]);
      }
    }
  }

  /** The file consists of the first `n` lines pushed; without line feeds in them, its lines are just these. */
  predicate FileHolds(s: Logger, n: int) {
    && 0 <= n <= |s.accepted| && s.file == Flatten(s.accepted[..n])
    && (Plain(s.accepted[..n]) ==> LinesOf(s.file) == s.accepted[..n])
  }

  lemma {:induction false} SameTail(a: string, b: string, tail: string)
    requires a + tail == b + tail
    ensures a == b
  {
    assert |a| == |b|;
    assert a == (a + tail)[..|a|] && b == (b + tail)[..|b|];
  }

  lemma {:induction false} ExecuteSnoc(schedule: seq<Action>, a: Action)
    ensures Execute(schedule + [a]) == Next(Execute(schedule), a)
  {
    assert (schedule + [a])[..|schedule|] == schedule;
  }

  /** The worker leaves only in a round that saw the flag: while it is down, and without a drain since, it stays. */
  lemma {:induction false} LeavesAfterSeeingFlag(before: seq<Action>, more: seq<Action>)
    requires !Execute(before).done && DrainQueue !in more
    ensures Execute(before + more).pc != Exited
  {
    ExecuteKeeps(before);
    StaysWithoutDrain(before, more);
  }

  lemma {:induction false} StaysWithoutDrain(before: seq<Action>, more: seq<Action>)
    requires !Execute(before).sawDone && Execute(before).pc != Exited && DrainQueue !in more
    ensures !Execute(before + more).sawDone && Execute(before + more).pc != Exited
  {
    if more == [] {
      assert before + more == before;
    } else {
      var n := |more| - 1;
      StaysWithoutDrain(before, more[..n]);
      assert before + more == before + more[..n] + [more[n]];
      ExecuteSnoc(before + more[..n], more[n]);
    }
  }

  /** How many of the accepted lines have left the queue; once the worker is gone these are the lines in the file. */
  function LeftQueue(s: Logger): int {
    |s.accepted| - |s.queue|
  }

  /** Once the worker is gone the file never changes again, and no line leaves the queue any more. */
  lemma {:induction false} ExitIsFinal(schedule: seq<Action>, more: seq<Action>)
    requires Execute(schedule).pc == Exited
    ensures Execute(schedule + more).pc == Exited && Execute(schedule + more).file == Execute(schedule).file
    ensures LeftQueue(Execute(schedule + more)) == LeftQueue(Execute(schedule))
  {
    if more == [] {
      assert schedule + more == schedule;
    } else {
      var n := |more| - 1;
      ExitIsFinal(schedule, more[..n]);
      assert (schedule + more)[..|schedule| + n] == schedule + more[..n];
    }
  }

  /** What was accepted stays accepted. */
  lemma {:induction false} AcceptedGrows(schedule: seq<Action>, more: seq<Action>)
    ensures Execute(schedule).accepted <= Execute(schedule + more).accepted
  {
    if more == [] {
      assert schedule + more == schedule;
    } else {
      var n := |more| - 1;
      AcceptedGrows(schedule, more[..n]);
      assert (schedule + more)[..|schedule| + n] == schedule + more[..n];
    }
  }

  lemma {:induction false} NextTakes(s: Logger, a: Action, n: nat)
    requires n <= |s.accepted| && (s.pc == Exited ==> n <= LeftQueue(s))
    ensures n <= |Next(s, a).accepted| && (Next(s, a).pc == Exited ==> n <= LeftQueue(Next(s, a)))
  {
  }

  /** The worker leaves only after all that was accepted before has left the queue. */
  lemma {:induction false} ExitTakesAccepted(schedule: seq<Action>, more: seq<Action>)
    requires Execute(schedule).pc != Exited
    ensures Execute(schedule + more).pc == Exited ==>
              |Execute(schedule).accepted| <= LeftQueue(Execute(schedule + more))
  {
    if more == [] {
      assert schedule + more == schedule;
    } else {
      var n := |more| - 1;
      ExitTakesAccepted(schedule, more[..n]);
      AcceptedGrows(schedule, more[..n]);
      assert schedule + more == schedule + more[..n] + [more[n]];
      ExecuteSnoc(schedule + more[..n], more[n]);
      NextTakes(Execute(schedule + more[..n]), more[n], |Execute(schedule).accepted|);
    }
  }

  /**
   Exactly which lines are written: in a run in which the worker comes to its end, a line that is pushed at some moment
   is among those in the file if and only if the worker had not taken its last look at the queue by then.
   */
  lemma {:induction false} WrittenExactly(before: seq<Action>, i: nat, after: seq<Action>)
    requires Enabled(Execute(before), Push(i))
    requires Execute(before + [Push(i)] + after).pc == Exited
    ensures var s, s' := Execute(before), Execute(before + [Push(i)] + after);
            && |s.accepted| < |s'.accepted| && s'.accepted[|s.accepted|] == s.entering[i]
            && FileHolds(s', LeftQueue(s'))
            && (|s.accepted| < LeftQueue(s') <==> s.pc != Exited)
  {
    var pushed := before + [Push(i)];
    ExecuteSnoc(before, Push(i));
    AcceptedGrows(pushed, after);
    LosslessAndOrdered(pushed + after);
    ExecuteKeeps(before);
    if Execute(before).pc == Exited {
      ExitIsFinal(pushed, after);
    } else {
      ExitTakesAccepted(pushed, after);
    }
  }

  /** A line can be lost in this way: its caller found the file open, and `stop` closes it afterwards. */
  lemma {:induction false} LateLineIsLost(line: Line)
    ensures exists before :: Execute(before).pc == Exited && Execute(before).entering == [line]
    ensures var s := Execute([] + [Enter(line)] + [RaiseDone] + [DrainQueue] + [WriteBatch] + [Check] + [Close]
                             + [Push(0)]);
            s.accepted == [line] && !s.open && s.file == ""
  {
    var before := [] + [Enter(line)] + [RaiseDone] + [DrainQueue] + [WriteBatch] + [Check];
    ExecuteSnoc([], Enter(line));
    ExecuteSnoc([] + [Enter(line)], RaiseDone);
    ExecuteSnoc([] + [Enter(line)] + [RaiseDone], DrainQueue);
    ExecuteSnoc([] + [Enter(line)] + [RaiseDone] + [DrainQueue], WriteBatch);
    ExecuteSnoc([] + [Enter(line)] + [RaiseDone] + [DrainQueue] + [WriteBatch], Check);
    assert Execute(before).pc == Exited && Execute(before).entering == [line];
    ExecuteSnoc(before, Close);
    ExecuteSnoc(before + [Close], Push(0));
  }

  /** `log` does not look at the flag: a line that comes after `stop` has raised it may still be written. */
  lemma {:induction false} LineAfterStopIsWritten(line: Line)
    ensures var s := Execute([] + [RaiseDone] + [Enter(line)] + [Push(0)] + [DrainQueue] + [WriteBatch] + [Check]);
            s.pc == Exited && s.accepted == [line] && s.atDone == 0 && s.file == line + "\n"
  {
    ExecuteSnoc([], RaiseDone);
    ExecuteSnoc([] + [RaiseDone], Enter(line));
    ExecuteSnoc([] + [RaiseDone] + [Enter(line)], Push(0));
    ExecuteSnoc([] + [RaiseDone] + [Enter(line)] + [Push(0)], DrainQueue);
    ExecuteSnoc([] + [RaiseDone] + [Enter(line)] + [Push(0)] + [DrainQueue], WriteBatch);
    ExecuteSnoc([] + [RaiseDone] + [Enter(line)] + [Push(0)] + [DrainQueue] + [WriteBatch], Check);
    assert Drain([line], "") == (line + "\n", []) by {
      assert "" + Rendered(line) == line + "\n" && [line][1..] == [];
    }
  }

  // ---------------------------------------------------------------- the logger object

  /** The batch of one round, as lines. */
  lemma {:induction false} BatchIs(queue: seq<Line>, batch: string, queue': seq<Line>) returns (taken: seq<Line>)
    requires (batch, queue') == Drain(queue, "")
    ensures batch == Flatten(taken) && queue == taken + queue'
    ensures queue != [] ==> taken != []
    ensures Plain(queue) ==> LinesOf(batch) == taken
  {
    var k := DrainTakes(queue, "");
    taken := queue[..k];
    assert "" + Flatten(taken) == Flatten(taken);
    if Plain(queue) {
      LinesOfFlatten(taken);
    }
  }

  /** One round: what was taken follows what is in the file, what comes late follows what is left. */
  lemma {:induction false} RoundMoves(written: seq<Line>, queue: seq<Line>, taken: seq<Line>, rest: seq<Line>,
                                      late: seq<Line>)
    requires queue == taken + rest
    ensures written + queue + late == written + taken + (rest + late)
    ensures Flatten(written + taken) == Flatten(written) + Flatten(taken)
  {
    FlattenConcat(written, taken);
  }

  /** The logger between the worker's rounds, when no batch is being held. */
  class AsyncFileLogger {
    var queue: seq<Line>
    var file: string
    var open: bool
    var done: bool
    ghost var accepted: seq<Line>
    ghost var written: seq<Line>

    ghost predicate Valid()
      reads this
    {
      accepted == written + queue && file == Flatten(written)
    }

    constructor ()
      ensures Valid() && accepted == [] && open && !done
    {
      queue, file, open, done, accepted, written := [], "", true, false, [], [];
    }

    /** The file's lines and the queue are what was accepted. */
    lemma {:induction false} NothingIsLost()
      requires Valid() && Plain(accepted)
      ensures accepted == LinesOf(file) + queue
    {
      assert forall i :: 0 <= i < |written| ==> accepted[i] == written[i];
      LinesOfFlatten(written);
    }

    method Log(line: Line)
      requires Valid()
      modifies `queue, `accepted
      ensures Valid()
      ensures accepted == if open then old(accepted) + [line] else old(accepted)
      ensures queue == if open then old(queue) + [line] else old(queue)
    {
      if !open {
        return;
      }
      queue := queue + [line];
      accepted := accepted + [line];
    }

    /** The worker's critical section. */
    method TakeBatch() returns (batch: string, isDone: bool)
      modifies `queue
      ensures (batch, queue) == Drain(old(queue), "")
      ensures Plain(old(queue)) ==> old(queue) == LinesOf(batch) + queue
      ensures isDone == done
    {
      batch := "";
      while queue != []
        invariant Drain(queue, batch) == Drain(old(queue), "")
        decreases |queue|
      {
        assert batch + Rendered(queue[0]) == batch + queue[0] + "\n";
        batch := batch + queue[0] + "\n";
        queue := queue[1..];
        if |batch| > BATCH_LIMIT {
          break;
        }
      }
      isDone := done;
      ghost var taken := BatchIs(old(queue), batch, queue);
    }

    /** One round of the worker; `late` are the lines pushed between its critical section and its check. */
    method WorkerRound(late: seq<Line>) returns (leave: bool)
      requires Valid()
      modifies `queue, `file, `accepted, `written
      ensures Valid() && accepted == old(accepted) + late && old(written) <= written
      ensures leave <==> done && queue == []
      ensures |queue| < |old(queue)| + |late| || queue == late
    {
      var batch, isDone := TakeBatch();
      ghost var taken := BatchIs(old(queue), batch, queue);
      RoundMoves(written, old(queue), taken, queue, late);
      assert file + "" == file;
      if batch != "" {
        file := file + batch;
      }
      written := written + taken;
      queue, accepted := queue + late, accepted + late;
      leave := isDone && queue == [];
    }

    /**
     Raises the flag, lets the worker finish and closes the file. `late` are the lines that other threads push in the
     meantime, round by round; the worker may be gone before the last of them. Every line pushed until then is in the
     file.
     */
    method Stop(late: seq<seq<Line>>) returns (rounds: nat)
      requires Valid()
      modifies this
      ensures Valid() && done
      ensures old(done) ==> accepted == old(accepted) && rounds == 0
      ensures !old(done) ==> !open && queue == [] && file == Flatten(accepted)
      ensures !old(done) && Plain(accepted) ==> LinesOf(file) == accepted
      ensures accepted == old(accepted) + PushedIn(late, rounds)
    {
      rounds := 0;
      assert accepted + [] == accepted;
      if done {
        return;
      }
      done := true;
      var leave := false;
      while !leave
        invariant Valid() && done
        invariant accepted == old(accepted) + PushedIn(late, rounds)
        invariant leave ==> queue == []
        decreases !leave, if rounds <= |late| then |late| - rounds + 1 else 0, |queue|
      {
        var now := if rounds < |late| then late[rounds] else [];
        OneMoreRound(old(accepted), late, rounds);
        leave := WorkerRound(now);
        rounds := rounds + 1;
      }
      assert accepted == written;
      if Plain(accepted) {
        LinesOfFlatten(accepted);
      }
      open := false;
    }
  }

  lemma {:induction false} OneMoreRound(accepted: seq<Line>, late: seq<seq<Line>>, rounds: nat)
    ensures accepted + PushedIn(late, rounds) + (if rounds < |late| then late[rounds] else [])
         == accepted + PushedIn(late, rounds + 1)
  {
  }

  /** The lines pushed in the first rounds, in order. */
  function PushedIn(late: seq<seq<Line>>, rounds: nat): seq<Line> {
    if rounds == 0 then []
    else PushedIn(late, rounds - 1) + if rounds - 1 < |late| then late[rounds - 1] else []
  }
}
