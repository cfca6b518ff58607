/**
 What "three consecutive violations" means over a whole trace: a maximal run of bad messages of length n stands for
 n / 3 faults, and the run that is still going on has n % 3 towards the next one.
 */
module FaultRuns {

  /** The monitors' constant; what it means is said below with the number itself. */
  const CONSEC_FAULT: nat := 3

  /** The length of the run of bad messages a trace starts with, respectively ends with. */
  function LeadingRun(bad: seq<bool>): (n: nat)
    ensures n <= |bad|
  {
    if bad == [] || !bad[0] then 0 else 1 + LeadingRun(bad[1..])
  }

  function TrailingRun(bad: seq<bool>): (n: nat)
    ensures n <= |bad|
  {
    if bad == [] || !bad[|bad| - 1] then 0 else 1 + TrailingRun(bad[..|bad| - 1])
  }

  /** The sum of length / 3 over the maximal runs, from left to right. */
  function FaultsOfRuns(bad: seq<bool>): nat
    decreases |bad|
  {
    if bad == [] then 0
    else if !bad[0] then FaultsOfRuns(bad[1..])
    else LeadingRun(bad) / 3 + FaultsOfRuns(bad[LeadingRun(bad)..])
  }

  predicate AllBad(bad: seq<bool>) {
    forall i :: 0 <= i < |bad| ==> bad[i]
  }

  /** The leading run is a maximal run of bad messages. */
  lemma {:induction false} LeadingRunIs(bad: seq<bool>, n: nat)
    requires n <= |bad|
    ensures LeadingRun(bad) == n <==> AllBad(bad[..n]) && (n < |bad| ==> !bad[n])
  {
    if bad != [] && bad[0] {
      if n > 0 {
        LeadingRunIs(bad[1..], n - 1);
        assert bad[..n] == [bad[0]] + bad[1..][..n - 1];
        assert n < |bad| ==> bad[1..][n - 1] == bad[n];
      }
    } else if n > 0 {
      assert !bad[..n][0];
    }
  }

  /** So is the trailing one. */
  lemma {:induction false} TrailingRunIs(bad: seq<bool>, n: nat)
    requires n <= |bad|
    ensures TrailingRun(bad) == n <==> AllBad(bad[|bad| - n..]) && (n < |bad| ==> !bad[|bad| - n - 1])
  {
    var l := |bad| - 1;
    if bad != [] && bad[l] {
      if n > 0 {
        TrailingRunIs(bad[..l], n - 1);
        assert bad[|bad| - n..] == bad[..l][l - (n - 1)..] + [bad[l]];
      }
    } else if n > 0 {
      assert !bad[|bad| - n..][n - 1];
    }
  }

  /** What one more message does to the run that is going on. */
  lemma {:induction false} TrailingRunSnoc(bad: seq<bool>, b: bool)
    ensures TrailingRun(bad + [b]) == if b then TrailingRun(bad) + 1 else 0
  {
    assert (bad + [b])[..|bad|] == bad;
  }

  lemma {:induction false} OneRun(bad: seq<bool>)
    requires AllBad(bad)
    ensures FaultsOfRuns(bad) == |bad| / 3 && TrailingRun(bad) == |bad|
  {
    LeadingRunIs(bad, |bad|);
    TrailingRunIs(bad, |bad|);
    assert bad[..|bad|] == bad && bad[|bad| - |bad|..] == bad && bad[|bad|..] == [];
  }

  lemma {:induction false} OneRunSnoc(bad: seq<bool>, b: bool)
    requires AllBad(bad)
    ensures FaultsOfRuns(bad + [b])
         == FaultsOfRuns(bad) + if b && (TrailingRun(bad) + 1) % 3 == 0 then 1 else 0
  {
    OneRun(bad);
    var bad' := bad + [b];
    if b {
      OneRun(bad');
    } else {
      LeadingRunIs(bad', |bad|);
      assert bad'[..|bad|] == bad;
      assert bad'[|bad|..] == [false] && [false][1..] == [];
      assert bad == [] ==> bad' == [false];
    }
  }

  /** Dropping what comes before a good message drops its runs. */
  lemma {:induction false} AfterFirstRun(bad: seq<bool>, n: nat)
    requires n < |bad| && AllBad(bad[..n]) && !bad[n]
    ensures FaultsOfRuns(bad) == n / 3 + FaultsOfRuns(bad[n + 1..])
  {
    LeadingRunIs(bad, n);
    assert bad[n..][1..] == bad[n + 1..];
    assert n == 0 ==> bad[n..] == bad;
  }

  lemma {:induction false} TrailingAfter(bad: seq<bool>, n: nat)
    requires n < |bad| && !bad[n]
    ensures TrailingRun(bad) == TrailingRun(bad[n + 1..])
  {
    var l := |bad| - 1;
    if n < l && bad[l] {
      TrailingAfter(bad[..l], n);
      assert bad[..l][n + 1..] == bad[n + 1..][..l - n - 1];
    }
  }

  /** A good message adds no fault; a bad one adds a fault exactly when it brings its run to a multiple of three. */
  lemma {:induction false} FaultsOfRunsSnoc(bad: seq<bool>, b: bool)
    ensures FaultsOfRuns(bad + [b])
         == FaultsOfRuns(bad) + if b && (TrailingRun(bad) + 1) % 3 == 0 then 1 else 0
    decreases |bad|
  {
    if AllBad(bad) {
      OneRunSnoc(bad, b);
    } else {
      var n := LeadingRun(bad);
      LeadingRunIs(bad, n);
      assert n < |bad| by {
        assert bad[..|bad|] == bad;
      }
      assert (bad + [b])[..n] == bad[..n];
      assert (bad + [b])[n + 1..] == bad[n + 1..] + [b];
      AfterFirstRun(bad, n);
      AfterFirstRun(bad + [b], n);
      TrailingAfter(bad, n);
      FaultsOfRunsSnoc(bad[n + 1..], b);
    }
  }

  /** A streak that is reset at three counts its run modulo three. */
  lemma {:induction false} GroupOfThree(n: nat)
    ensures (n + 1) % 3 == if n % 3 + 1 == 3 then 0 else n % 3 + 1
  {
  }

  /** The positions of the messages that complete a group of three within their run. */
  function FaultIndices(bad: seq<bool>): (at: seq<nat>)
    ensures forall k :: 0 <= k < |at| ==> at[k] < |bad|
  {
    if bad == [] then []
    else
      var rest := bad[..|bad| - 1];
      FaultIndices(rest) + if CompletesGroup(bad) then [|rest|] else []
  }

  predicate CompletesGroup(bad: seq<bool>) {
    TrailingRun(bad) > 0 && TrailingRun(bad) % 3 == 0
  }

  lemma {:induction false} FaultIndicesSnoc(bad: seq<bool>, b: bool)
    ensures FaultIndices(bad + [b])
         == FaultIndices(bad) + if b && (TrailingRun(bad) + 1) % 3 == 0 then [|bad|] else []
  {
    assert (bad + [b])[..|bad|] == bad;
    TrailingRunSnoc(bad, b);
  }

  /** There are as many such positions as there are faults. */
  lemma {:induction false} FaultIndicesCount(bad: seq<bool>)
    ensures |FaultIndices(bad)| == FaultsOfRuns(bad)
  {
    if bad == [] {
    } else {
      var n := |bad| - 1;
      assert bad == bad[..n] + [bad[n]];
      FaultIndicesCount(bad[..n]);
      FaultsOfRunsSnoc(bad[..n], bad[n]);
      FaultIndicesSnoc(bad[..n], bad[n]);
    }
  }

  lemma {:induction false} FaultIndicesIncrease(bad: seq<bool>, k: nat, l: nat)
    requires k < l < |FaultIndices(bad)|
    ensures FaultIndices(bad)[k] < FaultIndices(bad)[l]
  {
    var rest := FaultIndices(bad[..|bad| - 1]);
    if l < |rest| {
      FaultIndicesIncrease(bad[..|bad| - 1], k, l);
    }
  }

  /** They are exactly the positions where a group of three is completed. */
  lemma {:induction false} FaultIndicesAre(bad: seq<bool>, i: nat)
    requires i < |bad|
    ensures i in FaultIndices(bad) <==> CompletesGroup(bad[..i + 1])
  {
    var n := |bad| - 1;
    var rest := bad[..n];
    if i < n {
      assert rest[..i + 1] == bad[..i + 1];
      FaultIndicesAre(rest, i);
    } else {
      assert bad[..n + 1] == bad;
    }
  }

  // ----- Items and streaks -----

  /** Which of a list of items are bad. */
  function BitsOf<T>(items: seq<T>, bad: T -> bool): (bits: seq<bool>)
    ensures |bits| == |items|
    ensures forall i :: 0 <= i < |items| ==> bits[i] == bad(items[i])
  {
    seq(|items|, i requires 0 <= i < |items| => bad(items[i]))
  }

  lemma {:induction false} BitsOfSnoc<T>(items: seq<T>, item: T, bad: T -> bool)
    ensures BitsOf(items + [item], bad) == BitsOf(items, bad) + [bad(item)]
  {
  }

  /** What one more message does to the runs, in terms of a streak that is reset at three. */
  lemma {:induction false} StreakSnoc(bad: seq<bool>, b: bool, streak: nat)
    requires streak == TrailingRun(bad) % 3
    ensures var completes := b && streak + 1 == 3;
            && FaultsOfRuns(bad + [b]) == FaultsOfRuns(bad) + (if completes then 1 else 0)
            && TrailingRun(bad + [b]) % 3 == (if b && !completes then streak + 1 else 0)
            && (CompletesGroup(bad + [b]) <==> completes)
            && FaultIndices(bad + [b]) == if completes then FaultIndices(bad) + [|bad|] else FaultIndices(bad)
  {
    TrailingRunSnoc(bad, b);
    FaultsOfRunsSnoc(bad, b);
    FaultIndicesSnoc(bad, b);
    GroupOfThree(TrailingRun(bad));
  }
}
