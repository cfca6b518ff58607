/** How the verdicts of the vsomeip and the Zenoh monitors compare on the same trace. */
module MonitorAgreement {
  import opened Common
  import opened FaultRuns
  import opened Streams
  import Clock
  import V = VsomeipMonitor
  import Z = ZenohMonitor

  /** Receive times do not decrease and no message is stamped after it was received. */
  ghost predicate ClockIsSane(stream: Stream, tr: seq<Msg>) {
    && (forall j, k :: 0 <= j <= k < |tr| ==> tr[j].rx <= tr[k].rx)
    && (forall j :: 0 <= j < |tr| ==> tr[j].rx < TWO_63 - stream.Bounds().periodMs)
    && (forall j :: 0 <= j < |tr| && tr[j].Decoded? ==> tr[j].tsSrc <= tr[j].rx)
  }

  predicate SameVerdict(v: V.Sample, z: Z.Sample) {
    && v.rx == z.rx
    && match z.status
       case DecodeError => v.status == V.DecodeError
       case Ok => v.status == V.Ok && Agree(v, z) && z.jitter == Some(v.jitter as int)
       case Violation => v.status == V.Violation && Agree(v, z) && z.jitter == Some(v.jitter as int)
       case OkPrime => v.status == V.Primed && Agree(v, z)
       case ViolationPrime => v.status == V.Primed && Agree(v, z)
  }

  predicate Agree(v: V.Sample, z: Z.Sample) {
    z.seqNo == Some(v.seqNo) && z.tsSrc == Some(v.tsSrc) && z.e2e == Some(v.e2e)
  }

  lemma {:induction false} VerdictsAgreeAt(stream: Stream, tr: seq<Msg>, j: nat)
    requires ClockIsSane(stream, tr) && j < |tr|
    ensures SameVerdict(V.SampleAt(stream, tr, j), Z.SampleAt(stream, tr, j))
  {
    if tr[j].Decoded? {
      assert Clock.E2e64(tr[j].rx, tr[j].tsSrc) == tr[j].rx - tr[j].tsSrc;
      V.LastRxBelow(tr[..j], tr[j].rx + 1);
      if LastRx(tr[..j]).Some? {
        V.JitterExact(stream.Bounds().periodMs, tr[j].rx, LastRx(tr[..j]).value);
      }
    }
  }

  ghost predicate SameVerdicts(vs: seq<V.Sample>, zs: seq<Z.Sample>) {
    |vs| == |zs| && forall j :: 0 <= j < |vs| ==> SameVerdict(vs[j], zs[j])
  }

  lemma {:induction false} CountsAgree(vs: seq<V.Sample>, zs: seq<Z.Sample>)
    requires SameVerdicts(vs, zs)
    ensures V.Count(vs, V.Ok) == Z.Count(zs, Z.Ok)
    ensures V.Count(vs, V.Violation) == Z.Count(zs, Z.Violation)
    ensures V.Count(vs, V.DecodeError) == Z.Count(zs, Z.DecodeError)
  {
    if vs == [] {
    } else {
      CountsAgree(vs[..|vs| - 1], zs[..|zs| - 1]);
    }
  }

  lemma {:induction false} CountIsPositive(zs: seq<Z.Sample>, status: Z.Status)
    ensures Z.Count(zs, status) > 0 <==> exists j :: 0 <= j < |zs| && zs[j].status == status
  {
    if zs == [] {
    } else {
      var n := |zs| - 1;
      CountIsPositive(zs[..n], status);
      if j :| 0 <= j < |zs| && zs[j].status == status && j < n {
        assert zs[..n][j].status == status;
      }
    }
  }

  /** Whether the message that primes the radar is already late. */
  ghost predicate PrimesLate(stream: Stream, tr: seq<Msg>) {
    exists j :: 0 <= j < |tr| && Z.SampleAt(stream, tr, j).status == Z.ViolationPrime
  }

  lemma {:induction false} PrimesLateIffCounted(stream: Stream, tr: seq<Msg>)
    ensures PrimesLate(stream, tr) <==> Z.Count(Z.Run(stream, tr).samples, Z.ViolationPrime) > 0
  {
    var zs := Z.Run(stream, tr).samples;
    Z.SamplesAreVerdicts(stream, tr);
    CountIsPositive(zs, Z.ViolationPrime);
    if j :| 0 <= j < |zs| && zs[j].status == Z.ViolationPrime {
      assert Z.SampleAt(stream, tr, j).status == Z.ViolationPrime;
    }
    if j :| 0 <= j < |tr| && Z.SampleAt(stream, tr, j).status == Z.ViolationPrime {
      assert zs[j].status == Z.ViolationPrime;
    }
  }

  /** With a sane clock both implementations give every message the same verdict, with the same figures. */
  lemma {:induction false} VerdictsAgree(stream: Stream, tr: seq<Msg>)
    requires ClockIsSane(stream, tr)
    ensures SameVerdicts(V.Run(stream, tr).samples, Z.Run(stream, tr).samples)
  {
    V.SamplesAreVerdicts(stream, tr);
    Z.SamplesAreVerdicts(stream, tr);
    forall j | 0 <= j < |tr|
      ensures SameVerdict(V.Run(stream, tr).samples[j], Z.Run(stream, tr).samples[j])
    {
      VerdictsAgreeAt(stream, tr, j);
    }
  }

  lemma {:induction false} SameBits(vs: seq<V.Sample>, zs: seq<Z.Sample>)
    requires SameVerdicts(vs, zs)
    ensures BitsOf(vs, V.IsBad) == BitsOf(zs, Z.IsBad)
  {
    forall j | 0 <= j < |vs| ensures V.IsBad(vs[j]) == Z.IsBad(zs[j]) {
      assert SameVerdict(vs[j], zs[j]);
    }
  }

  lemma {:induction false} FaultsAgree(stream: Stream, v: V.Record, z: Z.Record)
    requires SameVerdicts(v.samples, z.samples)
    requires V.Accounted(v) && V.FaultsExplained(stream, v)
    requires Z.Accounted(z) && Z.FaultsExplained(stream, z)
    ensures !stream.HB? ==> v.state.streak == z.state.streak
    ensures z.agg.faults == v.agg.faults + Z.Count(z.samples, Z.ViolationPrime)
                            + if stream.HB? then v.agg.decodeErr else 0
  {
    if stream.HB? {
      CountsAgree(v.samples, z.samples);
    } else {
      SameBits(v.samples, z.samples);
    }
  }

  /**
   The two then differ in exactly this: Zenoh counts a late priming message as a fault of its own and, for heartbeats,
   every undecodable message too.
   */
  lemma {:induction false} MonitorsAgree(stream: Stream, tr: seq<Msg>)
    requires ClockIsSane(stream, tr)
    ensures !stream.HB? ==> V.Run(stream, tr).state.streak == Z.Run(stream, tr).state.streak
    ensures Z.Run(stream, tr).agg.faults
         == V.Run(stream, tr).agg.faults + (if PrimesLate(stream, tr) then 1 else 0)
            + if stream.HB? then V.Run(stream, tr).agg.decodeErr else 0
  {
    VerdictsAgree(stream, tr);
    V.CountersAreExplained(stream, tr);
    Z.CountersAreExplained(stream, tr);
    FaultsAgree(stream, V.Run(stream, tr), Z.Run(stream, tr));
    PrimesLateIffCounted(stream, tr);
  }
}
