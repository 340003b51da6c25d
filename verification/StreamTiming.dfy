/** The round-trip estimate of a stream in a run: it is that of the samples the stream took. */
module StreamTiming {
  import opened Basics
  import opened RttEstimator
  import opened StreamInvariant
  import opened StreamProtocol
  import opened StreamSystem

  function ApplyAll(r: Rtt, es: seq<RttEvent>): Rtt
    decreases |es|
  {
    if es == [] then r else ApplyAll(Apply(r, es[0]), es[1..])
  }

  lemma {:induction false} ApplyAppend(r: Rtt, a: seq<RttEvent>, b: seq<RttEvent>)
    ensures ApplyAll(r, a + b) == ApplyAll(ApplyAll(r, a), b)
    decreases |a|
  {
    if a == [] {
      assert a + b == b;
    } else {
      assert (a + b)[0] == a[0] && (a + b)[1..] == a[1..] + b;
      ApplyAppend(Apply(r, a[0]), a[1..], b);
    }
  }

  lemma {:induction false} EstimateIsFold(es: seq<RttEvent>)
    ensures ApplyAll(InitRtt(), es) == Estimate(es)
  {
    if es != [] {
      var n := |es| - 1;
      EstimateIsFold(es[..n]);
      ApplyAppend(InitRtt(), es[..n], [es[n]]);
      assert es[..n] + [es[n]] == es && [es[n]][1..] == [];
    }
  }

  /** The round trips of the acknowledged segments that were sent once, in queue order. */
  function RoundTrips(q: seq<Segment>, ack: nat, now: int): seq<RttEvent> {
    if q == [] then []
    else (if q[0].End() <= ack && q[0].retries == 0 then [Sample(now - q[0].sentAt)] else [])
         + RoundTrips(q[1..], ack, now)
  }

  lemma {:induction false} RetiredAreSampled(q: seq<Segment>, ack: nat, now: int, rtt: Rtt)
    ensures SampleRetired(q, ack, now, rtt) == ApplyAll(rtt, RoundTrips(q, ack, now))
    decreases |q|
  {
    if q != [] {
      var rest := RoundTrips(q[1..], ack, now);
      if q[0].End() <= ack && q[0].retries == 0 {
        assert ([Sample(now - q[0].sentAt)] + rest)[1..] == rest;
        RetiredAreSampled(q[1..], ack, now, UpdateRTT(rtt, now - q[0].sentAt));
      } else {
        assert [] + rest == rest;
        RetiredAreSampled(q[1..], ack, now, rtt);
      }
    }
  }

  /** What one action feeds into the estimator of the end that takes it. */
  function Feeds(e: Endpoint, inbox: seq<Frame>, act: Action, now: int): seq<RttEvent>
    requires CanAct(e, inbox, act)
  {
    match act
    case Deliver(i) => if inbox[i].ack <= e.snd.unack then [] else RoundTrips(e.snd.queue, inbox[i].ack, now)
    case Tick =>
      var scan := ScanQueue(e.snd.queue, now, e.snd.rtt.rto);
      if e.reset || scan.dead.Some? || scan.resent == [] then [] else [Loss]
    case _ => []
  }

  lemma ActFeeds(e: Endpoint, inbox: seq<Frame>, act: Action, now: int)
    requires CanAct(e, inbox, act)
    ensures Act(e, inbox, act, now).0.snd.rtt == ApplyAll(e.snd.rtt, Feeds(e, inbox, act, now))
  {
    match act
    case Deliver(i) =>
      RetiredAreSampled(e.snd.queue, inbox[i].ack, now, e.snd.rtt);
    case Tick =>
      TickFeeds(e, now);
    case _ =>
  }

  lemma TickFeeds(e: Endpoint, now: int)
    ensures var scan := ScanQueue(e.snd.queue, now, e.snd.rtt.rto);
            TickStep(e, now).0.snd.rtt
            == if e.reset || scan.dead.Some? || scan.resent == [] then e.snd.rtt else Backoff(e.snd.rtt)
  {
  }

  /** Everything that A's estimator was fed in a run. */
  function Taken(s: System, evs: seq<Event>): seq<RttEvent>
    requires Runs(s, evs)
    decreases |evs|
  {
    if evs == [] then []
    else
      (if evs[0].side.A? then Feeds(s.a, s.ba, evs[0].action, evs[0].now) else [])
      + Taken(Step(s, evs[0]), evs[1..])
  }

  lemma {:induction false} RunFeeds(s: System, evs: seq<Event>)
    requires Runs(s, evs)
    ensures After(s, evs).a.snd.rtt == ApplyAll(s.a.snd.rtt, Taken(s, evs))
    decreases |evs|
  {
    if evs != [] {
      var s' := Step(s, evs[0]);
      RunFeeds(s', evs[1..]);
      var first := if evs[0].side.A? then Feeds(s.a, s.ba, evs[0].action, evs[0].now) else [];
      if evs[0].side.A? {
        ActFeeds(s.a, s.ba, evs[0].action, evs[0].now);
      }
      assert s'.a.snd.rtt == ApplyAll(s.a.snd.rtt, first);
      ApplyAppend(s.a.snd.rtt, first, Taken(s', evs[1..]));
    }
  }

  predicate NoneNegative(es: seq<RttEvent>) {
    forall i :: 0 <= i < |es| && es[i].Sample? ==> 0 <= es[i].d
  }

  lemma {:induction false} RoundTripsNotNegative(s: Sender, q: seq<Segment>, ack: nat, now: int)
    requires forall seg :: seg in q ==> SegmentInv(s, seg, now)
    ensures NoneNegative(RoundTrips(q, ack, now))
  {
    if q != [] {
      assert q[0] in q && SegmentInv(s, q[0], now);
      RoundTripsNotNegative(s, q[1..], ack, now);
    }
  }

  lemma {:induction false} SamplesNotNegative(s: System, evs: seq<Event>)
    requires Runs(s, evs) && Reachable(s)
    ensures NoneNegative(Taken(s, evs))
    decreases |evs|
  {
    if evs != [] {
      var ev := evs[0];
      StepReachable(s, ev);
      SamplesNotNegative(Step(s, ev), evs[1..]);
      if ev.side.A? && ev.action.Deliver? {
        ReachableInv(s);
        LaterEndpoint(s.a, s.now, ev.now);
        RoundTripsNotNegative(s.a.snd, s.a.snd.queue, s.ba[ev.action.index].ack, ev.now);
      }
    }
  }

  /**
   * The smoothed round trip in every run. A stream's estimator holds the estimate over the
   * round trips of the segments it sent once and had acknowledged, with a backoff for every
   * Tick that found a loss; none of these samples is negative, and once there is one SRTT lies
   * between the least and the greatest of them.
   */
  lemma EstimateOfARun(t0: int, evs: seq<Event>, lo: int, hi: int)
    requires Runs(InitSystem(t0), evs)
    ensures var rtt, es := After(InitSystem(t0), evs).a.snd.rtt, Taken(InitSystem(t0), evs);
            && rtt == Estimate(es) && NoneNegative(es)
            && (0 <= lo <= hi && SamplesWithin(es, lo, hi) && rtt.haveRTT ==> lo <= rtt.srtt <= hi)
  {
    var s, es := InitSystem(t0), Taken(InitSystem(t0), evs);
    RunFeeds(s, evs);
    EstimateIsFold(es);
    assert Runs(s, []) && After(s, []) == s;
    SamplesNotNegative(s, evs);
    if 0 <= lo <= hi && SamplesWithin(es, lo, hi) {
      EstimateStaysInRange(es, lo, hi);
    }
  }
}
