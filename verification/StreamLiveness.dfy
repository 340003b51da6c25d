/** Timers: no silent stall, recovery from a lost window update, and giving up on a dead peer. */
module StreamLiveness {
  import opened Basics
  import opened RttEstimator
  import opened StreamProtocol
  import opened StreamSystem
  import opened StreamInvariant

  /** A call of Write would sleep here. */
  predicate WriterBlocked(e: Endpoint) {
    && !e.closed && !e.reset
    && e.snd.unack <= e.snd.next
    && WindowAvailable(e.snd) == 0
  }

  /** A writer only sleeps while something is unacknowledged or the peer's window is closed. */
  lemma BlockedHasCause(s: System)
    requires Reachable(s) && WriterBlocked(s.a)
    ensures s.a.snd.queue != [] || s.a.snd.peerWnd == 0
  {
    ReachableInv(s);
  }

  // ---- a dead peer ----

  /** Tick runs at A at least every `gap` after `last`. */
  predicate TicksEvery(evs: seq<Event>, last: int, gap: int) {
    evs == [] || (evs[0].now <= last + gap
                  && TicksEvery(evs[1..], if evs[0].side.A? && evs[0].action.Tick? then evs[0].now else last, gap))
  }

  /** After a pass that kills nobody, every segment is either young or freshly resent. */
  lemma {:induction false} ScanAges(q: seq<Segment>, now: int, rto: int)
    requires ScanQueue(q, now, rto).dead.None?
    ensures var q' := ScanQueue(q, now, rto).queue;
            && |q'| == |q|
            && forall i :: 0 <= i < |q| ==> AgedSegment(q[i], q'[i], now, rto)
    decreases |q|
  {
    if q != [] {
      ScanAges(q[1..], now, rto);
      var q' := ScanQueue(q, now, rto).queue;
      var rest := ScanQueue(q[1..], now, rto).queue;
      forall i | 0 <= i < |q|
        ensures AgedSegment(q[i], q'[i], now, rto)
      {
        if i > 0 {
          assert AgedSegment(q[1..][i - 1], rest[i - 1], now, rto);
        }
      }
    }
  }

  predicate AgedSegment(s: Segment, s': Segment, now: int, rto: int) {
    && s'.seqNo == s.seqNo && s'.data == s.data
    && if now - s.sentAt < rto then s' == s
       else s'.retries == s.retries + 1 && s.retries < MAX_RETRIES && s'.sentAt == now
  }

  /** Segment k was sent for the last time at most one timeout before the last Tick. */
  predicate OnSchedule(x: Endpoint, k: nat, first: int, gap: int, last: int) {
    exists i :: 0 <= i < |x.snd.queue| && ScheduledSegment(x.snd.queue[i], k, first, gap, last)
  }

  predicate ScheduledSegment(seg: Segment, k: nat, first: int, gap: int, last: int) {
    && seg.seqNo == k
    && seg.sentAt <= first + seg.retries * (MAX_RTO + gap)
    && last < seg.sentAt + MAX_RTO
  }

  predicate DeadlineInv(x: Endpoint, k: nat, first: int, gap: int, last: int) {
    x.reset || k < x.snd.unack || OnSchedule(x, k, first, gap, last)
  }

  lemma ScheduleMoves(seg: Segment, seg': Segment, k: nat, first: int, gap: int, last: int, now: int, rto: int)
    requires ScheduledSegment(seg, k, first, gap, last) && AgedSegment(seg, seg', now, rto)
    requires 0 <= gap && now <= last + gap && 0 < rto <= MAX_RTO
    ensures ScheduledSegment(seg', k, first, gap, now)
  {
    if seg' != seg {
      OneMore(seg.retries, MAX_RTO + gap);
    }
  }

  lemma TickKeepsDeadline(x: Endpoint, k: nat, first: int, gap: int, last: int, now: int)
    requires EndpointInv(x, now) && 0 <= gap && now <= last + gap && DeadlineInv(x, k, first, gap, last)
    ensures DeadlineInv(TickStep(x, now).0, k, first, gap, now)
  {
    var x' := TickStep(x, now).0;
    if !x.reset && !x'.reset && k >= x.snd.unack {
      var i :| 0 <= i < |x.snd.queue| && ScheduledSegment(x.snd.queue[i], k, first, gap, last);
      ScanAges(x.snd.queue, now, x.snd.rtt.rto);
      var seg, seg' := x.snd.queue[i], ScanQueue(x.snd.queue, now, x.snd.rtt.rto).queue[i];
      assert x'.snd.queue[i] == seg';
      assert AgedSegment(seg, seg', now, x.snd.rtt.rto);
      ScheduleMoves(seg, seg', k, first, gap, last, now, x.snd.rtt.rto);
    }
  }

  lemma OneMore(n: nat, d: int)
    ensures (n + 1) * d == n * d + d
  {
  }

  lemma {:induction false} RetireKeeps(q: seq<Segment>, ack: nat, i: nat) returns (j: nat)
    requires i < |q| && q[i].End() > ack
    ensures j < |Retire(q, ack)| && Retire(q, ack)[j] == q[i]
    decreases |q|
  {
    if i == 0 {
      j := 0;
    } else {
      var j' := RetireKeeps(q[1..], ack, i - 1);
      j := if q[0].End() <= ack then j' else j' + 1;
    }
  }

  lemma OtherKeepsDeadline(x: Endpoint, y: Endpoint, inbox: seq<Frame>, act: Action,
                           k: nat, first: int, gap: int, last: int, now: int)
    requires EndpointInv(x, now) && LogInv(y, x, inbox) && CanAct(x, inbox, act) && !act.Tick?
    requires DeadlineInv(x, k, first, gap, last)
    ensures DeadlineInv(Act(x, inbox, act, now).0, k, first, gap, last)
  {
    var x' := Act(x, inbox, act, now).0;
    if !x.reset && k >= x.snd.unack && !x'.reset && k >= x'.snd.unack {
      var i :| 0 <= i < |x.snd.queue| && ScheduledSegment(x.snd.queue[i], k, first, gap, last);
      var seg := x.snd.queue[i];
      if act.Deliver? && inbox[act.index].ack > x.snd.unack {
        var f := inbox[act.index];
        assert FrameInv(y, x, f);
        assert SegmentInv(x.snd, seg, now);
        var j := RetireKeeps(x.snd.queue, f.ack, i);
        assert x'.snd.queue[j] == seg;
      } else {
        assert x'.snd.queue[i] == seg;
      }
    }
  }

  lemma {:induction false} RunKeepsDeadline(s: System, evs: seq<Event>, k: nat, first: int, gap: int, last: int)
    requires SystemInv(s) && Runs(s, evs) && 0 <= gap
    requires TicksEvery(evs, last, gap) && s.now <= last + gap
    requires DeadlineInv(s.a, k, first, gap, last)
    ensures var s' := After(s, evs);
            && SystemInv(s')
            && exists last' :: s'.now <= last' + gap && DeadlineInv(s'.a, k, first, gap, last')
    decreases |evs|
  {
    if evs == [] {
      assert s.now <= last + gap && DeadlineInv(s.a, k, first, gap, last);
    } else {
      var ev := evs[0];
      StepKeepsInv(s, ev);
      LaterEndpoint(s.a, s.now, ev.now);
      var last' := if ev.side.A? && ev.action.Tick? then ev.now else last;
      if ev.side.A? {
        if ev.action.Tick? {
          TickKeepsDeadline(s.a, k, first, gap, last, ev.now);
        } else {
          OtherKeepsDeadline(s.a, s.b, s.ba, ev.action, k, first, gap, last, ev.now);
        }
      }
      RunKeepsDeadline(Step(s, ev), evs[1..], k, first, gap, last');
    }
  }

  /**
   * A stream whose Ticks come at least every `gap` settles the fate of every segment in time:
   * 13 * (maxRTO + gap) after the segment was first sent it is acknowledged or the stream has
   * been declared dead, whatever else happens in between.
   */
  lemma DeadPeerIsDetected(s: System, evs: seq<Event>, i: nat, gap: int)
    requires Reachable(s) && Runs(s, evs) && 0 <= gap
    requires i < |s.a.snd.queue| && s.a.snd.queue[i].retries == 0 && s.a.snd.queue[i].sentAt == s.now
    requires TicksEvery(evs, s.now, gap)
    requires After(s, evs).now >= s.now + 13 * (MAX_RTO + gap)
    ensures After(s, evs).a.reset || s.a.snd.queue[i].seqNo < After(s, evs).a.snd.unack
  {
    ReachableInv(s);
    var k := s.a.snd.queue[i].seqNo;
    assert ScheduledSegment(s.a.snd.queue[i], k, s.now, gap, s.now);
    RunKeepsDeadline(s, evs, k, s.now, gap, s.now);
    var s' := After(s, evs);
    var last :| s'.now <= last + gap && DeadlineInv(s'.a, k, s.now, gap, last);
    if OnSchedule(s'.a, k, s.now, gap, last) {
      ScheduleRunsOut(s'.a, k, s.now, gap, last, s'.now);
    }
  }

  /** A segment on schedule has not used up its retries. */
  lemma ScheduleRunsOut(x: Endpoint, k: nat, first: int, gap: int, last: int, now: int)
    requires EndpointInv(x, now) && OnSchedule(x, k, first, gap, last) && 0 <= gap && now <= last + gap
    ensures now < first + 13 * (MAX_RTO + gap)
  {
    var j :| 0 <= j < |x.snd.queue| && ScheduledSegment(x.snd.queue[j], k, first, gap, last);
    var seg := x.snd.queue[j];
    assert SegmentInv(x.snd, seg, now);
    Monotone(seg.retries, MAX_RETRIES, MAX_RTO + gap);
  }

  lemma Monotone(m: nat, n: nat, d: nat)
    requires m <= n
    ensures m * d <= n * d
  {
  }

  // ---- no silent stall ----

  lemma ScanResendsOld(q: seq<Segment>, now: int, rto: int)
    requires q != [] && now - q[0].sentAt >= rto
    ensures var scan := ScanQueue(q, now, rto);
            scan.dead.Some? || (scan.resent != [] && scan.resent[0].seqNo == q[0].seqNo && scan.resent[0].data == q[0].data)
  {
  }

  /**
   * A blocked writer is never left in silence: a Tick that comes maxRTO later or more either
   * declares the peer dead or sends a DATA frame, namely the oldest unacknowledged segment or,
   * when there is none, a window probe.
   */
  lemma TickBreaksTheSilence(s: System, now: int)
    requires Reachable(s) && WriterBlocked(s.a) && now >= s.now + MAX_RTO
    ensures var (a', out) := TickStep(s.a, now);
            a'.reset ||
            (&& out != [] && out[0].typ == FRAME_DATA
             && if s.a.snd.queue != []
                then out[0].seqNo == s.a.snd.unack && out[0].payload == s.a.snd.queue[0].data
                else out[0].payload == [])
  {
    ReachableInv(s);
    BlockedHasCause(s);
    var q := s.a.snd.queue;
    if q != [] {
      assert SegmentInv(s.a.snd, q[0], s.now);
      ScanResendsOld(q, now, s.a.snd.rtt.rto);
      var scan := ScanQueue(q, now, s.a.snd.rtt.rto);
      if scan.dead.None? {
        assert Frames(s.a, scan.resent)[0] == MakeFrame(s.a, FRAME_DATA, q[0].seqNo, q[0].data);
      }
    }
  }

  /** Tick at A, delivery at B, B's answer, delivery at A. */
  function Exchange(s: System, now: int): seq<Event> {
    [Event(A, Tick, now), Event(B, Deliver(|s.ab|), now), Event(B, Ack, now), Event(A, Deliver(|s.ba|), now)]
  }

  lemma RunFirst(s: System, ev: Event, rest: seq<Event>)
    requires Enabled(s, ev) && Runs(Step(s, ev), rest)
    ensures Runs(s, [ev] + rest) && After(s, [ev] + rest) == After(Step(s, ev), rest)
  {
    assert ([ev] + rest)[1..] == rest;
  }

  lemma RunFour(s: System, e0: Event, e1: Event, e2: Event, e3: Event)
    requires Enabled(s, e0) && Enabled(Step(s, e0), e1) && Enabled(Step(Step(s, e0), e1), e2)
    requires Enabled(Step(Step(Step(s, e0), e1), e2), e3)
    ensures Runs(s, [e0, e1, e2, e3]) && After(s, [e0, e1, e2, e3]) == Step(Step(Step(Step(s, e0), e1), e2), e3)
  {
    var s1 := Step(s, e0);
    var s2 := Step(s1, e1);
    var s3 := Step(s2, e2);
    RunFirst(s3, e3, []);
    RunFirst(s2, e2, [e3] + []);
    RunFirst(s1, e1, [e2] + ([e3] + []));
    RunFirst(s, e0, [e1] + ([e2] + ([e3] + [])));
    assert [e0] + ([e1] + ([e2] + ([e3] + []))) == [e0, e1, e2, e3];
  }

  lemma ExchangeRuns(s: System, now: int)
    requires s.now <= now && TickStep(s.a, now).1 != []
    ensures Runs(s, Exchange(s, now))
    ensures var (a1, out) := TickStep(s.a, now);
            var b1 := OnFrameStep(s.b, out[0], now);
            var reply := AckStep(b1).1[0];
            After(s, Exchange(s, now)).a == OnFrameStep(a1, reply, now) && After(s, Exchange(s, now)).b == AckStep(b1).0
  {
    var s1 := TickAtA(s, now);
    var s2 := DeliveryAtB(s1, |s.ab|, now);
    var s3 := AckAtB(s2, now);
    var s4 := DeliveryAtA(s3, |s.ba|, now);
    RunFour(s, Event(A, Tick, now), Event(B, Deliver(|s.ab|), now), Event(B, Ack, now), Event(A, Deliver(|s.ba|), now));
  }

  lemma TickAtA(s: System, now: int) returns (s': System)
    requires s.now <= now && TickStep(s.a, now).1 != []
    ensures Enabled(s, Event(A, Tick, now)) && s' == Step(s, Event(A, Tick, now)) && s'.now == now
    ensures s'.a == TickStep(s.a, now).0 && s'.b == s.b && s'.ba == s.ba
    ensures |s.ab| < |s'.ab| && s'.ab[|s.ab|] == TickStep(s.a, now).1[0]
  {
    s' := Step(s, Event(A, Tick, now));
    assert s'.ab == s.ab + TickStep(s.a, now).1;
  }

  lemma DeliveryAtB(s: System, i: nat, now: int) returns (s': System)
    requires s.now <= now && i < |s.ab|
    ensures Enabled(s, Event(B, Deliver(i), now)) && s' == Step(s, Event(B, Deliver(i), now)) && s'.now == now
    ensures s'.b == OnFrameStep(s.b, s.ab[i], now) && s'.a == s.a && s'.ba == s.ba
  {
    s' := Step(s, Event(B, Deliver(i), now));
  }

  lemma AckAtB(s: System, now: int) returns (s': System)
    requires s.now <= now
    ensures Enabled(s, Event(B, Ack, now)) && s' == Step(s, Event(B, Ack, now)) && s'.now == now
    ensures s'.b == AckStep(s.b).0 && s'.a == s.a
    ensures |s.ba| < |s'.ba| && s'.ba[|s.ba|] == AckStep(s.b).1[0]
  {
    s' := Step(s, Event(B, Ack, now));
    assert s'.ba == s.ba + AckStep(s.b).1;
  }

  lemma DeliveryAtA(s: System, i: nat, now: int) returns (s': System)
    requires s.now <= now && i < |s.ba|
    ensures Enabled(s, Event(A, Deliver(i), now)) && s' == Step(s, Event(A, Deliver(i), now))
    ensures s'.a == OnFrameStep(s.a, s.ba[i], now) && s'.b == s.b
  {
    s' := Step(s, Event(A, Deliver(i), now));
  }

  /** B takes the oldest missing segment, or has it already; either way its ACK passes it. */
  lemma HeadAdvancesReceiver(b: Endpoint, a: Endpoint, f: Frame, now: int)
    requires EndpointInv(a, now) && EndpointInv(b, now) && ReceiverInv(b.rcv, a) && ReceiverInv(a.rcv, b)
    requires FrameInv(a, b, f) && f.typ == FRAME_DATA && f.payload != [] && f.seqNo == a.snd.unack
    requires |b.rcv.buf| + |f.payload| <= RECV_BUF_MAX
    ensures OnFrameStep(b, f, now).rcv.next >= a.snd.unack + |f.payload|
  {
    if b.rcv.next == f.seqNo {
      DrainAdvances(Appended(b.rcv, f.payload));
    } else {
      NeverPartialOverlap(b.rcv, a, f.seqNo, f.payload);
    }
  }

  lemma {:induction false} DrainAdvances(r: Receiver)
    ensures r.next <= Drain(r).next
    decreases |r.ooo|
  {
    if r.next in r.ooo {
      RemoveShrinks(r.ooo, r.next);
      if r.ooo[r.next] != [] {
        DrainAdvances(DrainRound(r));
      }
    }
  }

  /** What B must have free: the oldest unacknowledged segment, or a byte when there is none. */
  predicate HasRoom(s: System) {
    |s.b.rcv.buf| + (if s.a.snd.queue == [] then 1 else |s.a.snd.queue[0].data|) <= RECV_BUF_MAX
  }

  /**
   * A lost window update cannot deadlock the pair. From any reachable state in which A's
   * writer sleeps and B has room, one exchange that gets through (a Tick maxRTO later, its
   * first frame, and B's answer) leaves A with the window B has then, and with the oldest
   * segment acknowledged or, if nothing was outstanding, with the window open; unless that
   * Tick finds the peer dead.
   */
  lemma LostWindowUpdateRecovers(s: System, now: int)
    requires Reachable(s) && WriterBlocked(s.a) && now >= s.now + MAX_RTO && HasRoom(s)
    ensures TickStep(s.a, now).0.reset
         || (&& Runs(s, Exchange(s, now))
             && var s' := After(s, Exchange(s, now));
                && s'.a.snd.peerWnd == AdvertiseWindow(s'.b.rcv)
                && if s.a.snd.queue != [] then s'.a.snd.unack >= s.a.snd.queue[0].End()
                   else s'.a.snd.unack <= s'.a.snd.next && WindowAvailable(s'.a.snd) > 0)
  {
    var (a1, out) := TickStep(s.a, now);
    if !a1.reset {
      ReachableInv(s);
      BlockedHasCause(s);
      TickBreaksTheSilence(s, now);
      ExchangeRuns(s, now);
      LaterEndpoint(s.a, s.now, now);
      TickKeepsEndpoint(s.a, now);
      if s.a.snd.queue != [] {
        HeadArrives(s, now, out);
      }
      AnswerArrives(a1, OnFrameStep(s.b, out[0], now), now);
    }
  }

  /** The first frame of such a Tick carries the oldest segment, which B takes or has already. */
  lemma HeadArrives(s: System, now: int, out: seq<Frame>)
    requires SystemInv(s) && s.now <= now && s.a.snd.queue != [] && HasRoom(s) && out == TickStep(s.a, now).1
    requires out != [] && out[0].typ == FRAME_DATA
    requires out[0].seqNo == s.a.snd.unack && out[0].payload == s.a.snd.queue[0].data
    ensures OnFrameStep(s.b, out[0], now).rcv.next >= s.a.snd.queue[0].End()
  {
    LaterEndpoint(s.a, s.now, now);
    LaterEndpoint(s.b, s.now, now);
    TickFrames(s.a, s.b, now);
    assert out[0] in out;
    assert FrameInv(s.a, s.b, out[0]);
    assert SegmentInv(s.a.snd, s.a.snd.queue[0], s.now);
    HeadAdvancesReceiver(s.b, s.a, out[0], now);
  }

  /** B's answer brings B's window, and acknowledges all that B has. */
  lemma AnswerArrives(a: Endpoint, b: Endpoint, now: int)
    ensures var a' := OnFrameStep(a, AckStep(b).1[0], now);
            && a'.snd.peerWnd == AdvertiseWindow(AckStep(b).0.rcv)
            && a'.snd.unack == Max(a.snd.unack, b.rcv.next) && a'.snd.next == a.snd.next
  {
  }
}
