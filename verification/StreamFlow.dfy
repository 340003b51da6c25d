/**
 * Flow control when the frames travelling back to the sender keep their order (loss and
 * adjacent duplicates are still allowed). Data may be reordered at will.
 *
 * The statements are about A as sender and B as receiver; the other direction is the same
 * statement about the swapped system.
 */
module StreamFlow {
  import opened Basics
  import opened StreamProtocol
  import opened StreamSystem
  import opened StreamInvariant
  import opened StreamMemory

  /** The first offset the receiver does not yet allow. */
  function RightEdge(r: Receiver): nat {
    r.next + AdvertiseWindow(r)
  }

  function FrameEdge(f: Frame): nat {
    f.ack + f.wnd
  }

  /** A hears B's frames in the order they were sent. */
  predicate InOrderAtA(s: System, ev: Event) {
    ev.side.A? && ev.action.Deliver? ==> s.heardA <= ev.action.index
  }

  predicate RunsInOrderAtA(s: System, evs: seq<Event>)
    requires Runs(s, evs)
    decreases |evs|
  {
    evs == [] || (InOrderAtA(s, evs[0]) && RunsInOrderAtA(Step(s, evs[0]), evs[1..]))
  }

  predicate BackLogInv(r: Receiver, log: seq<Frame>) {
    && (forall i :: 0 <= i < |log| ==> MAX_WINDOW <= FrameEdge(log[i]) <= RightEdge(r) && log[i].ack <= r.next)
    && (forall i, j :: 0 <= i < j < |log| ==> log[i].ack <= log[j].ack && FrameEdge(log[i]) <= FrameEdge(log[j]))
  }

  /** The sender stays inside the last window it heard of. */
  predicate SenderHeeds(x: Sender, log: seq<Frame>, heard: int) {
    if 0 <= heard < |log| then
      x.unack == log[heard].ack && x.peerWnd == log[heard].wnd && x.next <= FrameEdge(log[heard])
    else
      heard == -1 && x.unack == 0 && x.cwnd == INITIAL_CWND && x.next <= INITIAL_CWND
  }

  predicate FlowInv(s: System) {
    && |s.b.rcv.buf| <= RECV_BUF_MAX
    && MAX_WINDOW <= RightEdge(s.b.rcv)
    && BackLogInv(s.b.rcv, s.ba)
    && SenderHeeds(s.a.snd, s.ba, s.heardA)
  }

  lemma SenderWithinEdge(s: System)
    requires SystemInv(s) && FlowInv(s)
    ensures s.a.snd.next <= RightEdge(s.b.rcv) <= |s.b.rcv.delivered| + RECV_BUF_MAX
  {
    assert |s.b.rcv.delivered + s.b.rcv.buf| == s.b.rcv.next;
    if s.heardA >= 0 {
      assert FrameEdge(s.ba[s.heardA]) <= RightEdge(s.b.rcv);
    }
  }

  /** Reading and receiving only ever move the right edge forward. */
  lemma EdgeAdvances(r: Receiver, r': Receiver)
    requires |r.delivered| + |r.buf| == r.next && |r'.delivered| + |r'.buf| == r'.next
    requires |r.delivered| <= |r'.delivered| && r.next <= r'.next
    requires |r.buf| <= RECV_BUF_MAX && |r'.buf| <= RECV_BUF_MAX
    ensures RightEdge(r) <= RightEdge(r')
  {
  }

  lemma BackLogKeeps(r: Receiver, r': Receiver, log: seq<Frame>, out: seq<Frame>)
    requires BackLogInv(r, log) && r.next <= r'.next && MAX_WINDOW <= RightEdge(r) <= RightEdge(r')
    requires forall f :: f in out ==> f.ack == r.next && f.wnd == AdvertiseWindow(r)
    ensures BackLogInv(r', log + out)
  {
    forall i | 0 <= i < |log + out|
      ensures MAX_WINDOW <= FrameEdge((log + out)[i]) <= RightEdge(r') && (log + out)[i].ack <= r'.next
    {
      if i >= |log| { assert (log + out)[i] in out; }
    }
    forall i, j | 0 <= i < j < |log + out|
      ensures (log + out)[i].ack <= (log + out)[j].ack && FrameEdge((log + out)[i]) <= FrameEdge((log + out)[j])
    {
      if j >= |log| {
        assert (log + out)[j] in out;
        if i >= |log| { assert (log + out)[i] in out; }
      }
    }
  }

  /** Every frame is stamped with the receiver's state before the step. */
  lemma StampedFrames(e: Endpoint, inbox: seq<Frame>, act: Action, now: int)
    requires CanAct(e, inbox, act)
    ensures forall f :: f in Act(e, inbox, act, now).1 ==> f.ack == e.rcv.next && f.wnd == AdvertiseWindow(e.rcv)
  {
  }

  lemma DeliveredGrows(e: Endpoint, y: Endpoint, inbox: seq<Frame>, act: Action, now: int)
    requires EndpointInv(e, now) && OffsetsInv(y.snd) && ReceiverInv(e.rcv, y) && LogInv(y, e, inbox)
    requires CanAct(e, inbox, act)
    ensures |e.rcv.delivered| <= |Act(e, inbox, act, now).0.rcv.delivered|
  {
    if act.Deliver? {
      var f := inbox[act.index];
      assert FrameInv(y, e, f);
      if f.typ == FRAME_DATA && f.payload != [] {
        AcceptDataKeepsInv(e.rcv, y, f.seqNo, f.payload);
      }
    }
  }

  lemma ReceiverStepKeepsFlow(s: System, act: Action, now: int)
    requires SystemInv(s) && FlowInv(s) && s.now <= now && CanAct(s.b, s.ab, act)
    ensures FlowInv(Step(s, Event(B, act, now)))
  {
    var s' := Step(s, Event(B, act, now));
    var (b', out) := Act(s.b, s.ab, act, now);
    assert s'.b == b' && s'.ba == s.ba + out && s'.a == s.a && s'.heardA == s.heardA;
    StepKeepsInv(s, Event(B, act, now));
    LaterEndpoint(s.a, s.now, now);
    LaterEndpoint(s.b, s.now, now);
    ActsWell(s.b, s.a, s.ab, act, now);
    DeliveredGrows(s.b, s.a, s.ab, act, now);
    StampedFrames(s.b, s.ab, act, now);
    SenderWithinEdge(s);
    assert |s.b.rcv.delivered + s.b.rcv.buf| == s.b.rcv.next;
    assert |b'.rcv.delivered + b'.rcv.buf| == b'.rcv.next;
    assert |b'.rcv.buf| <= RECV_BUF_MAX;
    EdgeAdvances(s.b.rcv, b'.rcv);
    BackLogKeeps(s.b.rcv, b'.rcv, s.ba, out);
  }

  /** An acknowledgement heard in order brings the sender to the window it carries. */
  lemma HeedsAck(x: Sender, log: seq<Frame>, heard: int, i: nat, now: int)
    requires SenderHeeds(x, log, heard) && i < |log| && heard <= i && log[i].ack <= x.next
    requires 0 <= heard < |log| ==> log[heard].ack <= log[i].ack && FrameEdge(log[heard]) <= FrameEdge(log[i])
    requires MAX_WINDOW <= FrameEdge(log[i])
    ensures SenderHeeds(ProcessAck(x.(peerWnd := log[i].wnd), log[i].ack, now), log, i)
  {
  }

  lemma HeedsOtherwise(e: Endpoint, inbox: seq<Frame>, act: Action, now: int, heard: int)
    requires SenderHeeds(e.snd, inbox, heard) && CanAct(e, inbox, act) && !act.Deliver? && !act.Tick?
    ensures SenderHeeds(Act(e, inbox, act, now).0.snd, inbox, heard)
  {
  }

  lemma HeedsTick(e: Endpoint, inbox: seq<Frame>, now: int, heard: int)
    requires SenderHeeds(e.snd, inbox, heard)
    ensures SenderHeeds(TickStep(e, now).0.snd, inbox, heard)
  {
    TickKeepsOffsets(e, now);
  }

  lemma TickKeepsOffsets(e: Endpoint, now: int)
    ensures var s, s' := e.snd, TickStep(e, now).0.snd;
            && s'.next == s.next && s'.unack == s.unack && s'.peerWnd == s.peerWnd
            && (s'.cwnd == s.cwnd || s'.cwnd == INITIAL_CWND)
  {
  }

  lemma SenderStepKeepsFlow(s: System, act: Action, now: int)
    requires SystemInv(s) && FlowInv(s) && s.now <= now && CanAct(s.a, s.ba, act)
    requires InOrderAtA(s, Event(A, act, now))
    ensures FlowInv(Step(s, Event(A, act, now)))
  {
    match act
    case Deliver(i) =>
      assert FrameInv(s.b, s.a, s.ba[i]);
      if s.heardA >= 0 && s.heardA < i {
        assert s.ba[s.heardA].ack <= s.ba[i].ack && FrameEdge(s.ba[s.heardA]) <= FrameEdge(s.ba[i]);
      }
      HeedsAck(s.a.snd, s.ba, s.heardA, i, now);
    case Tick => HeedsTick(s.a, s.ba, now, s.heardA);
    case _ => HeedsOtherwise(s.a, s.ba, act, now, s.heardA);
  }

  lemma StepKeepsFlow(s: System, ev: Event)
    requires SystemInv(s) && FlowInv(s) && Enabled(s, ev) && InOrderAtA(s, ev)
    ensures FlowInv(Step(s, ev))
  {
    if ev.side.A? {
      SenderStepKeepsFlow(s, ev.action, ev.now);
    } else {
      ReceiverStepKeepsFlow(s, ev.action, ev.now);
    }
  }

  lemma {:induction false} RunKeepsFlow(s: System, evs: seq<Event>)
    requires SystemInv(s) && FlowInv(s) && Runs(s, evs) && RunsInOrderAtA(s, evs)
    ensures SystemInv(After(s, evs)) && FlowInv(After(s, evs))
    decreases |evs|
  {
    if evs != [] {
      StepKeepsInv(s, evs[0]);
      StepKeepsFlow(s, evs[0]);
      RunKeepsFlow(Step(s, evs[0]), evs[1..]);
    }
  }

  /** The guard in acceptData would refuse this frame. */
  predicate GuardRefuses(r: Receiver, f: Frame) {
    && f.typ == FRAME_DATA
    && f.seqNo + |f.payload| > r.next
    && |r.buf| + |f.payload| > RECV_BUF_MAX
  }

  /**
   * With in-order acknowledgements the advertised window is a promise that holds: A never
   * sends past the right edge, B never holds more than RecvBufMax in all, and the
   * buffer-full guard never refuses data B does not have yet.
   */
  lemma FlowControlHolds(t0: int, evs: seq<Event>)
    requires Runs(InitSystem(t0), evs) && RunsInOrderAtA(InitSystem(t0), evs)
    ensures var s := After(InitSystem(t0), evs);
            && s.a.snd.next <= RightEdge(s.b.rcv)
            && Held(s.b.rcv) <= RECV_BUF_MAX
            && (forall f :: f in s.ab && f.payload != [] ==> !GuardRefuses(s.b.rcv, f))
  {
    var s := After(InitSystem(t0), evs);
    InitKeepsInv(t0);
    RunKeepsFlow(InitSystem(t0), evs);
    SenderWithinEdge(s);
    ParkedFits(s.b.rcv, s.a);
    assert |s.b.rcv.delivered + s.b.rcv.buf| == s.b.rcv.next;
    forall f | f in s.ab && f.payload != []
      ensures !GuardRefuses(s.b.rcv, f)
    {
      assert FrameInv(s.a, s.b, f);
      NotRefused(s.a, s.b, f);
    }
  }

  lemma NotRefused(a: Endpoint, b: Endpoint, f: Frame)
    requires OffsetsInv(a.snd) && ReceiverInv(b.rcv, a) && FrameInv(a, b, f) && f.payload != []
    requires a.snd.next <= RightEdge(b.rcv) && |b.rcv.buf| <= RECV_BUF_MAX
    ensures !GuardRefuses(b.rcv, f)
  {
    NeverPartialOverlap(b.rcv, a, f.seqNo, f.payload);
  }

  /** In every such run and its continuations the right edge never retreats. */
  lemma RightEdgeNeverRetreats(t0: int, evs: seq<Event>, ev: Event)
    requires Runs(InitSystem(t0), evs) && RunsInOrderAtA(InitSystem(t0), evs)
    requires Enabled(After(InitSystem(t0), evs), ev) && InOrderAtA(After(InitSystem(t0), evs), ev)
    ensures var s := After(InitSystem(t0), evs); RightEdge(s.b.rcv) <= RightEdge(Step(s, ev).b.rcv)
  {
    var s := After(InitSystem(t0), evs);
    InitKeepsInv(t0);
    RunKeepsFlow(InitSystem(t0), evs);
    StepKeepsInv(s, ev);
    StepKeepsFlow(s, ev);
    if ev.side.B? {
      LaterEndpoint(s.a, s.now, ev.now);
      LaterEndpoint(s.b, s.now, ev.now);
      ActsWell(s.b, s.a, s.ab, ev.action, ev.now);
      DeliveredGrows(s.b, s.a, s.ab, ev.action, ev.now);
      assert |s.b.rcv.delivered + s.b.rcv.buf| == s.b.rcv.next;
      var b' := Step(s, ev).b;
      assert |b'.rcv.delivered + b'.rcv.buf| == b'.rcv.next;
      EdgeAdvances(s.b.rcv, b'.rcv);
    }
  }
}
