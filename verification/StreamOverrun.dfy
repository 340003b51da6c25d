/**
 * The receive limit is broken in real runs: a stale acknowledgement opens the window again, and
 * draining parked data is not checked against the limit.
 */
module StreamOverrun {
  import opened Basics
  import opened StreamProtocol
  import opened StreamSystem
  import opened StreamInvariant
  import opened StreamMemory

  // ---- when one step breaks the limit ----

  /**
   * The data is new and not parked yet, passes the guard on the buffer alone, and does not fit
   * together with what is parked.
   */
  ghost predicate Overfills(r: Receiver, lo: nat, data: seq<byte>) {
    && r.next <= lo && lo !in r.ooo
    && |r.buf| + |data| <= RECV_BUF_MAX < Held(r) + |data|
  }

  /** Accepting a sent segment carries a receiver over the limit exactly in that case. */
  lemma AcceptanceBreaksLimitIff(r: Receiver, x: Endpoint, lo: nat, data: seq<byte>)
    requires OffsetsInv(x.snd) && ReceiverInv(r, x) && SentSegment(x.snd, lo, data) && Held(r) <= RECV_BUF_MAX
    ensures Held(AcceptData(r, lo, data)) > RECV_BUF_MAX <==> Overfills(r, lo, data)
  {
    NeverPartialOverlap(r, x, lo, data);
    if lo == r.next {
      DrainConserves(Appended(r, data));
    } else if lo !in r.ooo {
      ParkedAdd(r.ooo, lo, data);
    }
  }

  /** The frame whose delivery carries the receiver over the limit. */
  ghost predicate Breaks(r: Receiver, f: Frame) {
    f.typ == FRAME_DATA && f.payload != [] && Overfills(r, f.seqNo, f.payload)
  }

  /** In every run, exactly the deliveries of such frames do it; no other event can. */
  lemma LimitBreaksIff(s: System, ev: Event)
    requires Reachable(s) && Enabled(s, ev) && Held(s.b.rcv) <= RECV_BUF_MAX
    ensures Held(Step(s, ev).b.rcv) > RECV_BUF_MAX <==>
              ev.side.B? && ev.action.Deliver? && Breaks(s.b.rcv, s.ab[ev.action.index])
  {
    ReachableInv(s);
    if ev.side.B? {
      ActBreaksIff(s.b, s.a, s.ab, ev.action, ev.now);
    }
  }

  lemma ActBreaksIff(y: Endpoint, x: Endpoint, inbox: seq<Frame>, act: Action, now: int)
    requires OffsetsInv(x.snd) && ReceiverInv(y.rcv, x) && LogInv(x, y, inbox) && CanAct(y, inbox, act)
    requires Held(y.rcv) <= RECV_BUF_MAX
    ensures Held(Act(y, inbox, act, now).0.rcv) > RECV_BUF_MAX <==> act.Deliver? && Breaks(y.rcv, inbox[act.index])
  {
    if act.Deliver? {
      assert FrameInv(x, y, inbox[act.index]);
      DeliveryBreaksIff(x, y, inbox[act.index], now);
    } else {
      OthersOnlyRead(y, inbox, act, now);
    }
  }

  lemma DeliveryBreaksIff(x: Endpoint, y: Endpoint, f: Frame, now: int)
    requires OffsetsInv(x.snd) && ReceiverInv(y.rcv, x) && FrameInv(x, y, f) && Held(y.rcv) <= RECV_BUF_MAX
    ensures Held(OnFrameStep(y, f, now).rcv) > RECV_BUF_MAX <==> Breaks(y.rcv, f)
  {
    if f.typ == FRAME_DATA && f.payload != [] {
      AcceptanceBreaksLimitIff(y.rcv, x, f.seqNo, f.payload);
    } else if f.typ == FRAME_FIN {
      AcceptFinHolds(y.rcv, x);
    }
  }

  // ---- a run that does it ----

  /** A segment of the greatest size. */
  function Full(): (data: seq<byte>)
    ensures |data| == MAX_SEGMENT
  {
    seq(MAX_SEGMENT, _ => 0)
  }

  /** k segments have been delivered and acknowledged, none has been read, and B's first frame is still about. */
  ghost predicate Filled(s: System, k: nat) {
    && CallReachable(s)
    && !s.a.closed && !s.a.reset
    && s.a.snd.queue == [] && s.a.snd.unack == s.a.snd.next == k * MAX_SEGMENT
    && Opened(s.a.snd, k)
    && s.b.rcv.next == |s.b.rcv.buf| == k * MAX_SEGMENT && s.b.rcv.ooo == map[]
    && s.ba != [] && s.ba[0] == Frame(FRAME_DATA, 0, 0, MAX_WINDOW, [0])
  }

  /** The window A has heard of; at first it has heard of none. */
  predicate Opened(x: Sender, k: nat) {
    x.peerWnd >= Min(RECV_BUF_MAX - k * MAX_SEGMENT, MAX_WINDOW)
  }

  lemma Writes(s: System, data: seq<byte>)
    requires CallReachable(s) && CanAct(s.a, s.ba, Write(data))
    ensures var s' := Steps(s, A, Write(data), s.now);
            && CallReachable(s') && s'.now == s.now && s'.b == s.b && s'.ba == s.ba
            && s'.a == WriteStep(s.a, data, s.now).0 && s'.ab == s.ab + WriteStep(s.a, data, s.now).1
  {
    CallReachableIsReachable(s);
    CallLeadsOn(s, A, Write(data), s.now);
    StepsAre(s, A, Write(data), s.now);
  }

  lemma Arrives(s: System, side: Side, i: nat)
    requires CallReachable(s) && i < |if side.A? then s.ba else s.ab|
    ensures var s' := Steps(s, side, Deliver(i), s.now);
            && CallReachable(s') && s'.now == s.now
            && (side.A? ==> s'.b == s.b && s'.ba == s.ba && s'.a == Call(s.a, s.ba, Deliver(i), s.now).0)
            && (side.B? ==> s'.a == s.a && s'.ab == s.ab && s'.b == Call(s.b, s.ab, Deliver(i), s.now).0
                            && s'.ba == s.ba + Call(s.b, s.ab, Deliver(i), s.now).1)
  {
    CallReachableIsReachable(s);
    CallLeadsOn(s, side, Deliver(i), s.now);
    StepsAre(s, side, Deliver(i), s.now);
  }

  lemma SendsFull(e: Endpoint, now: int)
    requires e.snd.unack <= e.snd.next && WindowAvailable(e.snd) >= MAX_SEGMENT
    ensures WriteStep(e, Full(), now) ==
              (e.(snd := PushSegment(e.snd, Full(), now), ackPending := false), [MakeFrame(e, FRAME_DATA, e.snd.next, Full())])
  {
    assert Full()[..SegmentSize(e.snd, Full())] == Full();
  }

  lemma TakesInOrder(r: Receiver, data: seq<byte>)
    requires r.ooo == map[] && data != [] && |r.buf| + |data| <= RECV_BUF_MAX
    ensures AcceptData(r, r.next, data) == Appended(r, data)
  {
  }

  lemma RetiresAll(x: Sender, seg: Segment, ack: nat, now: int)
    requires x.queue == [seg] && x.unack < ack && seg.End() == ack
    ensures ProcessAck(x, ack, now).queue == [] && ProcessAck(x, ack, now).unack == ack
  {
    assert [seg][1..] == [];
    assert Retire([seg], ack) == Retire([], ack);
  }

  /** The next segment is in the log of A, at position i. */
  ghost predicate InFlight(s: System, k: nat, i: nat) {
    && CallReachable(s)
    && !s.a.closed && !s.a.reset
    && s.a.snd.queue == [Segment(k * MAX_SEGMENT, Full(), s.now, 0)]
    && s.a.snd.unack == k * MAX_SEGMENT && s.a.snd.next == (k + 1) * MAX_SEGMENT
    && s.b.rcv.next == |s.b.rcv.buf| == k * MAX_SEGMENT && s.b.rcv.ooo == map[]
    && s.ba != [] && s.ba[0] == Frame(FRAME_DATA, 0, 0, MAX_WINDOW, [0])
    && i < |s.ab| && IsFull(s.ab[i], k * MAX_SEGMENT)
  }

  lemma Sends(s: System, k: nat) returns (s': System)
    requires Filled(s, k) && (k + 1) * MAX_SEGMENT <= RECV_BUF_MAX
    ensures InFlight(s', k, |s.ab|)
  {
    CallReachableIsReachable(s);
    ReachableInv(s);
    SendsFull(s.a, s.now);
    Writes(s, Full());
    s' := Steps(s, A, Write(Full()), s.now);
  }

  /** B has taken it, and its answer is in the log at position j. */
  ghost predicate Taken(s: System, k: nat, j: nat) {
    && CallReachable(s)
    && !s.a.closed && !s.a.reset
    && s.a.snd.queue == [Segment(k * MAX_SEGMENT, Full(), s.now, 0)]
    && s.a.snd.unack == k * MAX_SEGMENT && s.a.snd.next == (k + 1) * MAX_SEGMENT
    && s.b.rcv.next == |s.b.rcv.buf| == (k + 1) * MAX_SEGMENT && s.b.rcv.ooo == map[]
    && s.ba != [] && s.ba[0] == Frame(FRAME_DATA, 0, 0, MAX_WINDOW, [0])
    && j < |s.ba| && s.ba[j].typ == FRAME_ACK && s.ba[j].ack == (k + 1) * MAX_SEGMENT && s.ba[j].payload == []
    && s.ba[j].wnd == AdvertiseWindow(s.b.rcv)
  }

  lemma Takes(s: System, k: nat, i: nat) returns (s': System)
    requires InFlight(s, k, i) && (k + 1) * MAX_SEGMENT <= RECV_BUF_MAX
    ensures Taken(s', k, |s.ba|)
  {
    Arrives(s, B, i);
    s' := Steps(s, B, Deliver(i), s.now);
    TakesInOrder(s.b.rcv, Full());
  }

  lemma Acknowledged(s: System, k: nat, j: nat) returns (s': System)
    requires Taken(s, k, j) && (k + 1) * MAX_SEGMENT <= RECV_BUF_MAX
    ensures Filled(s', k + 1)
  {
    Arrives(s, A, j);
    s' := Steps(s, A, Deliver(j), s.now);
    var x := s.a.snd.(peerWnd := s.ba[j].wnd);
    RetiresAll(x, Segment(k * MAX_SEGMENT, Full(), s.now, 0), s.ba[j].ack, s.now);
    assert s'.a.snd == ProcessAck(x, s.ba[j].ack, s.now);
  }

  /** One more segment goes across and is acknowledged. */
  lemma Round(s: System, k: nat) returns (s': System)
    requires Filled(s, k) && (k + 1) * MAX_SEGMENT <= RECV_BUF_MAX
    ensures Filled(s', k + 1)
  {
    var s1 := Sends(s, k);
    var s2 := Takes(s1, k, |s.ab|);
    s' := Acknowledged(s2, k, |s1.ba|);
  }

  lemma {:induction false} Rounds(s: System, k: nat, n: nat) returns (s': System)
    requires Filled(s, k) && k <= n && n * MAX_SEGMENT <= RECV_BUF_MAX
    ensures Filled(s', n)
    decreases n - k
  {
    if k == n {
      s' := s;
    } else {
      var s1 := Round(s, k);
      s' := Rounds(s1, k + 1, n);
    }
  }

  lemma Begins(t0: int) returns (s: System)
    ensures Filled(s, 0)
  {
    var s0 := InitSystem(t0);
    assert CallRuns(s0, []) && AfterCalls(s0, []) == s0;
    assert CallReachable(s0);
    CallReachableIsReachable(s0);
    assert CanAct(s0.b, s0.ab, Write([0]));
    CallLeadsOn(s0, B, Write([0]), t0);
    StepsAre(s0, B, Write([0]), t0);
    s := Steps(s0, B, Write([0]), t0);
    assert [0][..1] == [0];
  }

  // ---- the last two segments ----

  /** A hears B's first frame again: its old window opens the sender, who has nothing in flight. */
  lemma WindowReopens(s: System, k: nat) returns (s': System)
    requires Filled(s, k)
    ensures CallReachable(s') && s'.b == s.b && s'.a.snd == s.a.snd.(peerWnd := MAX_WINDOW)
    ensures !s'.a.closed && !s'.a.reset
  {
    Arrives(s, A, 0);
    s' := Steps(s, A, Deliver(0), s.now);
  }

  lemma SendsOne(s: System) returns (s': System)
    requires CallReachable(s) && !s.a.closed && !s.a.reset && s.a.snd.unack <= s.a.snd.next
    requires WindowAvailable(s.a.snd) >= MAX_SEGMENT
    ensures CallReachable(s') && s'.b == s.b && s'.ba == s.ba && !s'.a.closed && !s'.a.reset
    ensures s'.a.snd == PushSegment(s.a.snd, Full(), s.now)
    ensures s'.ab == s.ab + [MakeFrame(s.a, FRAME_DATA, s.a.snd.next, Full())]
  {
    SendsFull(s.a, s.now);
    Writes(s, Full());
    s' := Steps(s, A, Write(Full()), s.now);
  }

  lemma Hears(s: System, i: nat, at: nat) returns (s': System)
    requires CallReachable(s) && i < |s.ab|
    requires IsFull(s.ab[i], at)
    ensures CallReachable(s') && s'.ab == s.ab && s'.b.rcv == AcceptData(s.b.rcv, at, Full())
  {
    Arrives(s, B, i);
    s' := Steps(s, B, Deliver(i), s.now);
  }

  /** Data that fills the gap before an equally long parked piece brings both into the buffer. */
  lemma FillsGap(r: Receiver, data: seq<byte>)
    requires r.ooo == map[] && data != [] && |r.buf| + |data| <= RECV_BUF_MAX
    ensures AcceptData(AcceptData(r, r.next + |data|, data), r.next, data).buf == r.buf + data + data
  {
    var parked := AcceptData(r, r.next + |data|, data);
    assert parked == r.(ooo := map[r.next + |data| := data]);
    var r1 := Appended(parked, data);
    var r2 := DrainRound(r1);
    assert r2.ooo == map[];
    assert Drain(r1) == Drain(r2) == r2;
  }

  predicate IsFull(f: Frame, at: nat) {
    f.typ == FRAME_DATA && f.seqNo == at && f.payload == Full()
  }

  /** Two segments more are under way. */
  lemma SendsTwo(s: System, k: nat) returns (s': System, i: nat)
    requires Filled(s, k)
    ensures CallReachable(s') && s'.b == s.b && i + 1 < |s'.ab|
    ensures IsFull(s'.ab[i], k * MAX_SEGMENT) && IsFull(s'.ab[i + 1], (k + 1) * MAX_SEGMENT)
  {
    var s1 := WindowReopens(s, k);
    WideOpen(s1);
    i := |s1.ab|;
    var s2 := SendsOne(s1);
    s' := SendsOne(s2);
  }

  /** The congestion window has room for two segments. */
  lemma WideOpen(s: System)
    requires CallReachable(s)
    ensures s.a.snd.cwnd >= 2 * MAX_SEGMENT
  {
    CallReachableIsReachable(s);
    ReachableInv(s);
  }

  lemma LastTwo(s: System, k: nat) returns (s': System)
    requires Filled(s, k) && (k + 1) * MAX_SEGMENT <= RECV_BUF_MAX && RECV_BUF_MAX < (k + 2) * MAX_SEGMENT
    ensures CallReachable(s') && |s'.b.rcv.buf| > RECV_BUF_MAX
  {
    var s1, i := SendsTwo(s, k);
    var s2 := Hears(s1, i + 1, (k + 1) * MAX_SEGMENT);
    s' := Hears(s2, i, k * MAX_SEGMENT);
    FillsGap(s.b.rcv, Full());
  }

  /**
   * RecvBufMax is not a bound: two streams, calling nothing but Write and delivering frames
   * that were sent, come to a state in which one has more than RecvBufMax bytes in its buffer.
   */
  lemma LimitIsBroken(t0: int) returns (s: System)
    ensures CallReachable(s) && Reachable(s) && |s.b.rcv.buf| > RECV_BUF_MAX && Held(s.b.rcv) > RECV_BUF_MAX
  {
    var begun := Begins(t0);
    var filled := Rounds(begun, 0, 217);
    s := LastTwo(filled, 217);
    CallReachableIsReachable(s);
  }
}
