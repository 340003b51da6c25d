/** What the invariant means for every run: the promises of the stream. */
module StreamTheorems {
  import opened Basics
  import opened RttEstimator
  import opened StreamProtocol
  import opened StreamSystem
  import opened StreamInvariant

  /**
   * Reliability and order: what B has read and still buffers is exactly the first
   * `next` bytes A wrote, and the other way round.
   */
  lemma DeliveredIsWhatWasWritten(s: System)
    requires Reachable(s)
    ensures s.b.rcv.next <= |s.a.snd.written|
    ensures s.b.rcv.delivered + s.b.rcv.buf == s.a.snd.written[..s.b.rcv.next]
    ensures s.a.rcv.next <= |s.b.snd.written|
    ensures s.a.rcv.delivered + s.a.rcv.buf == s.b.snd.written[..s.a.rcv.next]
  {
    ReachableInv(s);
  }

  // ---- the send queue ----

  function Flatten(q: seq<Segment>): seq<byte> {
    if q == [] then [] else q[0].data + Flatten(q[1..])
  }

  lemma {:induction false} TilesFlatten(s: Sender, q: seq<Segment>, lo: nat, hi: nat, now: int)
    requires Tiles(q, lo, hi) && hi <= |s.written|
    requires forall seg :: seg in q ==> SegmentInv(s, seg, now)
    ensures lo <= hi && Flatten(q) == s.written[lo..hi]
    decreases |q|
  {
    if q != [] {
      assert SegmentInv(s, q[0], now);
      TilesFlatten(s, q[1..], q[0].End(), hi, now);
    }
  }

  /** A sent segment that is not yet acknowledged is in the queue, whole. */
  lemma {:induction false} TilesFind(s: Sender, q: seq<Segment>, lo: nat, hi: nat, k: nat, data: seq<byte>, now: int)
    returns (i: nat)
    requires Tiles(q, lo, hi) && lo <= k && SentSegment(s, k, data) && k + |data| <= hi
    requires forall seg :: seg in q ==> SegmentInv(s, seg, now)
    ensures i < |q| && q[i].seqNo == k && q[i].data == data
    decreases |q|
  {
    assert q != [];
    assert SegmentInv(s, q[0], now);
    if k < q[0].End() {
      i := 0;
    } else {
      var j := TilesFind(s, q[1..], q[0].End(), hi, k, data, now);
      i := j + 1;
    }
  }

  /** The queue holds exactly the bytes in flight, cut into segments of at most MaxSegment bytes. */
  lemma QueueIsTheFlight(s: System)
    requires Reachable(s)
    ensures var x := s.a.snd;
            && x.unack <= x.next == |x.written| && x.next - x.unack <= MAX_WINDOW
            && Tiles(x.queue, x.unack, x.next)
            && Flatten(x.queue) == x.written[x.unack..x.next]
            && forall seg :: seg in x.queue ==> 0 < |seg.data| <= MAX_SEGMENT
  {
    ReachableInv(s);
    TilesFlatten(s.a.snd, s.a.snd.queue, s.a.snd.unack, s.a.snd.next, s.now);
    forall seg | seg in s.a.snd.queue
      ensures 0 < |seg.data| <= MAX_SEGMENT
    {
      assert SegmentInv(s.a.snd, seg, s.now);
    }
  }

  /** No acknowledgement, however late, ever splits a segment. */
  lemma AcksNeverSplitSegments(s: System)
    requires Reachable(s)
    ensures forall f, seg :: f in s.ba && seg in s.a.snd.queue ==> f.ack <= seg.seqNo || seg.End() <= f.ack
  {
    ReachableInv(s);
    forall f, seg | f in s.ba && seg in s.a.snd.queue
      ensures f.ack <= seg.seqNo || seg.End() <= f.ack
    {
      assert FrameInv(s.b, s.a, f);
      assert SegmentInv(s.a.snd, seg, s.now);
    }
  }

  predicate InQueue(q: seq<Segment>, k: nat, data: seq<byte>) {
    exists i :: 0 <= i < |q| && q[i].seqNo == k && q[i].data == data
  }

  /**
   * Nothing parked goes stale: each entry lies strictly above `next` and is either the FIN
   * or a whole segment the sender still keeps for retransmission.
   */
  lemma ParkedIsStillOutstanding(s: System)
    requires Reachable(s)
    ensures forall k :: k in s.b.rcv.ooo ==>
              && s.b.rcv.next < k
              && (if s.b.rcv.ooo[k] == [] then s.a.closed && k == |s.a.snd.written|
                  else InQueue(s.a.snd.queue, k, s.b.rcv.ooo[k]))
  {
    ReachableInv(s);
    forall k | k in s.b.rcv.ooo && s.b.rcv.ooo[k] != []
      ensures InQueue(s.a.snd.queue, k, s.b.rcv.ooo[k])
    {
      assert ParkedInv(s.a, k, s.b.rcv.ooo[k]);
      var i := TilesFind(s.a.snd, s.a.snd.queue, s.a.snd.unack, s.a.snd.next, k, s.b.rcv.ooo[k], s.now);
    }
    forall k | k in s.b.rcv.ooo
      ensures s.b.rcv.next < k && (s.b.rcv.ooo[k] == [] ==> s.a.closed && k == |s.a.snd.written|)
    {
      assert ParkedInv(s.a, k, s.b.rcv.ooo[k]);
    }
  }

  /**
   * Whichever frame is delivered next, its data is either old in full or entirely new, so the
   * trim of a partial overlap is never needed.
   */
  lemma TrimIsNeverNeeded(s: System)
    requires Reachable(s)
    ensures forall f :: f in s.ab && f.payload != [] ==>
              f.seqNo + |f.payload| <= s.b.rcv.next || s.b.rcv.next <= f.seqNo
  {
    ReachableInv(s);
    forall f | f in s.ab && f.payload != []
      ensures f.seqNo + |f.payload| <= s.b.rcv.next || s.b.rcv.next <= f.seqNo
    {
      assert FrameInv(s.a, s.b, f);
      NeverPartialOverlap(s.b.rcv, s.a, f.seqNo, f.payload);
    }
  }

  // ---- end of stream ----

  lemma {:induction false} FinishedStaysFinished(s: System, evs: seq<Event>)
    requires SystemInv(s) && Runs(s, evs) && s.a.closed
    ensures After(s, evs).a.snd.written == s.a.snd.written && After(s, evs).a.closed
    decreases |evs|
  {
    if evs != [] {
      var ev := evs[0];
      var s' := Step(s, ev);
      StepKeepsInv(s, ev);
      if ev.side.A? {
        LaterEndpoint(s.a, s.now, ev.now);
        LaterEndpoint(s.b, s.now, ev.now);
        ActsWell(s.a, s.b, s.ba, ev.action, ev.now);
        assert s'.a.snd.written == s.a.snd.written;
      }
      FinishedStaysFinished(s', evs[1..]);
    }
  }

  /**
   * EOF means complete: when Read reports EOF the reader has already had every byte the peer
   * wrote before its Close, and no continuation of the run can add another.
   */
  lemma EofMeansComplete(s: System, cap: nat, more: seq<Event>)
    requires Reachable(s) && ReadOutcome(s.b, cap) == Eof && Runs(s, more)
    ensures s.a.closed
    ensures s.b.rcv.delivered == s.a.snd.written == After(s, more).a.snd.written
  {
    ReachableInv(s);
    assert s.a.snd.written[..s.b.rcv.next] == s.a.snd.written;
    FinishedStaysFinished(s, more);
  }

  /** A FIN takes effect only when no byte before it is missing, and displaces no parked data. */
  lemma FinNeverJumpsAGap(s: System, f: Frame)
    requires Reachable(s) && f in s.ab && f.typ == FRAME_FIN
    ensures f.seqNo == |s.a.snd.written|
    ensures var r := AcceptFin(s.b.rcv, f.seqNo);
            && (r.fin ==> s.b.rcv.next == |s.a.snd.written|)
            && r.buf == s.b.rcv.buf && r.next == s.b.rcv.next
            && forall k :: k in s.b.rcv.ooo ==> k in r.ooo && r.ooo[k] == s.b.rcv.ooo[k]
  {
    ReachableInv(s);
    assert FrameInv(s.a, s.b, f);
    AcceptFinKeepsInv(s.b.rcv, s.a);
  }

  // ---- control variables ----

  /** Windows, thresholds and timers stay in range, and no 32-bit intermediate overflows. */
  lemma ControlStaysInRange(s: System, f: Frame)
    requires Reachable(s) && f in s.ba
    ensures var x := s.a.snd;
            && INITIAL_CWND <= x.cwnd <= RECV_BUF_MAX
            && 2 * MAX_SEGMENT <= x.ssthresh <= RECV_BUF_MAX
            && MIN_RTO <= x.rtt.rto <= MAX_RTO
            && MIN_RTO <= s.a.probeInterval <= MAX_RTO
            && (f.ack > x.unack ==> AckedBytes(x.queue, f.ack) == f.ack - x.unack)
            && MAX_SEGMENT * AckedBytes(x.queue, f.ack) < 0x1_0000_0000
            && x.cwnd + AckedBytes(x.queue, f.ack) < 0x1_0000_0000
  {
    ReachableInv(s);
    assert FrameInv(s.b, s.a, f);
    var x := s.a.snd;
    if f.ack > x.unack {
      RetireTiles(x, x.queue, x.unack, x.next, f.ack, s.now);
    } else {
      RetireNothing(x, x.queue, x.unack, x.next, f.ack, s.now);
    }
    GrowCwndInRange(x.cwnd, x.ssthresh, AckedBytes(x.queue, f.ack));
  }

  // ---- both directions ----

  function Flip(ev: Event): Event {
    ev.(side := if ev.side.A? then B else A)
  }

  function FlipAll(evs: seq<Event>): seq<Event> {
    seq(|evs|, i requires 0 <= i < |evs| => Flip(evs[i]))
  }

  lemma {:induction false} SwapRuns(s: System, evs: seq<Event>)
    requires Runs(s, evs)
    ensures Runs(Swap(s), FlipAll(evs)) && After(Swap(s), FlipAll(evs)) == Swap(After(s, evs))
    decreases |evs|
  {
    if evs != [] {
      var rest := FlipAll(evs)[1..];
      assert rest == FlipAll(evs[1..]);
      assert Step(Swap(s), Flip(evs[0])) == Swap(Step(s, evs[0]));
      SwapRuns(Step(s, evs[0]), evs[1..]);
    }
  }

  /**
   * The system is symmetric: what is proved about A as sender holds of B as sender, by
   * applying it to the swapped system.
   */
  lemma SwapReachable(s: System)
    requires Reachable(s)
    ensures Reachable(Swap(s))
  {
    var t0: int, evs: seq<Event> :| Runs(InitSystem(t0), evs) && s == After(InitSystem(t0), evs);
    SwapRuns(InitSystem(t0), evs);
    assert Swap(InitSystem(t0)) == InitSystem(t0);
    assert Runs(InitSystem(t0), FlipAll(evs));
  }
}
