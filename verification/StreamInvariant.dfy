/** What every step of the two-endpoint protocol keeps. */
module StreamInvariant {
  import opened Basics
  import opened RttEstimator
  import opened StreamProtocol
  import opened StreamSystem

  // ---- segments ----

  /** [lo, hi) is exactly one segment of the stream: no cut falls inside it. */
  predicate IsSegment(cuts: set<nat>, lo: nat, hi: nat) {
    && lo in cuts && hi in cuts && lo < hi
    && forall c :: c in cuts ==> c <= lo || hi <= c
  }

  /** `data` is one whole segment, with the bytes originally written. */
  predicate SentSegment(s: Sender, lo: nat, data: seq<byte>) {
    && IsSegment(s.cuts, lo, lo + |data|)
    && lo + |data| <= |s.written|
    && data == s.written[lo..lo + |data|]
  }

  /** The queue is contiguous and covers [lo, hi) exactly. */
  predicate Tiles(q: seq<Segment>, lo: nat, hi: nat) {
    if q == [] then lo == hi
    else q[0].seqNo == lo && Tiles(q[1..], q[0].End(), hi)
  }

  predicate SegmentInv(s: Sender, seg: Segment, now: int) {
    && SentSegment(s, seg.seqNo, seg.data)
    && |seg.data| <= MAX_SEGMENT
    && seg.retries <= MAX_RETRIES
    && seg.sentAt <= now
  }

  predicate ControlInv(s: Sender) {
    && INITIAL_CWND <= s.cwnd <= RECV_BUF_MAX
    && 2 * MAX_SEGMENT <= s.ssthresh <= RECV_BUF_MAX
    && (s.peerWnd <= MAX_WINDOW || s.cwnd == INITIAL_CWND)
    && RttInv(s.rtt)
  }

  predicate OffsetsInv(s: Sender) {
    && s.next == |s.written|
    && 0 in s.cuts && s.next in s.cuts && s.unack in s.cuts
    && (forall c :: c in s.cuts ==> c <= s.next)
    && s.unack <= s.next <= s.unack + MAX_WINDOW
  }

  predicate SenderInv(s: Sender, now: int) {
    && OffsetsInv(s)
    && Tiles(s.queue, s.unack, s.next)
    && (forall seg :: seg in s.queue ==> SegmentInv(s, seg, now))
    && ControlInv(s)
  }

  predicate EndpointInv(e: Endpoint, now: int) {
    && SenderInv(e.snd, now)
    && e.finSent == e.closed
    && (e.reset <==> e.err.Some?)
    && MIN_RTO <= e.probeInterval <= MAX_RTO
    && (e.lastProbe.Some? ==> e.lastProbe.value <= now)
  }

  // ---- what the receiver holds, against what its peer sent ----

  predicate ParkedInv(x: Endpoint, k: nat, data: seq<byte>) {
    if data == [] then x.finSent && k == x.snd.next
    else SentSegment(x.snd, k, data)
  }

  predicate ReceiverInv(r: Receiver, x: Endpoint) {
    && r.next in x.snd.cuts && x.snd.unack <= r.next <= |x.snd.written|
    && r.delivered + r.buf == x.snd.written[..r.next]
    && (r.fin ==> x.finSent && r.next == x.snd.next)
    && (forall k :: k in r.ooo ==> r.next < k && ParkedInv(x, k, r.ooo[k]))
  }

  /** A frame x once sent to y. */
  predicate FrameInv(x: Endpoint, y: Endpoint, f: Frame) {
    && f.ack in y.snd.cuts && f.ack <= x.rcv.next
    && f.wnd <= MAX_WINDOW
    && f.seqNo <= x.snd.next
    && f.typ != FRAME_RST
    && |f.payload| <= MAX_SEGMENT
    && (f.payload != [] ==> f.typ == FRAME_DATA && SentSegment(x.snd, f.seqNo, f.payload))
    && (f.typ == FRAME_FIN ==> x.finSent && f.seqNo == x.snd.next)
  }

  predicate LogInv(x: Endpoint, y: Endpoint, log: seq<Frame>) {
    forall f :: f in log ==> FrameInv(x, y, f)
  }

  predicate SystemInv(s: System) {
    && EndpointInv(s.a, s.now) && EndpointInv(s.b, s.now)
    && ReceiverInv(s.a.rcv, s.b) && ReceiverInv(s.b.rcv, s.a)
    && LogInv(s.a, s.b, s.ab) && LogInv(s.b, s.a, s.ba)
    && -1 <= s.heardA < |s.ba| && -1 <= s.heardB < |s.ab|
  }

  lemma InitKeepsInv(now: int)
    ensures SystemInv(InitSystem(now))
  {
  }

  // ---- growth: what later writes leave alone ----

  /** x's history only grows; a finished stream does not grow at all. */
  predicate Grows(x: Endpoint, x': Endpoint) {
    && x.snd.cuts <= x'.snd.cuts
    && |x.snd.written| <= |x'.snd.written| && x'.snd.written[..|x.snd.written|] == x.snd.written
    && (forall c :: c in x'.snd.cuts && c !in x.snd.cuts ==> |x.snd.written| < c)
    && (x.finSent ==> x'.finSent && x'.snd.next == x.snd.next)
    && x.rcv.next <= x'.rcv.next
    && x.snd.next <= x'.snd.next
  }

  lemma SentSegmentGrows(x: Endpoint, x': Endpoint, lo: nat, data: seq<byte>)
    requires Grows(x, x') && SentSegment(x.snd, lo, data)
    ensures SentSegment(x'.snd, lo, data)
  {
    assert x'.snd.written[lo..lo + |data|] == x'.snd.written[..|x.snd.written|][lo..lo + |data|];
  }

  lemma LogGrows(x: Endpoint, x': Endpoint, y: Endpoint, y': Endpoint, log: seq<Frame>)
    requires LogInv(x, y, log) && Grows(x, x') && Grows(y, y')
    ensures LogInv(x', y', log)
  {
    forall f | f in log
      ensures FrameInv(x', y', f)
    {
      assert FrameInv(x, y, f);
      if f.payload != [] {
        SentSegmentGrows(x, x', f.seqNo, f.payload);
      }
    }
  }

  lemma ReceiverGrows(r: Receiver, x: Endpoint, x': Endpoint)
    requires ReceiverInv(r, x) && Grows(x, x') && x'.snd.unack <= r.next
    ensures ReceiverInv(r, x')
  {
    assert x'.snd.written[..r.next] == x'.snd.written[..|x.snd.written|][..r.next];
    forall k | k in r.ooo
      ensures ParkedInv(x', k, r.ooo[k])
    {
      assert ParkedInv(x, k, r.ooo[k]);
      if r.ooo[k] != [] {
        SentSegmentGrows(x, x', k, r.ooo[k]);
      }
    }
  }

  // ---- Write ----

  lemma {:induction false} TilesAppend(q: seq<Segment>, lo: nat, hi: nat, seg: Segment)
    requires Tiles(q, lo, hi) && seg.seqNo == hi
    ensures Tiles(q + [seg], lo, seg.End())
  {
    if q == [] {
      assert q + [seg] == [seg];
    } else {
      TilesAppend(q[1..], q[0].End(), hi, seg);
      assert (q + [seg])[1..] == q[1..] + [seg];
    }
  }

  lemma WriteGrows(e: Endpoint, p: seq<byte>, now: int)
    requires EndpointInv(e, now) && CanAct(e, [], Write(p))
    ensures Grows(e, WriteStep(e, p, now).0)
  {
  }

  lemma WriteKeepsEndpoint(e: Endpoint, p: seq<byte>, now: int)
    requires EndpointInv(e, now) && CanAct(e, [], Write(p))
    ensures EndpointInv(WriteStep(e, p, now).0, now)
    ensures var data := p[..SegmentSize(e.snd, p)];
            0 < |data| <= MAX_SEGMENT && SentSegment(WriteStep(e, p, now).0.snd, e.snd.next, data)
  {
    var n := SegmentSize(e.snd, p);
    var data := p[..n];
    var e' := WriteStep(e, p, now).0;
    var seg := Segment(e.snd.next, data, now, 0);
    WriteGrows(e, p, now);
    TilesAppend(e.snd.queue, e.snd.unack, e.snd.next, seg);
    assert e'.snd.written[e.snd.next..e.snd.next + n] == data;
    forall s | s in e'.snd.queue
      ensures SegmentInv(e'.snd, s, now)
    {
      if s in e.snd.queue {
        assert SegmentInv(e.snd, s, now);
        SentSegmentGrows(e, e', s.seqNo, s.data);
      } else {
        assert s == seg;
      }
    }
  }

  // ---- acknowledgements ----

  /**
   * An acknowledgement that falls on a cut removes exactly the segments before it: what is
   * left tiles [ack, hi), and the bytes counted are exactly those acknowledged.
   */
  lemma {:induction false} RetireTiles(s: Sender, q: seq<Segment>, lo: nat, hi: nat, ack: nat, now: int)
    requires Tiles(q, lo, hi) && lo <= ack <= hi && ack in s.cuts
    requires forall seg :: seg in q ==> SegmentInv(s, seg, now)
    ensures Tiles(Retire(q, ack), ack, hi)
    ensures AckedBytes(q, ack) == ack - lo
    ensures forall seg :: seg in Retire(q, ack) ==> seg in q
    decreases |q|
  {
    if q != [] {
      assert SegmentInv(s, q[0], now);
      assert lo == q[0].seqNo && lo < q[0].End();
      if q[0].End() <= ack {
        TilesOrder(q[1..], q[0].End(), hi);
        RetireTiles(s, q[1..], q[0].End(), hi, ack, now);
      } else {
        assert ack == lo;
        RetireNothing(s, q, lo, hi, ack, now);
      }
    }
  }

  lemma {:induction false} TilesOrder(q: seq<Segment>, lo: nat, hi: nat)
    requires Tiles(q, lo, hi)
    ensures lo <= hi
    decreases |q|
  {
    if q != [] {
      TilesOrder(q[1..], q[0].End(), hi);
    }
  }

  lemma {:induction false} RetireNothing(s: Sender, q: seq<Segment>, lo: nat, hi: nat, ack: nat, now: int)
    requires Tiles(q, lo, hi) && ack <= lo
    requires forall seg :: seg in q ==> SegmentInv(s, seg, now)
    ensures Retire(q, ack) == q && AckedBytes(q, ack) == 0
    decreases |q|
  {
    if q != [] {
      var head, rest := q[0], q[1..];
      assert SegmentInv(s, head, now);
      RetireNothing(s, rest, head.End(), hi, ack, now);
      assert head.End() > ack && q == [head] + rest;
    }
  }

  lemma {:induction false} SamplesKeepInv(q: seq<Segment>, ack: nat, now: int, rtt: Rtt)
    requires RttInv(rtt)
    requires forall seg :: seg in q ==> seg.sentAt <= now
    ensures RttInv(SampleRetired(q, ack, now, rtt))
    decreases |q|
  {
    if q != [] {
      var rtt' := if q[0].End() <= ack && q[0].retries == 0 then UpdateRTT(rtt, now - q[0].sentAt) else rtt;
      UpdateKeepsInv(rtt, now - q[0].sentAt);
      SamplesKeepInv(q[1..], ack, now, rtt');
    }
  }

  /**
   * Window growth stays in range, and so does everything the program computes on the way in
   * 32 bits: the product and the sum before the cap.
   */
  lemma GrowCwndInRange(cwnd: nat, ssthresh: nat, acked: nat)
    requires INITIAL_CWND <= cwnd <= RECV_BUF_MAX && acked <= MAX_WINDOW
    ensures cwnd <= GrowCwnd(cwnd, ssthresh, acked) <= RECV_BUF_MAX
    ensures MAX_SEGMENT * acked < 0x1_0000_0000
    ensures cwnd + acked < 0x1_0000_0000
    ensures 0 <= MAX_SEGMENT * acked / cwnd <= acked
  {
    assert MAX_SEGMENT * acked <= cwnd * acked;
    DivBound(MAX_SEGMENT * acked, cwnd, acked);
  }

  lemma DivBound(n: nat, d: nat, q: nat)
    requires 0 < d && n <= d * q
    ensures 0 <= n / d <= q
  {
    assert n < d * (q + 1);
  }

  lemma SampledRtt(s: Sender, ack: nat, now: int)
    requires SenderInv(s, now)
    ensures RttInv(SampleRetired(s.queue, ack, now, s.rtt))
  {
    forall seg | seg in s.queue
      ensures seg.sentAt <= now
    {
      assert SegmentInv(s, seg, now);
    }
    SamplesKeepInv(s.queue, ack, now, s.rtt);
  }

  lemma ProcessAckKeepsSender(s: Sender, ack: nat, now: int)
    requires SenderInv(s, now) && s.peerWnd <= MAX_WINDOW && ack in s.cuts
    ensures SenderInv(ProcessAck(s, ack, now), now)
    ensures ProcessAck(s, ack, now).unack == Max(s.unack, ack)
  {
    if ack > s.unack {
      var s' := ProcessAck(s, ack, now);
      RetireTiles(s, s.queue, s.unack, s.next, ack, now);
      SampledRtt(s, ack, now);
      GrowCwndInRange(s.cwnd, s.ssthresh, ack - s.unack);
      assert ControlInv(s') && OffsetsInv(s');
      SegmentsSurvive(s, s', now);
    }
  }

  /** A sender with the same history and a smaller queue keeps its segments in order. */
  lemma SegmentsSurvive(s: Sender, s': Sender, now: int)
    requires forall seg :: seg in s.queue ==> SegmentInv(s, seg, now)
    requires s'.written == s.written && s'.cuts == s.cuts
    requires forall seg :: seg in s'.queue ==> seg in s.queue
    ensures forall seg :: seg in s'.queue ==> SegmentInv(s', seg, now)
  {
    forall seg | seg in s'.queue
      ensures SegmentInv(s', seg, now)
    {
      assert SegmentInv(s, seg, now);
    }
  }

  // ---- receiving ----

  /** The receiver in the middle of a drain: an entry may begin exactly at `next`. */
  predicate DrainInv(r: Receiver, x: Endpoint) {
    && r.next in x.snd.cuts && x.snd.unack <= r.next <= |x.snd.written|
    && r.delivered + r.buf == x.snd.written[..r.next]
    && (r.fin ==> x.finSent && r.next == x.snd.next)
    && (forall k :: k in r.ooo ==> r.next <= k && ParkedInv(x, k, r.ooo[k]))
  }

  lemma RoundKeepsInv(r: Receiver, x: Endpoint)
    requires OffsetsInv(x.snd) && DrainInv(r, x) && r.next in r.ooo
    ensures DrainInv(DrainRound(r), x)
  {
    var data := r.ooo[r.next];
    var r' := DrainRound(r);
    assert ParkedInv(x, r.next, data);
    if data != [] {
      AppendExtends(r, x, data);
    }
    forall k | k in r'.ooo
      ensures r'.next <= k && ParkedInv(x, k, r'.ooo[k])
    {
      assert ParkedInv(x, k, r.ooo[k]);
    }
  }

  lemma {:induction false} DrainKeepsInv(r: Receiver, x: Endpoint)
    requires OffsetsInv(x.snd) && DrainInv(r, x)
    ensures ReceiverInv(Drain(r), x)
    ensures r.next <= Drain(r).next && Drain(r).delivered == r.delivered
    decreases |r.ooo|
  {
    if r.next in r.ooo {
      RemoveShrinks(r.ooo, r.next);
      RoundKeepsInv(r, x);
      var after := DrainRound(r);
      if r.ooo[r.next] == [] {
        assert Drain(r) == after;
      } else {
        assert Drain(r) == Drain(after);
        DrainKeepsInv(after, x);
      }
    } else {
      assert Drain(r) == r;
    }
  }

  lemma AppendExtends(r: Receiver, x: Endpoint, data: seq<byte>)
    requires SentSegment(x.snd, r.next, data)
    requires r.delivered + r.buf == x.snd.written[..r.next]
    ensures r.delivered + (r.buf + data) == x.snd.written[..r.next + |data|]
  {
    assert x.snd.written[..r.next + |data|] == x.snd.written[..r.next] + data;
    assert r.delivered + (r.buf + data) == (r.delivered + r.buf) + data;
  }

  /**
   * A data frame is either old in full or lies wholly at or above `next`: the partial-overlap
   * trim never runs.
   */
  lemma NeverPartialOverlap(r: Receiver, x: Endpoint, lo: nat, data: seq<byte>)
    requires ReceiverInv(r, x) && SentSegment(x.snd, lo, data)
    ensures lo + |data| <= r.next || r.next <= lo
  {
  }

  lemma AcceptDataKeepsInv(r: Receiver, x: Endpoint, lo: nat, data: seq<byte>)
    requires OffsetsInv(x.snd) && ReceiverInv(r, x) && SentSegment(x.snd, lo, data)
    ensures ReceiverInv(AcceptData(r, lo, data), x)
    ensures r.next <= AcceptData(r, lo, data).next
    ensures AcceptData(r, lo, data).delivered == r.delivered
  {
    NeverPartialOverlap(r, x, lo, data);
    if r.next == lo {
      AppendedInv(r, x, data);
      DrainKeepsInv(Appended(r, data), x);
    }
  }

  lemma AppendedInv(r: Receiver, x: Endpoint, data: seq<byte>)
    requires OffsetsInv(x.snd) && ReceiverInv(r, x) && SentSegment(x.snd, r.next, data)
    ensures DrainInv(Appended(r, data), x)
  {
    AppendExtends(r, x, data);
    forall k | k in r.ooo
      ensures r.next + |data| <= k && ParkedInv(x, k, r.ooo[k])
    {
      assert ParkedInv(x, k, r.ooo[k]);
    }
  }

  lemma AcceptFinKeepsInv(r: Receiver, x: Endpoint)
    requires OffsetsInv(x.snd) && ReceiverInv(r, x) && x.finSent
    ensures ReceiverInv(AcceptFin(r, x.snd.next), x)
    // The FIN takes a free place: no parked data is displaced.
    ensures x.snd.next in r.ooo ==> r.ooo[x.snd.next] == []
  {
    if x.snd.next in r.ooo {
      assert ParkedInv(x, x.snd.next, r.ooo[x.snd.next]);
    }
  }

  // ---- timers ----

  /** Same segments, possibly resent: what the pass over the queue may do to it. */
  predicate Resent(q: seq<Segment>, q': seq<Segment>, now: int) {
    && |q| == |q'|
    && forall i :: 0 <= i < |q| ==> ResentSegment(q[i], q'[i], now)
  }

  predicate ResentSegment(s: Segment, s': Segment, now: int) {
    && s'.seqNo == s.seqNo && s'.data == s.data
    && (s' == s || (s'.sentAt == now && s'.retries == s.retries + 1 && s.retries < MAX_RETRIES))
  }

  lemma {:induction false} ScanResends(q: seq<Segment>, now: int, rto: int)
    ensures var scan := ScanQueue(q, now, rto);
            && Resent(q, scan.queue, now)
            && (forall seg :: seg in scan.resent ==> seg in scan.queue)
    decreases |q|
  {
    if q != [] {
      ScanResends(q[1..], now, rto);
      var scan := ScanQueue(q, now, rto);
      var rest := ScanQueue(q[1..], now, rto);
      if scan.queue != q {
        forall i | 0 <= i < |q|
          ensures ResentSegment(q[i], scan.queue[i], now)
        {
          if i > 0 {
            assert q[i] == q[1..][i - 1];
            assert scan.queue[i] == rest.queue[i - 1];
          }
        }
      }
    }
  }

  lemma {:induction false} TilesResent(q: seq<Segment>, q': seq<Segment>, lo: nat, hi: nat, now: int)
    requires Tiles(q, lo, hi) && Resent(q, q', now)
    ensures Tiles(q', lo, hi)
    decreases |q|
  {
    if q != [] {
      assert ResentSegment(q[0], q'[0], now);
      assert Resent(q[1..], q'[1..], now) by {
        forall i | 0 <= i < |q| - 1
          ensures ResentSegment(q[1..][i], q'[1..][i], now)
        {
          assert ResentSegment(q[i + 1], q'[i + 1], now);
        }
      }
      TilesResent(q[1..], q'[1..], q[0].End(), hi, now);
    }
  }

  lemma ResentKeepsSender(s: Sender, q': seq<Segment>, now: int)
    requires SenderInv(s, now) && Resent(s.queue, q', now)
    ensures SenderInv(s.(queue := q'), now)
  {
    TilesResent(s.queue, q', s.unack, s.next, now);
    forall seg | seg in q'
      ensures SegmentInv(s.(queue := q'), seg, now)
    {
      var i :| 0 <= i < |q'| && q'[i] == seg;
      assert ResentSegment(s.queue[i], q'[i], now);
      assert SegmentInv(s, s.queue[i], now);
    }
  }

  lemma LossKeepsSender(s: Sender, now: int)
    requires SenderInv(s, now)
    ensures SenderInv(OnLoss(s), now)
  {
    SegmentsSurvive(s, OnLoss(s), now);
  }

  lemma ProbeKeepsEndpoint(e: Endpoint, now: int)
    requires EndpointInv(e, now)
    ensures var e' := ProbeStep(e, now).0; EndpointInv(e', now) && e'.snd == e.snd && e'.rcv == e.rcv
    ensures ProbeStep(e, now).0.finSent == e.finSent && ProbeStep(e, now).0.reset == e.reset
  {
  }

  lemma TickKeepsEndpoint(e: Endpoint, now: int)
    requires EndpointInv(e, now)
    ensures var (e', out) := TickStep(e, now);
            && EndpointInv(e', now)
            && Grows(e, e') && e'.rcv == e.rcv && e'.snd.unack == e.snd.unack
  {
    if !e.reset {
      var scan := ScanQueue(e.snd.queue, now, e.snd.rtt.rto);
      PassKeepsSender(e, scan, now);
      if scan.dead.None? {
        ProbeKeepsEndpoint(AfterScan(e, scan), now);
      }
    }
  }

  /** The outcomes of the pass, before the probe. */
  lemma PassKeepsSender(e: Endpoint, scan: Scan, now: int)
    requires EndpointInv(e, now) && scan == ScanQueue(e.snd.queue, now, e.snd.rtt.rto)
    ensures scan.dead.None? ==> EndpointInv(AfterScan(e, scan), now) && Grows(e, AfterScan(e, scan))
                                && AfterScan(e, scan).snd.unack == e.snd.unack
    ensures scan.dead.Some? ==> EndpointInv(Die(e, scan), now) && Grows(e, Die(e, scan))
                                && Die(e, scan).snd.unack == e.snd.unack
  {
    ScanResends(e.snd.queue, now, e.snd.rtt.rto);
    ResentKeepsSender(e.snd, scan.queue, now);
    LossKeepsSender(e.snd.(queue := scan.queue), now);
  }

  lemma ResentFrames(x: Endpoint, y: Endpoint, now: int)
    requires EndpointInv(x, now) && ReceiverInv(x.rcv, y) && OffsetsInv(y.snd)
    ensures LogInv(x, y, Frames(x, ScanQueue(x.snd.queue, now, x.snd.rtt.rto).resent))
  {
    var scan := ScanQueue(x.snd.queue, now, x.snd.rtt.rto);
    ScanResends(x.snd.queue, now, x.snd.rtt.rto);
    ResentKeepsSender(x.snd, scan.queue, now);
    forall f | f in Frames(x, scan.resent)
      ensures FrameInv(x, y, f)
    {
      var i :| 0 <= i < |scan.resent| && f == MakeFrame(x, FRAME_DATA, scan.resent[i].seqNo, scan.resent[i].data);
      assert SegmentInv(x.snd.(queue := scan.queue), scan.resent[i], now);
    }
  }

  /** A frame without payload, made in the current state, satisfies the frame invariant. */
  lemma EmptyFrame(x: Endpoint, y: Endpoint, now: int, f: Frame)
    requires EndpointInv(x, now) && ReceiverInv(x.rcv, y) && OffsetsInv(y.snd)
    requires f == MakeFrame(x, FRAME_ACK, x.snd.next, []) || f == MakeFrame(x, FRAME_DATA, x.snd.next, [])
    ensures FrameInv(x, y, f)
  {
  }

  /** Every frame Tick sends satisfies the frame invariant. */
  lemma TickFrames(x: Endpoint, y: Endpoint, now: int)
    requires EndpointInv(x, now) && ReceiverInv(x.rcv, y) && OffsetsInv(y.snd)
    ensures LogInv(x, y, TickStep(x, now).1)
  {
    if !x.reset {
      ResentFrames(x, y, now);
      EmptyFrame(x, y, now, MakeFrame(x, FRAME_ACK, x.snd.next, []));
      EmptyFrame(x, y, now, MakeFrame(x, FRAME_DATA, x.snd.next, []));
    }
  }

  // ---- the step, one action at a time ----

  lemma LaterEndpoint(e: Endpoint, now: int, later: int)
    requires EndpointInv(e, now) && now <= later
    ensures EndpointInv(e, later)
  {
    forall seg | seg in e.snd.queue
      ensures SegmentInv(e.snd, seg, later)
    {
      assert SegmentInv(e.snd, seg, now);
    }
  }

  lemma LogAppend(x: Endpoint, y: Endpoint, log: seq<Frame>, more: seq<Frame>)
    requires LogInv(x, y, log) && LogInv(x, y, more)
    ensures LogInv(x, y, log + more)
  {
  }

  /** The outcome of an action of one side, in the form the other side needs it. */
  predicate ActedWell(x: Endpoint, x': Endpoint, out: seq<Frame>, y: Endpoint, now: int) {
    && EndpointInv(x', now)
    && ReceiverInv(x'.rcv, y)
    && Grows(x, x')
    && x'.snd.unack <= y.rcv.next
    && LogInv(x', y, out)
  }

  lemma DeliverActsWell(x: Endpoint, y: Endpoint, f: Frame, now: int)
    requires EndpointInv(x, now) && EndpointInv(y, now) && ReceiverInv(x.rcv, y) && ReceiverInv(y.rcv, x)
    requires FrameInv(y, x, f)
    ensures ActedWell(x, OnFrameStep(x, f, now), [], y, now)
  {
    var s1 := x.snd.(peerWnd := f.wnd);
    assert SenderInv(s1, now) by {
      forall seg | seg in s1.queue
        ensures SegmentInv(s1, seg, now)
      {
        assert SegmentInv(x.snd, seg, now);
      }
    }
    ProcessAckKeepsSender(s1, f.ack, now);
    if f.typ == FRAME_FIN {
      AcceptFinKeepsInv(x.rcv, y);
    } else if f.typ == FRAME_DATA && f.payload != [] {
      AcceptDataKeepsInv(x.rcv, y, f.seqNo, f.payload);
    }
  }

  lemma WriteActsWell(x: Endpoint, y: Endpoint, p: seq<byte>, now: int)
    requires EndpointInv(x, now) && OffsetsInv(y.snd) && ReceiverInv(x.rcv, y) && ReceiverInv(y.rcv, x)
    requires CanAct(x, [], Write(p))
    ensures var (x', out) := WriteStep(x, p, now); ActedWell(x, x', out, y, now)
  {
    WriteGrows(x, p, now);
    WriteKeepsEndpoint(x, p, now);
  }

  lemma ReadActsWell(x: Endpoint, y: Endpoint, cap: nat, now: int)
    requires EndpointInv(x, now) && ReceiverInv(x.rcv, y) && ReceiverInv(y.rcv, x)
    ensures ActedWell(x, ReadStep(x, cap), [], y, now)
  {
    if x.rcv.buf != [] {
      var n := Min(cap, |x.rcv.buf|);
      var r' := ReadStep(x, cap).rcv;
      assert x.rcv.buf[..n] + x.rcv.buf[n..] == x.rcv.buf;
      assert r'.delivered + r'.buf == x.rcv.delivered + (x.rcv.buf[..n] + x.rcv.buf[n..]);
    }
  }

  lemma TickActsWell(x: Endpoint, y: Endpoint, now: int)
    requires EndpointInv(x, now) && OffsetsInv(y.snd) && ReceiverInv(x.rcv, y) && ReceiverInv(y.rcv, x)
    ensures var (x', out) := TickStep(x, now); ActedWell(x, x', out, y, now)
  {
    TickKeepsEndpoint(x, now);
    TickFrames(x, y, now);
    var (x', out) := TickStep(x, now);
    LogGrows(x, x', y, y, out);
  }

  lemma ActsWell(x: Endpoint, y: Endpoint, inbox: seq<Frame>, act: Action, now: int)
    requires EndpointInv(x, now) && EndpointInv(y, now) && ReceiverInv(x.rcv, y) && ReceiverInv(y.rcv, x)
    requires LogInv(y, x, inbox) && CanAct(x, inbox, act)
    ensures var (x', out) := Act(x, inbox, act, now); ActedWell(x, x', out, y, now)
  {
    match act
    case Write(p) => WriteActsWell(x, y, p, now);
    case Read(cap) => ReadActsWell(x, y, cap, now);
    case Close =>
    case Ack =>
    case Tick => TickActsWell(x, y, now);
    case Deliver(i) =>
      assert FrameInv(y, x, inbox[i]);
      DeliverActsWell(x, y, inbox[i], now);
  }

  lemma StepAKeepsInv(s: System, act: Action, now: int)
    requires SystemInv(s) && s.now <= now && CanAct(s.a, s.ba, act)
    ensures SystemInv(StepA(s, act, now))
  {
    LaterEndpoint(s.a, s.now, now);
    LaterEndpoint(s.b, s.now, now);
    ActsWell(s.a, s.b, s.ba, act, now);
    var (a, out) := Act(s.a, s.ba, act, now);
    LogGrows(s.a, a, s.b, s.b, s.ab);
    LogGrows(s.b, s.b, s.a, a, s.ba);
    LogAppend(a, s.b, s.ab, out);
    ReceiverGrows(s.b.rcv, s.a, a);
  }

  lemma StepKeepsInv(s: System, ev: Event)
    requires SystemInv(s) && Enabled(s, ev)
    ensures SystemInv(Step(s, ev))
  {
    if ev.side.A? {
      StepAKeepsInv(s, ev.action, ev.now);
    } else {
      StepAKeepsInv(Swap(s), ev.action, ev.now);
    }
  }

  lemma {:induction false} RunKeepsInv(s: System, evs: seq<Event>)
    requires SystemInv(s) && Runs(s, evs)
    ensures SystemInv(After(s, evs))
    decreases |evs|
  {
    if evs != [] {
      StepKeepsInv(s, evs[0]);
      RunKeepsInv(Step(s, evs[0]), evs[1..]);
    }
  }

  /** Every state of every run, under any loss, duplication and reordering. */
  lemma ReachableInv(s: System)
    requires Reachable(s)
    ensures SystemInv(s)
  {
    var t0: int, evs: seq<Event> :| Runs(InitSystem(t0), evs) && s == After(InitSystem(t0), evs);
    InitKeepsInv(t0);
    RunKeepsInv(InitSystem(t0), evs);
  }
}
