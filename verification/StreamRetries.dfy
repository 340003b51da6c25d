/** How often each segment goes onto the wire. */
module StreamRetries {
  import opened Basics
  import opened StreamProtocol
  import opened StreamSystem
  import opened StreamInvariant

  /** The number of frames in the log that carry the data of the segment at offset k. */
  function Transmissions(log: seq<Frame>, k: nat): nat {
    if log == [] then 0
    else (if log[0].payload != [] && log[0].seqNo == k then 1 else 0) + Transmissions(log[1..], k)
  }

  function CountSegments(q: seq<Segment>, k: nat): nat {
    if q == [] then 0 else (if q[0].seqNo == k then 1 else 0) + CountSegments(q[1..], k)
  }

  lemma {:induction false} TransmissionsAppend(a: seq<Frame>, b: seq<Frame>, k: nat)
    ensures Transmissions(a + b, k) == Transmissions(a, k) + Transmissions(b, k)
    decreases |a|
  {
    if a == [] {
      assert a + b == b;
    } else {
      assert (a + b)[1..] == a[1..] + b;
      TransmissionsAppend(a[1..], b, k);
    }
  }

  lemma {:induction false} TransmissionsOfFrames(e: Endpoint, segs: seq<Segment>, k: nat)
    requires forall seg :: seg in segs ==> seg.data != []
    ensures Transmissions(Frames(e, segs), k) == CountSegments(segs, k)
    decreases |segs|
  {
    if segs != [] {
      assert Frames(e, segs)[1..] == Frames(e, segs[1..]);
      TransmissionsOfFrames(e, segs[1..], k);
    }
  }

  lemma {:induction false} TilesStartAbove(s: Sender, q: seq<Segment>, lo: nat, hi: nat, now: int)
    requires Tiles(q, lo, hi)
    requires forall seg :: seg in q ==> SegmentInv(s, seg, now)
    ensures forall seg :: seg in q ==> lo <= seg.seqNo < hi
    decreases |q|
  {
    if q != [] {
      assert SegmentInv(s, q[0], now);
      TilesStartAbove(s, q[1..], q[0].End(), hi, now);
      TilesOrder(q[1..], q[0].End(), hi);
      assert forall seg :: seg in q ==> seg == q[0] || seg in q[1..];
    }
  }

  lemma {:induction false} ScanWithin(s: Sender, q: seq<Segment>, lo: nat, hi: nat, now: int, rto: int)
    requires Tiles(q, lo, hi)
    requires forall seg :: seg in q ==> SegmentInv(s, seg, now)
    ensures var scan := ScanQueue(q, now, rto);
            |scan.queue| == |q| && forall seg :: seg in scan.resent ==> seg.seqNo >= lo && seg.data != []
    decreases |q|
  {
    if q != [] {
      assert SegmentInv(s, q[0], now);
      ScanWithin(s, q[1..], q[0].End(), hi, now, rto);
    }
  }

  lemma {:induction false} ScanSkips(q: seq<Segment>, now: int, rto: int, k: nat)
    requires forall seg :: seg in q ==> seg.seqNo != k
    ensures CountSegments(ScanQueue(q, now, rto).resent, k) == 0
    decreases |q|
  {
    if q != [] {
      assert q[0] in q;
      ScanSkips(q[1..], now, rto, k);
    }
  }

  lemma TailStartsAbove(s: Sender, q: seq<Segment>, lo: nat, hi: nat, now: int)
    requires Tiles(q, lo, hi) && q != []
    requires forall seg :: seg in q ==> SegmentInv(s, seg, now)
    ensures forall seg :: seg in q[1..] ==> seg.seqNo > q[0].seqNo
  {
    assert SegmentInv(s, q[0], now);
    TilesStartAbove(s, q[1..], q[0].End(), hi, now);
  }

  /** One pass of Tick resends a segment exactly when it counts a retry for it. */
  lemma {:induction false} ScanCounts(s: Sender, q: seq<Segment>, lo: nat, hi: nat, now: int, rto: int, i: nat)
    requires Tiles(q, lo, hi) && i < |q|
    requires forall seg :: seg in q ==> SegmentInv(s, seg, now)
    ensures var scan := ScanQueue(q, now, rto);
            |scan.queue| == |q| && CountSegments(scan.resent, q[i].seqNo) == scan.queue[i].retries - q[i].retries
    decreases |q|
  {
    ScanWithin(s, q, lo, hi, now, rto);
    TailStartsAbove(s, q, lo, hi, now);
    if i == 0 {
      ScanSkips(q[1..], now, rto, q[0].seqNo);
    } else {
      assert q[i] == q[1..][i - 1] && q[i] in q[1..];
      ScanCounts(s, q[1..], q[0].End(), hi, now, rto, i - 1);
    }
  }

  predicate RetriesMatch(x: Endpoint, log: seq<Frame>, seg: Segment) {
    && 1 <= Transmissions(log, seg.seqNo) <= 1 + seg.retries
    && (!x.reset ==> Transmissions(log, seg.seqNo) == 1 + seg.retries)
  }

  ghost predicate RetryInv(x: Endpoint, log: seq<Frame>) {
    && (forall seg :: seg in x.snd.queue ==> RetriesMatch(x, log, seg))
    && (forall k: nat :: Transmissions(log, k) <= 1 + MAX_RETRIES)
    && (forall k: nat :: x.snd.next <= k ==> Transmissions(log, k) == 0)
  }

  lemma WriteKeepsRetries(x: Endpoint, log: seq<Frame>, p: seq<byte>, now: int)
    requires EndpointInv(x, now) && RetryInv(x, log) && CanAct(x, [], Write(p))
    ensures var (x', out) := WriteStep(x, p, now); RetryInv(x', log + out)
  {
    var (x', out) := WriteStep(x, p, now);
    WriteKeepsEndpoint(x, p, now);
    TilesStartAbove(x.snd, x.snd.queue, x.snd.unack, x.snd.next, now);
    forall k: nat
      ensures Transmissions(log + out, k) == Transmissions(log, k) + (if k == x.snd.next then 1 else 0)
    {
      TransmissionsAppend(log, out, k);
      assert out[1..] == [];
    }
  }

  lemma TickLogCounts(x: Endpoint, log: seq<Frame>, now: int, k: nat)
    requires EndpointInv(x, now) && !x.reset
    ensures var scan := ScanQueue(x.snd.queue, now, x.snd.rtt.rto);
            Transmissions(log + TickStep(x, now).1, k)
            == Transmissions(log, k) + if scan.dead.None? then CountSegments(scan.resent, k) else 0
  {
    TickTransmissions(x, now, k);
    TransmissionsAppend(log, TickStep(x, now).1, k);
  }

  lemma TickMatches(x: Endpoint, log: seq<Frame>, now: int, i: nat)
    requires EndpointInv(x, now) && RetryInv(x, log) && !x.reset && i < |x.snd.queue|
    ensures var scan, (x', out) := ScanQueue(x.snd.queue, now, x.snd.rtt.rto), TickStep(x, now);
            && |scan.queue| == |x.snd.queue| && RetriesMatch(x', log + out, scan.queue[i])
            && scan.queue[i].retries <= MAX_RETRIES && scan.queue[i].seqNo == x.snd.queue[i].seqNo
  {
    var seg := x.snd.queue[i];
    ScanResends(x.snd.queue, now, x.snd.rtt.rto);
    ScanCounts(x.snd, x.snd.queue, x.snd.unack, x.snd.next, now, x.snd.rtt.rto, i);
    TickLogCounts(x, log, now, seg.seqNo);
    assert seg in x.snd.queue;
    assert RetriesMatch(x, log, seg) && SegmentInv(x.snd, seg, now);
    assert ResentSegment(seg, ScanQueue(x.snd.queue, now, x.snd.rtt.rto).queue[i], now);
  }

  /** A segment that is not in the queue is not sent again. */
  lemma TickBound(x: Endpoint, log: seq<Frame>, now: int, k: nat)
    requires EndpointInv(x, now) && RetryInv(x, log) && !x.reset
    ensures Transmissions(log + TickStep(x, now).1, k) <= 1 + MAX_RETRIES
    ensures x.snd.next <= k ==> Transmissions(log + TickStep(x, now).1, k) == 0
  {
    if i :| 0 <= i < |x.snd.queue| && x.snd.queue[i].seqNo == k {
      TickMatches(x, log, now, i);
      TilesStartAbove(x.snd, x.snd.queue, x.snd.unack, x.snd.next, now);
      assert x.snd.queue[i] in x.snd.queue;
    } else {
      TickLogCounts(x, log, now, k);
      ScanSkips(x.snd.queue, now, x.snd.rtt.rto, k);
    }
  }

  lemma TickQueue(x: Endpoint, now: int, seg: Segment) returns (i: nat)
    requires EndpointInv(x, now) && !x.reset && seg in TickStep(x, now).0.snd.queue
    ensures var scan := ScanQueue(x.snd.queue, now, x.snd.rtt.rto);
            i < |x.snd.queue| == |scan.queue| && scan.queue[i] == seg
  {
    ScanResends(x.snd.queue, now, x.snd.rtt.rto);
    var q := ScanQueue(x.snd.queue, now, x.snd.rtt.rto).queue;
    assert TickStep(x, now).0.snd.queue == q;
    i :| 0 <= i < |q| && q[i] == seg;
  }

  lemma TickKeepsRetries(x: Endpoint, log: seq<Frame>, now: int)
    requires EndpointInv(x, now) && RetryInv(x, log)
    ensures var (x', out) := TickStep(x, now); RetryInv(x', log + out)
  {
    var (x', out) := TickStep(x, now);
    if x.reset {
      assert log + out == log;
    } else {
      forall k: nat
        ensures Transmissions(log + out, k) <= 1 + MAX_RETRIES
        ensures x.snd.next <= k ==> Transmissions(log + out, k) == 0
      {
        TickBound(x, log, now, k);
      }
      forall seg | seg in x'.snd.queue
        ensures RetriesMatch(x', log + out, seg)
      {
        var i := TickQueue(x, now, seg);
        TickMatches(x, log, now, i);
      }
      assert x'.snd.next == x.snd.next;
    }
  }

  lemma TickTransmissions(x: Endpoint, now: int, k: nat)
    requires EndpointInv(x, now) && !x.reset
    ensures var scan := ScanQueue(x.snd.queue, now, x.snd.rtt.rto);
            Transmissions(TickStep(x, now).1, k) == if scan.dead.None? then CountSegments(scan.resent, k) else 0
  {
    var scan := ScanQueue(x.snd.queue, now, x.snd.rtt.rto);
    ScanWithin(x.snd, x.snd.queue, x.snd.unack, x.snd.next, now, x.snd.rtt.rto);
    if scan.dead.None? {
      var probe := ProbeStep(AfterScan(x, scan), now).1;
      var ack := if x.ackPending then [MakeFrame(AfterScan(x, scan), FRAME_ACK, x.snd.next, [])] else [];
      assert TickStep(x, now).1 == Frames(x, scan.resent) + probe + ack;
      TransmissionsOfFrames(x, scan.resent, k);
      TransmissionsAppend(Frames(x, scan.resent) + probe, ack, k);
      TransmissionsAppend(Frames(x, scan.resent), probe, k);
      Empty(probe, k);
      Empty(ack, k);
    }
  }

  lemma {:induction false} Empty(fs: seq<Frame>, k: nat)
    requires forall f :: f in fs ==> f.payload == []
    ensures Transmissions(fs, k) == 0
  {
    if fs != [] {
      Empty(fs[1..], k);
    }
  }

  lemma OtherKeepsRetries(x: Endpoint, y: Endpoint, log: seq<Frame>, inbox: seq<Frame>, act: Action, now: int)
    requires EndpointInv(x, now) && RetryInv(x, log) && CanAct(x, inbox, act) && LogInv(y, x, inbox)
    requires !act.Write? && !act.Tick?
    ensures var (x', out) := Act(x, inbox, act, now); RetryInv(x', log + out)
  {
    var (x', out) := Act(x, inbox, act, now);
    forall k: nat
      ensures Transmissions(log + out, k) == Transmissions(log, k)
    {
      TransmissionsAppend(log, out, k);
      Empty(out, k);
    }
    if act.Deliver? {
      var f := inbox[act.index];
      assert FrameInv(y, x, f);
      if f.ack > x.snd.unack {
        RetireTiles(x.snd, x.snd.queue, x.snd.unack, x.snd.next, f.ack, now);
      }
    }
    forall seg | seg in x'.snd.queue
      ensures RetriesMatch(x', log + out, seg)
    {
      assert RetriesMatch(x, log, seg);
    }
  }

  lemma StepKeepsRetries(s: System, ev: Event)
    requires SystemInv(s) && Enabled(s, ev) && RetryInv(s.a, s.ab) && RetryInv(s.b, s.ba)
    ensures var s' := Step(s, ev); RetryInv(s'.a, s'.ab) && RetryInv(s'.b, s'.ba)
  {
    LaterEndpoint(s.a, s.now, ev.now);
    LaterEndpoint(s.b, s.now, ev.now);
    var t := if ev.side.A? then s else Swap(s);
    match ev.action
    case Write(p) => WriteKeepsRetries(t.a, t.ab, p, ev.now);
    case Tick => TickKeepsRetries(t.a, t.ab, ev.now);
    case _ => OtherKeepsRetries(t.a, t.b, t.ab, t.ba, ev.action, ev.now);
  }

  lemma {:induction false} RunKeepsRetries(s: System, evs: seq<Event>)
    requires SystemInv(s) && Runs(s, evs) && RetryInv(s.a, s.ab) && RetryInv(s.b, s.ba)
    ensures var s' := After(s, evs); SystemInv(s') && RetryInv(s'.a, s'.ab) && RetryInv(s'.b, s'.ba)
    decreases |evs|
  {
    if evs != [] {
      StepKeepsInv(s, evs[0]);
      StepKeepsRetries(s, evs[0]);
      RunKeepsRetries(Step(s, evs[0]), evs[1..]);
    }
  }

  /**
   * In every run each segment goes onto the wire at most 13 times, counted over all the
   * frames ever sent; while the stream lives the retry counter is exactly that count less
   * one, so a segment the estimator samples was indeed sent only once.
   */
  lemma TransmissionsAreBounded(s: System)
    requires Reachable(s)
    ensures forall k: nat :: Transmissions(s.ab, k) <= 13
    ensures !s.a.reset ==>
              forall seg :: seg in s.a.snd.queue ==> Transmissions(s.ab, seg.seqNo) == 1 + seg.retries
    ensures forall seg :: seg in s.a.snd.queue && seg.retries == 0 ==> Transmissions(s.ab, seg.seqNo) == 1
  {
    var t0: int, evs: seq<Event> :| Runs(InitSystem(t0), evs) && s == After(InitSystem(t0), evs);
    InitKeepsInv(t0);
    RunKeepsRetries(InitSystem(t0), evs);
    forall seg | seg in s.a.snd.queue
      ensures RetriesMatch(s.a, s.ab, seg)
    {
    }
  }
}
