/**
 * The reliable byte stream over unbounded offsets.
 *
 * Sequence numbers here are true byte offsets. The class in Stream.dfy keeps them modulo
 * 2^32 as the program does, and is proved to follow these functions step by step. Every
 * function below is one lock-held region of the program, with the clock as a parameter.
 */
module StreamProtocol {
  import opened Basics
  import opened RttEstimator

  const FRAME_DATA: byte := 1
  const FRAME_ACK: byte := 2
  const FRAME_FIN: byte := 3
  const FRAME_RST: byte := 4

  const MAX_SEGMENT: int := 1200
  const RECV_BUF_MAX: int := 262144
  const MAX_WINDOW: int := 65535
  const INITIAL_CWND: int := 4 * MAX_SEGMENT
  const MAX_RETRIES: int := 12

  datatype Frame = Frame(typ: byte, seqNo: nat, ack: nat, wnd: nat, payload: seq<byte>)

  datatype Segment = Segment(seqNo: nat, data: seq<byte>, sentAt: int, retries: nat) {
    function End(): nat { seqNo + |data| }
  }

  datatype StreamError = ErrClosed | ErrReset | ErrUnreachable(seqNo: nat, retries: nat)

  /**
   * The send side. `written` and `cuts` are history: every byte ever accepted by Write and
   * every offset at which a segment begins or ends.
   */
  datatype Sender = Sender(
    next: nat, unack: nat, queue: seq<Segment>, peerWnd: nat, cwnd: nat, ssthresh: nat,
    rtt: Rtt, written: seq<byte>, cuts: set<nat>)

  /** The receive side. `delivered` is history: every byte Read has returned. */
  datatype Receiver = Receiver(
    next: nat, ooo: map<nat, seq<byte>>, buf: seq<byte>, fin: bool, delivered: seq<byte>)

  datatype Endpoint = Endpoint(
    closed: bool, reset: bool, err: Option<StreamError>, finSent: bool, ackPending: bool,
    snd: Sender, rcv: Receiver, lastProbe: Option<int>, probeInterval: int)

  function InitEndpoint(): Endpoint {
    Endpoint(false, false, None, false, false,
             Sender(0, 0, [], RECV_BUF_MAX, INITIAL_CWND, RECV_BUF_MAX, InitRtt(), [], {0}),
             Receiver(0, map[], [], false, []),
             None, MIN_RTO)
  }

  // ---- windows ----

  function Limit(s: Sender): nat {
    if s.peerWnd < s.cwnd then s.peerWnd else s.cwnd
  }

  function WindowAvailable(s: Sender): nat
    requires s.unack <= s.next
  {
    if s.next - s.unack >= Limit(s) then 0 else Limit(s) - (s.next - s.unack)
  }

  function AdvertiseWindow(r: Receiver): nat {
    var free := RECV_BUF_MAX - |r.buf|;
    if free < 0 then 0 else if free > MAX_WINDOW then MAX_WINDOW else free
  }

  // ---- sending ----

  /** Every frame carries the cumulative acknowledgement and the window of the moment. */
  function MakeFrame(e: Endpoint, typ: byte, seqNo: nat, payload: seq<byte>): Frame {
    Frame(typ, seqNo, e.rcv.next, AdvertiseWindow(e.rcv), payload)
  }

  function PushSegment(s: Sender, data: seq<byte>, now: int): Sender {
    s.(next := s.next + |data|,
       queue := s.queue + [Segment(s.next, data, now, 0)],
       written := s.written + data,
       cuts := s.cuts + {s.next + |data|})
  }

  /** How much of `p` the next segment takes. */
  function SegmentSize(s: Sender, p: seq<byte>): nat
    requires s.unack <= s.next
  {
    Min(Min(WindowAvailable(s), |p|), MAX_SEGMENT)
  }

  /** The part of Write that runs once the window is open. */
  function WriteStep(e: Endpoint, p: seq<byte>, now: int): (Endpoint, seq<Frame>)
    requires e.snd.unack <= e.snd.next
  {
    var data := p[..SegmentSize(e.snd, p)];
    (e.(snd := PushSegment(e.snd, data, now), ackPending := false),
     [MakeFrame(e, FRAME_DATA, e.snd.next, data)])
  }

  function CloseStep(e: Endpoint): (Endpoint, seq<Frame>) {
    if e.closed then (e, [])
    else
      (e.(closed := true, finSent := true),
       if e.finSent then [] else [MakeFrame(e, FRAME_FIN, e.snd.next, [])])
  }

  function AckStep(e: Endpoint): (Endpoint, seq<Frame>) {
    (e.(ackPending := false), [MakeFrame(e, FRAME_ACK, e.snd.next, [])])
  }

  // ---- acknowledgements ----

  function Retire(q: seq<Segment>, ack: nat): seq<Segment> {
    if q == [] then []
    else if q[0].End() <= ack then Retire(q[1..], ack)
    else [q[0]] + Retire(q[1..], ack)
  }

  function AckedBytes(q: seq<Segment>, ack: nat): nat {
    if q == [] then 0
    else (if q[0].End() <= ack then |q[0].data| else 0) + AckedBytes(q[1..], ack)
  }

  /** Karn's rule: only a segment sent once gives a sample. */
  function SampleRetired(q: seq<Segment>, ack: nat, now: int, rtt: Rtt): Rtt
    decreases |q|
  {
    if q == [] then rtt
    else
      SampleRetired(q[1..], ack, now,
                    if q[0].End() <= ack && q[0].retries == 0
                    then UpdateRTT(rtt, now - q[0].sentAt) else rtt)
  }

  function GrowCwnd(cwnd: nat, ssthresh: nat, acked: nat): nat {
    if acked == 0 then cwnd
    else if cwnd < ssthresh then Min(cwnd + acked, RECV_BUF_MAX)
    else Min(cwnd + (if cwnd == 0 then 0 else MAX_SEGMENT * acked / cwnd), RECV_BUF_MAX)
  }

  function ProcessAck(s: Sender, ack: nat, now: int): Sender {
    if ack <= s.unack then s
    else
      s.(unack := ack,
         queue := Retire(s.queue, ack),
         rtt := SampleRetired(s.queue, ack, now, s.rtt),
         cwnd := GrowCwnd(s.cwnd, s.ssthresh, AckedBytes(s.queue, ack)))
  }

  // ---- receiving ----

  /** One round of the drain: the piece parked at `next` is delivered; an empty one is the FIN. */
  function DrainRound(r: Receiver): Receiver
    requires r.next in r.ooo
  {
    var data := r.ooo[r.next];
    if data == [] then r.(ooo := r.ooo - {r.next}, fin := true)
    else r.(ooo := r.ooo - {r.next}, buf := r.buf + data, next := r.next + |data|)
  }

  /** Moves parked segments into the buffer once the gap before them is filled. */
  function Drain(r: Receiver): Receiver
    decreases |r.ooo|
  {
    if r.next !in r.ooo then r
    else
      RemoveShrinks(r.ooo, r.next);
      if r.ooo[r.next] == [] then DrainRound(r) else Drain(DrainRound(r))
  }

  lemma RemoveShrinks<V>(m: map<nat, V>, k: nat)
    requires k in m
    ensures |m - {k}| == |m| - 1
  {
    assert (m - {k}).Keys == m.Keys - {k};
    assert |m.Keys| == |m|;
    assert |(m - {k}).Keys| == |m - {k}|;
  }

  function Appended(r: Receiver, data: seq<byte>): Receiver {
    r.(buf := r.buf + data, next := r.next + |data|)
  }

  /** Delivers data that starts at or above `next`, or parks it, or drops it for lack of room. */
  function Place(r: Receiver, start: nat, data: seq<byte>): Receiver {
    if |r.buf| + |data| > RECV_BUF_MAX then r
    else if start == r.next then Drain(Appended(r, data))
    else if start in r.ooo then r
    else r.(ooo := r.ooo[start := data])
  }

  function AcceptData(r: Receiver, seqNo: nat, data: seq<byte>): Receiver {
    if seqNo + |data| <= r.next then r
    else if seqNo < r.next then Place(r, r.next, data[r.next - seqNo..])
    else Place(r, seqNo, data)
  }

  function AcceptFin(r: Receiver, seqNo: nat): Receiver {
    if seqNo == r.next then r.(fin := true)
    else r.(ooo := r.ooo[seqNo := []])
  }

  function ReceiveBody(r: Receiver, f: Frame): Receiver {
    if f.typ == FRAME_FIN then AcceptFin(r, f.seqNo)
    else if f.typ == FRAME_DATA && f.payload != [] then AcceptData(r, f.seqNo, f.payload)
    else r
  }

  /** OnFrame up to the point where the lock is released. */
  function OnFrameStep(e: Endpoint, f: Frame, now: int): Endpoint {
    var e1 := e.(snd := ProcessAck(e.snd.(peerWnd := f.wnd), f.ack, now), rcv := ReceiveBody(e.rcv, f));
    if f.typ == FRAME_RST then e1.(reset := true, err := Some(ErrReset)) else e1
  }

  /** DATA and FIN are always answered with an ACK. */
  predicate AnswersWithAck(f: Frame) {
    f.typ == FRAME_DATA || f.typ == FRAME_FIN
  }

  datatype ReadResult = Data(bytes: seq<byte>) | Failed(error: StreamError) | Eof | Blocked

  function ReadOutcome(e: Endpoint, cap: nat): ReadResult {
    if e.rcv.buf != [] then Data(e.rcv.buf[..Min(cap, |e.rcv.buf|)])
    else if e.reset then Failed(ErrReset)
    else if e.rcv.fin then Eof
    else if e.closed then Failed(ErrClosed)
    else Blocked
  }

  function ReadStep(e: Endpoint, cap: nat): Endpoint {
    if e.rcv.buf == [] then e
    else
      var n := Min(cap, |e.rcv.buf|);
      e.(rcv := e.rcv.(delivered := e.rcv.delivered + e.rcv.buf[..n], buf := e.rcv.buf[n..]),
         ackPending := true)
  }

  // ---- timers ----

  /** The pass of Tick over the queue: which segments go out again, and which one killed the stream. */
  datatype Scan = Scan(queue: seq<Segment>, resent: seq<Segment>, dead: Option<Segment>)

  function ScanQueue(q: seq<Segment>, now: int, rto: int): Scan {
    if q == [] then Scan([], [], None)
    else if now - q[0].sentAt < rto then
      var rest := ScanQueue(q[1..], now, rto);
      Scan([q[0]] + rest.queue, rest.resent, rest.dead)
    else if q[0].retries >= MAX_RETRIES then Scan(q, [], Some(q[0]))
    else
      var again := q[0].(retries := q[0].retries + 1, sentAt := now);
      var rest := ScanQueue(q[1..], now, rto);
      Scan([again] + rest.queue, [again] + rest.resent, rest.dead)
  }

  function OnLoss(s: Sender): Sender {
    s.(ssthresh := Max(s.cwnd / 2, 2 * MAX_SEGMENT), cwnd := INITIAL_CWND, rtt := Backoff(s.rtt))
  }

  function Frames(e: Endpoint, segs: seq<Segment>): seq<Frame> {
    seq(|segs|, i requires 0 <= i < |segs| => MakeFrame(e, FRAME_DATA, segs[i].seqNo, segs[i].data))
  }

  predicate ProbeDue(e: Endpoint, now: int) {
    && e.snd.peerWnd == 0
    && !e.closed
    && (e.lastProbe.None? || now - e.lastProbe.value >= e.probeInterval)
  }

  /** The persist timer; the probe is a zero-length DATA frame. */
  function ProbeStep(e: Endpoint, now: int): (Endpoint, seq<Frame>) {
    if ProbeDue(e, now) then
      (e.(lastProbe := Some(now), probeInterval := Min(2 * e.probeInterval, MAX_RTO)),
       [MakeFrame(e, FRAME_DATA, e.snd.next, [])])
    else if e.snd.peerWnd == 0 && !e.closed then (e, [])
    else (e.(probeInterval := MIN_RTO), [])
  }

  function Die(e: Endpoint, scan: Scan): Endpoint
    requires scan.dead.Some?
  {
    e.(snd := e.snd.(queue := scan.queue), reset := true,
       err := Some(ErrUnreachable(scan.dead.value.seqNo, scan.dead.value.retries)))
  }

  function AfterScan(e: Endpoint, scan: Scan): Endpoint {
    var snd := e.snd.(queue := scan.queue);
    e.(snd := if scan.resent == [] then snd else OnLoss(snd))
  }

  /** What is left of Tick after the pass over the queue: the probe and the pending ACK. */
  function FinishTick(e: Endpoint, resent: seq<Frame>, now: int): (Endpoint, seq<Frame>) {
    var (probed, probe) := ProbeStep(e, now);
    (probed.(ackPending := false),
     resent + probe + (if e.ackPending then [MakeFrame(e, FRAME_ACK, e.snd.next, [])] else []))
  }

  function TickStep(e: Endpoint, now: int): (Endpoint, seq<Frame>) {
    if e.reset then (e, [])
    else
      var scan := ScanQueue(e.snd.queue, now, e.snd.rtt.rto);
      if scan.dead.Some? then (Die(e, scan), [])
      else FinishTick(AfterScan(e, scan), Frames(e, scan.resent), now)
  }
}
