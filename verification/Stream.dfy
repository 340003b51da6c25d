/**
 * The stream as the program runs it: fields updated in place, every offset modulo 2^32,
 * frames as bytes.
 *
 * The ghost fields `snd`, `rcv` and `cause` are the same endpoint over unbounded offsets; View()
 * puts them together. Each method is proved to move that endpoint by the corresponding function
 * of StreamProtocol and to emit the wire image of its frames, so a stream longer than 4 GB
 * behaves like one that never wraps.
 */
module Stream32 {
  import opened Basics
  import opened RttEstimator
  import P = StreamProtocol
  import opened StreamWire
  import opened StreamInvariant

  datatype Segment32 = Segment32(seqNo: uint32, data: seq<byte>, sentAt: int, retries: nat)

  datatype Error32 = ErrClosed | ErrReset | ErrUnreachable(seqNo: uint32, retries: nat)

  datatype WriteResult = Sent(n: nat) | WriteFailed(error: Error32) | WouldBlock

  datatype ReadResult32 = Data(bytes: seq<byte>) | ReadFailed(error: Error32) | Eof | Blocked

  // ---- images of unbounded values ----

  function Image(s: P.Segment): Segment32 {
    Segment32(Wrap(s.seqNo), s.data, s.sentAt, s.retries)
  }

  function ErrorImage(e: P.StreamError): Error32 {
    match e
    case ErrClosed => ErrClosed
    case ErrReset => ErrReset
    case ErrUnreachable(k, n) => ErrUnreachable(Wrap(k), n)
  }

  function ReadImage(r: P.ReadResult): ReadResult32 {
    match r
    case Data(bytes) => Data(bytes)
    case Failed(e) => ReadFailed(ErrorImage(e))
    case Eof => Eof
    case Blocked => Blocked
  }

  function FrameImage(f: P.Frame): WireFrame
    requires f.wnd < 0x1_0000
  {
    WireFrame(f.typ, Wrap(f.seqNo), Wrap(f.ack), f.wnd, f.payload)
  }

  function Wire(f: P.Frame): seq<byte>
    requires f.wnd < 0x1_0000
  {
    EncodeFrame(FrameImage(f))
  }

  predicate WindowsFit(fs: seq<P.Frame>) {
    forall i :: 0 <= i < |fs| ==> fs[i].wnd < 0x1_0000
  }

  function WireAll(fs: seq<P.Frame>): seq<seq<byte>>
    requires WindowsFit(fs)
  {
    seq(|fs|, i requires 0 <= i < |fs| => Wire(fs[i]))
  }

  lemma WireAllAppend(a: seq<P.Frame>, b: seq<P.Frame>)
    requires WindowsFit(a) && WindowsFit(b)
    ensures WindowsFit(a + b) && WireAll(a + b) == WireAll(a) + WireAll(b)
  {
  }

  predicate QueueImage(q32: seq<Segment32>, q: seq<P.Segment>) {
    |q32| == |q| && forall i :: 0 <= i < |q| ==> q32[i] == Image(q[i])
  }

  /** The parked map: same pieces, keys wrapped, and no two keys sharing an image. */
  ghost predicate ParkedImage(m32: map<uint32, seq<byte>>, m: map<nat, seq<byte>>) {
    && (forall k :: k in m ==> Wrap(k) in m32 && m32[Wrap(k)] == m[k])
    && (forall w :: w in m32 ==> IsImageOfKey(w, m))
  }

  ghost predicate IsImageOfKey(w: uint32, m: map<nat, seq<byte>>) {
    exists k :: k in m && Wrap(k) == w
  }

  predicate KeysNear(m: map<nat, seq<byte>>, base: nat) {
    forall k :: k in m ==> base <= k <= base + P.MAX_WINDOW
  }

  lemma ParkedLookup(m32: map<uint32, seq<byte>>, m: map<nat, seq<byte>>, base: nat, k: nat)
    requires ParkedImage(m32, m) && KeysNear(m, base) && base <= k <= base + P.MAX_WINDOW
    ensures k in m <==> Wrap(k) in m32
  {
    if Wrap(k) in m32 {
      assert IsImageOfKey(Wrap(k), m);
      var j :| j in m && Wrap(j) == Wrap(k);
      WrapInjective(j, k);
    }
  }

  lemma ParkedRemoveImage(m32: map<uint32, seq<byte>>, m: map<nat, seq<byte>>, base: nat, k: nat)
    requires ParkedImage(m32, m) && KeysNear(m, base) && k in m
    ensures ParkedImage(m32 - {Wrap(k)}, m - {k})
  {
    forall j | j in m - {k}
      ensures Wrap(j) in m32 - {Wrap(k)}
    {
      if Wrap(j) == Wrap(k) { WrapInjective(j, k); }
    }
    forall w | w in m32 - {Wrap(k)}
      ensures IsImageOfKey(w, m - {k})
    {
      assert IsImageOfKey(w, m);
      var j :| j in m && Wrap(j) == w;
      assert j in m - {k};
    }
  }

  lemma ParkedAddImage(m32: map<uint32, seq<byte>>, m: map<nat, seq<byte>>, base: nat, k: nat, data: seq<byte>)
    requires ParkedImage(m32, m) && KeysNear(m, base) && base <= k <= base + P.MAX_WINDOW
    ensures ParkedImage(m32[Wrap(k) := data], m[k := data])
  {
    forall j | j in m[k := data]
      ensures m32[Wrap(k) := data][Wrap(j)] == m[k := data][j]
    {
      if Wrap(j) == Wrap(k) { WrapInjective(j, k); }
    }
    var m32' := m32[Wrap(k) := data];
    forall w | w in m32'
      ensures IsImageOfKey(w, m[k := data])
    {
      if w in m32 {
        assert IsImageOfKey(w, m);
        var j :| j in m && Wrap(j) == w;
        assert j in m[k := data];
      } else {
        assert k in m[k := data];
      }
    }
  }

  /** What a round of Write does: fail, wait for window space, or send a segment. */
  function WriteOutcome(e: P.Endpoint, p: seq<byte>): WriteResult
    requires e.snd.unack <= e.snd.next
  {
    if e.closed || e.reset then WriteFailed(if e.err.Some? then ErrorImage(e.err.value) else ErrClosed)
    else if P.WindowAvailable(e.snd) == 0 then WouldBlock
    else Sent(P.SegmentSize(e.snd, p))
  }

  lemma WriteMoves(e: P.Endpoint, p: seq<byte>, now: int)
    requires EndpointInv(e, now) && p != []
    ensures WriteOutcome(e, p).Sent? ==>
              && 0 < P.SegmentSize(e.snd, p) <= |p|
              && EndpointInv(P.WriteStep(e, p, now).0, now)
              && P.WriteStep(e, p, now).0.snd.written == e.snd.written + p[..P.SegmentSize(e.snd, p)]
  {
    if WriteOutcome(e, p).Sent? {
      WriteKeepsEndpoint(e, p, now);
    }
  }

  /** What a row of segment writes leads to, the frames it sends, and how much of p it takes. */
  datatype Writing = Writing(end: P.Endpoint, frames: seq<P.Frame>, written: nat)

  /** Takes p segment by segment, for as long as the window is open and the stream alive. */
  function WriteAll(e: P.Endpoint, p: seq<byte>, now: int): Writing
    requires e.snd.unack <= e.snd.next
    decreases |p|
  {
    if p == [] || !WriteOutcome(e, p).Sent? then Writing(e, [], 0)
    else
      var n := P.SegmentSize(e.snd, p);
      var (e1, out) := P.WriteStep(e, p, now);
      var rest := WriteAll(e1, p[n..], now);
      Writing(rest.end, out + rest.frames, n + rest.written)
  }

  /** The first k bytes of p have been taken, which led to e and sent these frames. */
  ghost predicate WriteSplit(w: Writing, p: seq<byte>, now: int, e: P.Endpoint, sent: seq<P.Frame>, k: nat)
  {
    && e.snd.unack <= e.snd.next && k <= |p|
    && var rest := WriteAll(e, p[k..], now);
       w == Writing(rest.end, sent + rest.frames, k + rest.written)
  }

  lemma WriteBegins(e: P.Endpoint, p: seq<byte>, now: int)
    requires e.snd.unack <= e.snd.next
    ensures WriteSplit(WriteAll(e, p, now), p, now, e, [], 0)
  {
    assert p[0..] == p;
    assert [] + WriteAll(e, p, now).frames == WriteAll(e, p, now).frames;
  }

  lemma WriteNext(w: Writing, p: seq<byte>, now: int, e: P.Endpoint, sent: seq<P.Frame>, k: nat)
    requires WriteSplit(w, p, now, e, sent, k) && k < |p|
    ensures var n := P.SegmentSize(e.snd, p[k..]);
            if WriteOutcome(e, p[k..]).Sent?
            then 0 < n <= |p| - k
                 && var (e1, out) := P.WriteStep(e, p[k..], now); WriteSplit(w, p, now, e1, sent + out, k + n)
            else w == Writing(e, sent, k)
  {
    if WriteOutcome(e, p[k..]).Sent? {
      var n := P.SegmentSize(e.snd, p[k..]);
      var (e1, out) := P.WriteStep(e, p[k..], now);
      var rest := WriteAll(e1, p[k..][n..], now);
      assert p[k..][n..] == p[k + n..];
      assert sent + (out + rest.frames) == sent + out + rest.frames;
    } else {
      assert sent + [] == sent;
    }
  }

  lemma WriteEnds(w: Writing, p: seq<byte>, now: int, e: P.Endpoint, sent: seq<P.Frame>)
    requires WriteSplit(w, p, now, e, sent, |p|)
    ensures w == Writing(e, sent, |p|)
  {
    assert p[|p|..] == [] && sent + [] == sent;
  }

  /** The bytes taken are a prefix of p, and nothing but the outcome of a round stops it short. */
  lemma {:induction false} WriteAllTakes(e: P.Endpoint, p: seq<byte>, now: int)
    requires e.snd.unack <= e.snd.next
    ensures var w := WriteAll(e, p, now);
            && w.written <= |p| && w.end.snd.written == e.snd.written + p[..w.written]
            && w.end.snd.unack <= w.end.snd.next
            && (w.written < |p| ==> !WriteOutcome(w.end, p[w.written..]).Sent?)
    decreases |p|
  {
    if p == [] || !WriteOutcome(e, p).Sent? {
      assert p[..0] == [] && p[0..] == p;
    } else {
      var n := P.SegmentSize(e.snd, p);
      var e1 := P.WriteStep(e, p, now).0;
      WriteAllTakes(e1, p[n..], now);
      TakesBoth(e.snd.written, p, n, WriteAll(e1, p[n..], now).written);
    }
  }

  lemma TakesBoth(written: seq<byte>, p: seq<byte>, n: nat, m: nat)
    requires n + m <= |p|
    ensures p[n..][m..] == p[n + m..] && written + p[..n] + p[n..][..m] == written + p[..n + m]
  {
    assert p[..n] + p[n..][..m] == p[..n + m];
  }

  lemma CloseSends(e: P.Endpoint)
    requires !e.closed
    ensures var out := P.CloseStep(e).1;
            && WindowsFit(out)
            && WireAll(out) == if e.finSent then [] else [Wire(P.MakeFrame(e, P.FRAME_FIN, e.snd.next, []))]
  {
  }

  // ---- what may arrive ----

  /** A frame the peer sent at some time; a reset is accepted as well. */
  predicate Arrives(y: P.Endpoint, x: P.Endpoint, f: P.Frame) {
    FrameInv(y, x, f) || (f.typ == P.FRAME_RST && FrameInv(y, x, f.(typ := P.FRAME_ACK)))
  }

  /** Not 2^31 bytes stale, which is as far as serial comparison reaches. */
  predicate Fresh(x: P.Endpoint, f: P.Frame) {
    x.rcv.next - f.seqNo < TWO31 && x.snd.unack - f.ack < TWO31
  }

  /** Two endpoints that can occur together. */
  predicate Paired(x: P.Endpoint, y: P.Endpoint, now: int) {
    && EndpointInv(x, now) && EndpointInv(y, now)
    && ReceiverInv(x.rcv, y) && ReceiverInv(y.rcv, x)
  }

  /** Parked pieces that do not overlap and lie within one window at or above `next`. */
  predicate Drainable(r: P.Receiver) {
    && KeysNear(r.ooo, r.next)
    && forall j, k :: j in r.ooo && k in r.ooo && j < k ==> j + |r.ooo[j]| <= k
  }

  /** Data less than 2^31 stale and at most one window ahead, overlapping nothing that is parked. */
  predicate DataFits(r: P.Receiver, at: nat, data: seq<byte>) {
    && Drainable(r) && r.next !in r.ooo
    && r.next - at < TWO31 && at + |data| <= r.next + P.MAX_WINDOW
    && forall k :: k in r.ooo ==> k <= at || at + |data| <= k
  }

  /** What Place needs: the data starts at or above `next`, and what is parked follows it. */
  predicate PlaceFits(r: P.Receiver, at: nat, data: seq<byte>) {
    && Drainable(r) && r.next !in r.ooo
    && r.next <= at && at + |data| <= r.next + P.MAX_WINDOW
    && (at == r.next ==> forall k :: k in r.ooo ==> at + |data| <= k)
  }

  /** What the 32-bit code needs of an inbound frame to decide every comparison correctly. */
  predicate Acceptable(s: P.Sender, r: P.Receiver, f: P.Frame, now: int) {
    && SenderInv(s, now)
    && f.wnd <= P.MAX_WINDOW
    && f.ack <= s.next && s.unack - f.ack < TWO31
    && BodyFits(r, f)
  }

  lemma OnFrameAssembled(e: P.Endpoint, e': P.Endpoint, f: P.Frame, now: int)
    requires e'.snd == P.ProcessAck(e.snd.(peerWnd := f.wnd), f.ack, now)
    requires e'.rcv == P.ReceiveBody(e.rcv, f)
    requires e'.reset == (e.reset || f.typ == P.FRAME_RST)
    requires e'.err == if f.typ == P.FRAME_RST then Some(P.ErrReset) else e.err
    requires e' == e.(snd := e'.snd, rcv := e'.rcv, reset := e'.reset, err := e'.err)
    ensures e' == P.OnFrameStep(e, f, now)
  {
  }

  predicate BodyFits(r: P.Receiver, f: P.Frame) {
    && Drainable(r)
    && (f.typ == P.FRAME_FIN ==> r.next <= f.seqNo <= r.next + P.MAX_WINDOW)
    && (f.typ == P.FRAME_DATA && f.payload != [] ==> DataFits(r, f.seqNo, f.payload))
  }

  /** Every frame of a run that is not 2^31 bytes stale meets the demands of the 32-bit code. */
  lemma ArrivalFits(x: P.Endpoint, y: P.Endpoint, f: P.Frame, now: int)
    requires Paired(x, y, now) && Arrives(y, x, f) && Fresh(x, f)
    ensures Acceptable(x.snd, x.rcv, f, now)
  {
    var r := x.rcv;
    forall k | k in r.ooo
      ensures k <= r.next + P.MAX_WINDOW
      ensures forall j :: j in r.ooo && j < k ==> j + |r.ooo[j]| <= k
    {
      assert ParkedInv(y, k, r.ooo[k]);
      forall j | j in r.ooo && j < k
        ensures j + |r.ooo[j]| <= k
      {
        assert ParkedInv(y, j, r.ooo[j]);
      }
    }
    if f.typ == P.FRAME_DATA && f.payload != [] {
      forall k | k in r.ooo
        ensures k <= f.seqNo || f.seqNo + |f.payload| <= k
      {
        assert ParkedInv(y, k, r.ooo[k]);
      }
    }
  }

  class Stream {
    var closed: bool
    var reset: bool
    var err: Option<Error32>
    var sndNext: uint32
    var sndUnack: uint32
    var sndQueue: seq<Segment32>
    var peerWnd: uint32
    var cwnd: uint32
    var ssthresh: uint32
    var finSent: bool
    var rcvNext: uint32
    var rcvOOO: map<uint32, seq<byte>>
    var rcvBuf: seq<byte>
    var finRecvd: bool
    var rtt: Rtt
    var ackPending: bool
    var lastProbe: Option<int>
    var probeInterval: int
    /** Every frame handed to sendFn, in order. */
    var wire: seq<seq<byte>>

    ghost var snd: P.Sender
    ghost var rcv: P.Receiver
    ghost var cause: Option<P.StreamError>

    /** The same endpoint over unbounded offsets. */
    ghost function View(): P.Endpoint
      reads this
    {
      P.Endpoint(closed, reset, cause, finSent, ackPending, snd, rcv, lastProbe, probeInterval)
    }

    ghost predicate SendImage()
      reads `sndNext, `sndUnack, `sndQueue, `peerWnd, `cwnd, `ssthresh, `rtt, `snd
    {
      && sndNext == Wrap(snd.next) && sndUnack == Wrap(snd.unack)
      && QueueImage(sndQueue, snd.queue)
      && peerWnd == snd.peerWnd && cwnd == snd.cwnd && ssthresh == snd.ssthresh
      && rtt == snd.rtt
    }

    ghost predicate ReceiveImage()
      reads `rcvNext, `rcvOOO, `rcvBuf, `finRecvd, `rcv
    {
      && rcvNext == Wrap(rcv.next) && rcvBuf == rcv.buf && finRecvd == rcv.fin
      && ParkedImage(rcvOOO, rcv.ooo)
    }

    ghost predicate ErrorMatches()
      reads `err, `cause
    {
      err == if cause.None? then None else Some(ErrorImage(cause.value))
    }

    /** The fields are the 32-bit image of the unbounded endpoint. */
    ghost predicate Represents()
      reads this
    {
      SendImage() && ReceiveImage() && ErrorMatches()
    }

    /** The step from `before` to `e`, sending `out`, has been taken. */
    twostate predicate Took(e: P.Endpoint, out: seq<P.Frame>)
      reads this
    {
      View() == e && WindowsFit(out) && wire == old(wire) + WireAll(out)
    }

    constructor ()
      ensures Represents() && View() == P.InitEndpoint() && wire == []
    {
      closed, reset, err := false, false, None;
      sndNext, sndUnack, sndQueue := 0, 0, [];
      peerWnd, cwnd, ssthresh := P.RECV_BUF_MAX, P.INITIAL_CWND, P.RECV_BUF_MAX;
      finSent := false;
      rcvNext, rcvOOO, rcvBuf, finRecvd := 0, map[], [], false;
      rtt := InitRtt();
      ackPending, lastProbe, probeInterval := false, None, MIN_RTO;
      wire := [];
      snd, rcv, cause := P.InitEndpoint().snd, P.InitEndpoint().rcv, None;
    }

    // ---- helpers ----

    method WindowAvailable() returns (n: uint32)
      requires SendImage() && OffsetsInv(snd)
      ensures n == P.WindowAvailable(snd)
    {
      var inFlight := Sub32(sndNext, sndUnack);
      SubWrap(snd.next, snd.unack);
      var limit := cwnd;
      if peerWnd < limit { limit := peerWnd; }
      if inFlight >= limit { return 0; }
      return limit - inFlight;
    }

    method AdvertiseWindow() returns (wnd: uint16)
      requires ReceiveImage()
      ensures wnd == P.AdvertiseWindow(rcv)
    {
      var free := P.RECV_BUF_MAX - |rcvBuf|;
      if free < 0 { free := 0; }
      if free > 65535 { free := 65535; }
      return free;
    }

    /** Builds one frame with the current acknowledgement and window. */
    method MakeFrame(typ: byte, seqNo: uint32, payload: seq<byte>, ghost at: nat) returns (b: seq<byte>)
      requires ReceiveImage() && seqNo == Wrap(at)
      ensures b == Wire(P.MakeFrame(View(), typ, at, payload))
    {
      var wnd := AdvertiseWindow();
      b := EncodeFrame(WireFrame(typ, seqNo, rcvNext, wnd, payload));
    }

    method SendAck()
      requires Represents()
      modifies `ackPending, `wire
      ensures Represents()
      ensures Took(P.AckStep(old(View())).0, P.AckStep(old(View())).1)
    {
      var f := MakeFrame(P.FRAME_ACK, sndNext, [], snd.next);
      ackPending := false;
      wire := wire + [f];
    }

    // ---- Write, Read, Close ----

    /** Puts a segment at the end of the queue. */
    method Enqueue(data: seq<byte>, now: int)
      requires SendImage()
      modifies `sndNext, `sndQueue, `snd
      ensures SendImage() && snd == P.PushSegment(old(snd), data, now)
    {
      sndQueue := sndQueue + [Segment32(sndNext, data, now, 0)];
      AddWrap(snd.next, |data|);
      sndNext := Add32(sndNext, |data|);
      snd := P.PushSegment(snd, data, now);
    }

    /** Queues one segment and sends it. */
    method Push(data: seq<byte>, now: int)
      requires Represents()
      modifies `sndNext, `sndQueue, `ackPending, `wire, `snd
      ensures Represents()
      ensures View() == old(View()).(snd := P.PushSegment(old(snd), data, now), ackPending := false)
      ensures wire == old(wire) + [Wire(P.MakeFrame(old(View()), P.FRAME_DATA, old(snd).next, data))]
    {
      var f := MakeFrame(P.FRAME_DATA, sndNext, data, snd.next);
      Enqueue(data, now);
      ackPending := false;
      wire := wire + [f];
    }

    /** One round of Write's outer loop. */
    method WriteSegment(p: seq<byte>, now: int) returns (r: WriteResult)
      requires Represents() && OffsetsInv(snd) && p != []
      modifies `sndNext, `sndQueue, `ackPending, `wire, `snd
      ensures Represents()
      ensures r == WriteOutcome(old(View()), p)
      ensures if r.Sent? then Took(P.WriteStep(old(View()), p, now).0, P.WriteStep(old(View()), p, now).1)
              else View() == old(View()) && wire == old(wire)
    {
      if closed || reset {
        return WriteFailed(if err.Some? then err.value else ErrClosed);
      }
      var avail := WindowAvailable();
      if avail == 0 { return WouldBlock; }
      var n: nat := avail;
      if n > |p| { n := |p|; }
      if n > P.MAX_SEGMENT { n := P.MAX_SEGMENT; }
      OneFrame(P.MakeFrame(View(), P.FRAME_DATA, snd.next, p[..n]));
      Push(p[..n], now);
      return Sent(n);
    }

    /** The frames sent so far are on the wire, and what is left of `w` is to be written. */
    ghost predicate Writes(w: Writing, p: seq<byte>, now: int, sent: seq<P.Frame>, k: nat, before: seq<seq<byte>>)
      reads this
    {
      && EndpointInv(View(), now) && WriteSplit(w, p, now, View(), sent, k)
      && WindowsFit(sent) && wire == before + WireAll(sent)
    }

    /** One round of Write's loop. */
    method WriteRound(p: seq<byte>, k: nat, now: int, ghost w: Writing, ghost sent: seq<P.Frame>, ghost before: seq<seq<byte>>)
      returns (stop: WriteResult, written: nat, ghost sent': seq<P.Frame>)
      requires Represents() && k < |p| && Writes(w, p, now, sent, k, before)
      modifies `sndNext, `sndQueue, `ackPending, `wire, `snd
      ensures Represents() && Writes(w, p, now, sent', written, before)
      ensures if stop.Sent? then k < written <= |p| else written == k && w == Writing(View(), sent', k)
      ensures !stop.Sent? ==> stop == WriteOutcome(View(), p[k..])
    {
      WriteMoves(View(), p[k..], now);
      WriteNext(w, p, now, View(), sent, k);
      ghost var out := P.WriteStep(View(), p[k..], now).1;
      stop := WriteSegment(p[k..], now);
      written, sent' := k, sent;
      if stop.Sent? {
        written := k + stop.n;
        WireAllAppend(sent, out);
        sent' := sent + out;
      }
    }

    /**
     * Write, up to the point where it returns or would sleep: all the segment writes that the
     * window and the state of the stream admit, and nothing else.
     */
    method Write(p: seq<byte>, now: int) returns (written: nat, stop: WriteResult)
      requires Represents() && EndpointInv(View(), now)
      modifies `sndNext, `sndQueue, `ackPending, `wire, `snd
      ensures Represents() && EndpointInv(View(), now)
      ensures var w := WriteAll(old(View()), p, now); Took(w.end, w.frames) && written == w.written
      ensures written <= |p| && snd.written == old(snd).written + p[..written]
      ensures written < |p| ==> stop == WriteOutcome(View(), p[written..]) && !stop.Sent?
    {
      written, stop := 0, Sent(0);
      ghost var w, sent := WriteAll(View(), p, now), [];
      WriteBegins(View(), p, now);
      WriteAllTakes(View(), p, now);
      while written < |p|
        invariant Represents() && written <= |p| && Writes(w, p, now, sent, written, old(wire))
      {
        stop, written, sent := WriteRound(p, written, now, w, sent, old(wire));
        if !stop.Sent? { return; }
      }
      WriteEnds(w, p, now, View(), sent);
    }

    /** Takes bytes out of the buffer and owes the peer a window update. */
    method TakeBuffered(cap: nat) returns (bytes: seq<byte>)
      requires Represents() && rcvBuf != []
      modifies `rcvBuf, `rcv, `ackPending
      ensures Represents() && View() == P.ReadStep(old(View()), cap)
      ensures P.Data(bytes) == P.ReadOutcome(old(View()), cap)
    {
      var n := if cap < |rcvBuf| then cap else |rcvBuf|;
      bytes := rcvBuf[..n];
      rcv := P.ReadStep(View(), cap).rcv;
      rcvBuf := rcvBuf[n..];
      ackPending := true;
    }

    /** Read, with the window update it sends after draining the buffer. */
    method Read(cap: nat) returns (r: ReadResult32)
      requires Represents()
      modifies `rcvBuf, `rcv, `ackPending, `wire
      ensures Represents()
      ensures r == ReadImage(P.ReadOutcome(old(View()), cap))
      ensures old(rcvBuf) == [] ==> View() == old(View()) && wire == old(wire)
      ensures old(rcvBuf) != [] ==>
                Took(P.AckStep(P.ReadStep(old(View()), cap)).0, P.AckStep(P.ReadStep(old(View()), cap)).1)
    {
      if |rcvBuf| > 0 {
        var bytes := TakeBuffered(cap);
        SendAck();
        r := Data(bytes);
      } else if reset {
        r := ReadFailed(ErrReset);
      } else if finRecvd {
        r := Eof;
      } else if closed {
        r := ReadFailed(ErrClosed);
      } else {
        r := Blocked;
      }
    }

    /** Appends the FIN, if it has not been sent before. */
    method SendFin(f: seq<byte>, first: bool)
      modifies `finSent, `wire
      ensures finSent && wire == if first then old(wire) + [f] else old(wire)
    {
      finSent := true;
      if first {
        wire := wire + [f];
      }
    }

    method Close()
      requires Represents()
      modifies `closed, `finSent, `wire
      ensures Represents()
      ensures Took(P.CloseStep(old(View())).0, P.CloseStep(old(View())).1)
    {
      if closed { return; }
      var f := MakeFrame(P.FRAME_FIN, sndNext, [], snd.next);
      CloseSends(View());
      closed := true;
      SendFin(f, !finSent);
    }

    // ---- inbound frames ----

    method UpdateRTT(sample: int)
      modifies `rtt
      ensures rtt == RttEstimator.UpdateRTT(old(rtt), sample)
    {
      var srtt, rttvar := rtt.srtt, rtt.rttvar;
      if !rtt.haveRTT {
        srtt, rttvar := sample, sample / 2;
      } else {
        var d := srtt - sample;
        if d < 0 { d := -d; }
        rttvar := (3 * rttvar + d) / 4;
        srtt := (7 * srtt + sample) / 8;
      }
      var rto := srtt + 4 * rttvar;
      if rto < MIN_RTO { rto := MIN_RTO; }
      if rto > MAX_RTO { rto := MAX_RTO; }
      rtt := Rtt(srtt, rttvar, rto, true);
    }

    /** Whether a segment is acknowledged; if it was sent only once, its round trip is sampled. */
    method Sample(seg: Segment32, ack: uint32, now: int, ghost abs: P.Segment, ghost at: nat) returns (retired: bool)
      requires seg == Image(abs) && ack == Wrap(at) && Decided(abs, at)
      modifies `rtt
      ensures retired <==> abs.End() <= at
      ensures rtt == if retired && abs.retries == 0 then RttEstimator.UpdateRTT(old(rtt), now - abs.sentAt) else old(rtt)
    {
      var end := Add32(seg.seqNo, |seg.data|);
      retired := SeqLE(end, ack);
      if retired && seg.retries == 0 {
        UpdateRTT(now - seg.sentAt);
      }
    }

    /** Drops every acknowledged segment, sampling the round trip of those sent once. */
    method RetireAcked(ack: uint32, now: int, ghost at: nat) returns (acked: uint32)
      requires QueueImage(sndQueue, snd.queue) && rtt == snd.rtt && ack == Wrap(at)
      requires P.AckedBytes(snd.queue, at) < TWO32
      requires forall i :: 0 <= i < |snd.queue| ==> Decided(snd.queue[i], at)
      modifies `sndQueue, `rtt
      ensures QueueImage(sndQueue, P.Retire(snd.queue, at))
      ensures acked == P.AckedBytes(snd.queue, at)
      ensures rtt == P.SampleRetired(snd.queue, at, now, snd.rtt)
    {
      ghost var q := snd.queue;
      ghost var keptAt: seq<P.Segment> := [];
      acked := 0;
      var kept: seq<Segment32> := [];
      for i := 0 to |sndQueue|
        invariant QueueImage(sndQueue, q) && QueueImage(kept, keptAt)
        invariant RetireSplit(q, i, at, now, snd.rtt, keptAt, acked, rtt)
      {
        RetireNext(q, i, at, now, snd.rtt, keptAt, acked, rtt);
        var retired := Sample(sndQueue[i], ack, now, q[i], at);
        if retired {
          acked := acked + |sndQueue[i].data|;
        } else {
          kept := kept + [sndQueue[i]];
          keptAt := keptAt + [q[i]];
        }
      }
      RetireDone(q, at, now, snd.rtt, keptAt, acked, rtt);
      sndQueue := kept;
    }

    /** Slow start, then additive increase; `acked` was counted by RetireAcked. */
    method GrowWindow(acked: uint32)
      requires 0 < cwnd && cwnd + acked < TWO32 && P.MAX_SEGMENT * acked < TWO32
      requires 0 <= P.MAX_SEGMENT * acked / cwnd <= acked
      modifies `cwnd
      ensures cwnd == P.GrowCwnd(old(cwnd), ssthresh, acked)
    {
      if acked > 0 {
        if cwnd < ssthresh {
          cwnd := cwnd + acked;
        } else {
          var scaled: uint32 := P.MAX_SEGMENT * acked;
          cwnd := cwnd + scaled / cwnd;
        }
        if cwnd > P.RECV_BUF_MAX {
          cwnd := P.RECV_BUF_MAX;
        }
      }
    }

    method ProcessAck(ack: uint32, now: int, ghost at: nat)
      requires SendImage() && SenderInv(snd, now)
      requires ack == Wrap(at) && at <= snd.next && snd.unack - at < TWO31
      modifies `sndQueue, `sndUnack, `rtt, `cwnd, `snd
      ensures SendImage()
      ensures snd == P.ProcessAck(old(snd), at, now)
    {
      SerialOrderExact(at, snd.unack);
      if SeqLE(ack, sndUnack) { return; }
      GrowthFits(snd, at, now);
      SegmentEnds(snd, at, now);
      var acked := RetireAcked(ack, now, at);
      sndUnack := ack;
      GrowWindow(acked);
      snd := P.ProcessAck(snd, at, now);
    }

    method Unpark() returns (data: seq<byte>)
      requires ReceiveImage() && KeysNear(rcv.ooo, rcv.next) && rcv.next in rcv.ooo && rcvNext in rcvOOO
      modifies `rcvOOO, `rcv
      ensures ReceiveImage()
      ensures data == old(rcv).ooo[old(rcv).next]
      ensures rcv == old(rcv).(ooo := old(rcv).ooo - {old(rcv).next})
    {
      ParkedRemoveImage(rcvOOO, rcv.ooo, rcv.next, rcv.next);
      data := rcvOOO[rcvNext];
      rcvOOO := rcvOOO - {rcvNext};
      rcv := rcv.(ooo := rcv.ooo - {rcv.next});
    }

    method Append(data: seq<byte>)
      requires ReceiveImage()
      modifies `rcvBuf, `rcvNext, `rcv
      ensures ReceiveImage()
      ensures rcv == P.Appended(old(rcv), data)
    {
      rcvBuf := rcvBuf + data;
      AddWrap(rcv.next, |data|);
      rcvNext := Add32(rcvNext, |data|);
      rcv := P.Appended(rcv, data);
    }

    /** Takes the piece parked at `rcvNext` out of the map; an empty one is the FIN. */
    method TakeParked() returns (data: seq<byte>)
      requires ReceiveImage() && KeysNear(rcv.ooo, rcv.next) && rcv.next in rcv.ooo && rcvNext in rcvOOO
      modifies `rcvOOO, `rcvBuf, `rcvNext, `finRecvd, `rcv
      ensures ReceiveImage()
      ensures data == old(rcv).ooo[old(rcv).next] && rcv == P.DrainRound(old(rcv))
    {
      data := Unpark();
      if |data| == 0 {
        finRecvd := true;
        rcv := rcv.(fin := true);
      } else {
        Append(data);
      }
    }

    method DrainOOO()
      requires ReceiveImage() && Drainable(rcv)
      modifies `rcvOOO, `rcvBuf, `rcvNext, `finRecvd, `rcv
      ensures ReceiveImage()
      ensures rcv == P.Drain(old(rcv))
    {
      ParkedLookup(rcvOOO, rcv.ooo, rcv.next, rcv.next);
      while rcvNext in rcvOOO
        invariant ReceiveImage() && Drainable(rcv)
        invariant rcvNext in rcvOOO <==> rcv.next in rcv.ooo
        invariant P.Drain(rcv) == P.Drain(old(rcv))
        decreases |rcv.ooo|
      {
        DrainableNext(rcv);
        DrainUnfolds(rcv);
        var data := TakeParked();
        if |data| == 0 { return; }
        ParkedLookup(rcvOOO, rcv.ooo, rcv.next, rcv.next);
      }
    }

    method Park(key: uint32, data: seq<byte>, ghost at: nat)
      requires ReceiveImage() && KeysNear(rcv.ooo, rcv.next)
      requires key == Wrap(at) && rcv.next <= at <= rcv.next + P.MAX_WINDOW
      modifies `rcvOOO, `rcv
      ensures ReceiveImage()
      ensures rcv == old(rcv).(ooo := old(rcv).ooo[at := data])
    {
      ParkedAddImage(rcvOOO, rcv.ooo, rcv.next, at, data);
      rcvOOO := rcvOOO[key := data];
      rcv := rcv.(ooo := rcv.ooo[at := data]);
    }

    /** Delivers data that starts at or above `rcvNext`, or parks it, or drops it for lack of room. */
    method Place(start: uint32, data: seq<byte>, ghost at: nat)
      requires ReceiveImage() && start == Wrap(at) && PlaceFits(rcv, at, data)
      modifies `rcvOOO, `rcvBuf, `rcvNext, `finRecvd, `rcv
      ensures ReceiveImage()
      ensures rcv == P.Place(old(rcv), at, data)
    {
      if |rcvBuf| + |data| > P.RECV_BUF_MAX { return; }
      if start == rcvNext {
        WrapInjective(at, rcv.next);
        Append(data);
        DrainOOO();
      } else {
        ParkedLookup(rcvOOO, rcv.ooo, rcv.next, at);
        if start !in rcvOOO {
          Park(start, data, at);
        }
      }
    }

    /** How much of a segment lies below `rcvNext`, by serial comparison; all of it if it is a duplicate. */
    method Overlap(seqNo: uint32, len: nat) returns (overlap: nat)
      ensures overlap == Overlap32(rcvNext, seqNo, len)
    {
      if SeqLE(Add32(seqNo, len), rcvNext) { return len; }
      if SeqLT(seqNo, rcvNext) {
        var trim := Sub32(rcvNext, seqNo);
        return if trim < len then trim else len;
      }
      return 0;
    }

    method AcceptData(seqNo: uint32, data: seq<byte>, ghost at: nat)
      requires ReceiveImage() && seqNo == Wrap(at) && DataFits(rcv, at, data) && data != []
      modifies `rcvOOO, `rcvBuf, `rcvNext, `finRecvd, `rcv
      ensures ReceiveImage()
      ensures rcv == P.AcceptData(old(rcv), at, data)
    {
      OverlapIsTrue(rcv.next, at, |data|);
      var trim := Overlap(seqNo, |data|);
      AcceptTrimmed(rcv, at, data, trim);
      if trim >= |data| {
        return;
      } else if trim > 0 {
        Place(rcvNext, data[trim..], rcv.next);
      } else {
        Place(seqNo, data, at);
      }
    }

    method AcceptFin(seqNo: uint32, ghost at: nat)
      requires ReceiveImage() && KeysNear(rcv.ooo, rcv.next)
      requires seqNo == Wrap(at) && rcv.next <= at <= rcv.next + P.MAX_WINDOW
      modifies `rcvOOO, `finRecvd, `rcv
      ensures ReceiveImage()
      ensures rcv == P.AcceptFin(old(rcv), at)
    {
      if seqNo == rcvNext {
        WrapInjective(at, rcv.next);
        finRecvd := true;
        rcv := rcv.(fin := true);
      } else {
        Park(seqNo, [], at);
      }
    }

    /** The window and the acknowledgement every frame carries. */
    method TakeHeader(w: WireFrame, now: int, ghost f: P.Frame)
      requires SendImage() && SenderInv(snd, now) && f.wnd <= P.MAX_WINDOW && w == FrameImage(f)
      requires f.ack <= snd.next && snd.unack - f.ack < TWO31
      modifies `peerWnd, `sndQueue, `sndUnack, `rtt, `cwnd, `snd
      ensures SendImage()
      ensures snd == P.ProcessAck(old(snd).(peerWnd := f.wnd), f.ack, now)
    {
      PeerWindowKeepsInv(snd, f.wnd, now);
      peerWnd := w.wnd;
      snd := snd.(peerWnd := f.wnd);
      ProcessAck(w.ack, now, f.ack);
    }

    method TakeBody(w: WireFrame, ghost f: P.Frame)
      requires ReceiveImage() && ErrorMatches() && f.wnd < 0x1_0000 && w == FrameImage(f)
      requires BodyFits(rcv, f)
      modifies `reset, `err, `cause, `rcvOOO, `rcvBuf, `rcvNext, `finRecvd, `rcv
      ensures ReceiveImage() && ErrorMatches()
      ensures rcv == P.ReceiveBody(old(rcv), f)
      ensures reset == (old(reset) || f.typ == P.FRAME_RST)
      ensures cause == if f.typ == P.FRAME_RST then Some(P.ErrReset) else old(cause)
    {
      if w.typ == P.FRAME_RST {
        reset := true;
        err := Some(ErrReset);
        cause := Some(P.ErrReset);
      } else if w.typ == P.FRAME_FIN {
        AcceptFin(w.seqNo, f.seqNo);
      } else if w.typ == P.FRAME_DATA && |w.payload| > 0 {
        AcceptData(w.seqNo, w.payload, f.seqNo);
      }
    }

    method Absorb(w: WireFrame, now: int, ghost f: P.Frame)
      requires Represents() && Acceptable(snd, rcv, f, now) && w == FrameImage(f)
      modifies `peerWnd, `sndQueue, `sndUnack, `rtt, `cwnd, `snd
      modifies `reset, `err, `cause, `rcvOOO, `rcvBuf, `rcvNext, `finRecvd, `rcv
      ensures Represents()
      ensures snd == P.ProcessAck(old(snd).(peerWnd := f.wnd), f.ack, now)
      ensures rcv == P.ReceiveBody(old(rcv), f)
      ensures reset == (old(reset) || f.typ == P.FRAME_RST)
      ensures cause == if f.typ == P.FRAME_RST then Some(P.ErrReset) else old(cause)
    {
      TakeHeader(w, now, f);
      TakeBody(w, f);
    }

    /** OnFrame up to the point where the lock is released. */
    method Dispatch(w: WireFrame, now: int, ghost f: P.Frame)
      requires Represents() && Acceptable(snd, rcv, f, now) && w == FrameImage(f)
      modifies `peerWnd, `sndQueue, `sndUnack, `rtt, `cwnd, `snd
      modifies `reset, `err, `cause, `rcvOOO, `rcvBuf, `rcvNext, `finRecvd, `rcv
      ensures Represents() && View() == P.OnFrameStep(old(View()), f, now)
    {
      Absorb(w, now, f);
      OnFrameAssembled(old(View()), View(), f, now);
    }

    /** The ACK that answers data and FIN frames, and no others. */
    method Answer(typ: byte, ghost f: P.Frame)
      requires Represents() && typ == f.typ
      modifies `ackPending, `wire
      ensures Represents()
      ensures if P.AnswersWithAck(f) then Took(P.AckStep(old(View())).0, P.AckStep(old(View())).1)
              else View() == old(View()) && wire == old(wire)
    {
      if typ == P.FRAME_DATA || typ == P.FRAME_FIN {
        SendAck();
      }
    }

    /**
     * OnFrame, with the ACK it sends in reply. `f` is the frame the peer sent, over unbounded
     * offsets; bytes that do not decode are dropped.
     */
    method OnFrame(b: seq<byte>, now: int, ghost f: P.Frame)
      requires Represents()
      requires DecodeFrame(b).Ok? ==> Acceptable(snd, rcv, f, now) && DecodeFrame(b).value == FrameImage(f)
      modifies this
      ensures Represents()
      ensures DecodeFrame(b).Err? ==> View() == old(View()) && wire == old(wire)
      ensures DecodeFrame(b).Ok? ==>
                var e := P.OnFrameStep(old(View()), f, now);
                if P.AnswersWithAck(f) then Took(P.AckStep(e).0, P.AckStep(e).1)
                else View() == e && wire == old(wire)
    {
      var decoded := DecodeFrame(b);
      if decoded.Ok? {
        Dispatch(decoded.value, now, f);
        Answer(decoded.value.typ, f);
      }
    }

    // ---- timers ----

    /** Counts a retry for one segment, restarts its clock and builds its frame. */
    method Retransmit(i: nat, now: int) returns (f: seq<byte>)
      requires SendImage() && ReceiveImage() && i < |sndQueue|
      modifies `sndQueue, `snd
      ensures SendImage()
      ensures var again := Again(old(snd).queue[i], now);
              && snd == old(snd).(queue := old(snd).queue[i := again])
              && f == Wire(P.MakeFrame(old(View()), P.FRAME_DATA, again.seqNo, again.data))
    {
      var seg := sndQueue[i];
      seg := seg.(retries := seg.retries + 1, sentAt := now);
      f := MakeFrame(P.FRAME_DATA, seg.seqNo, seg.data, snd.queue[i].seqNo);
      sndQueue := sndQueue[i := seg];
      snd := snd.(queue := snd.queue[i := Again(snd.queue[i], now)]);
    }

    /** The first i segments of q have been looked at, and `resent` is what was sent again. */
    ghost predicate Scanned(q: seq<P.Segment>, was: P.Sender, resent: seq<P.Segment>, i: nat, now: int)
      reads `sndNext, `sndUnack, `sndQueue, `peerWnd, `cwnd, `ssthresh, `rtt, `snd
    {
      && SendImage() && i <= |snd.queue| == |q| && snd == was.(queue := snd.queue)
      && ScanSplit(q, snd.queue, resent, i, now, rtt.rto)
    }

    /** One segment of the pass: out of retries, young, or sent again. */
    method ResendOne(i: nat, now: int, sent: seq<seq<byte>>, ghost q: seq<P.Segment>, ghost s: P.Sender,
                     ghost was: seq<P.Segment>)
        returns (dead: Option<Segment32>, toSend: seq<seq<byte>>, ghost resent: seq<P.Segment>)
      requires Scanned(q, s, was, i, now) && ReceiveImage() && i < |q| && sent == Resends(rcv, was)
      modifies `sndQueue, `snd
      ensures dead.Some? ==> SendImage() && snd == s.(queue := P.ScanQueue(q, now, rtt.rto).queue)
                             && P.ScanQueue(q, now, rtt.rto).dead == Some(q[i]) && dead.value == Image(q[i])
      ensures dead.None? ==> Scanned(q, s, resent, i + 1, now) && toSend == Resends(rcv, resent)
    {
      var seg := sndQueue[i];
      dead, toSend, resent := None, sent, was;
      ScanNext(q, snd.queue, was, i, now, rtt.rto);
      if now - seg.sentAt >= rtt.rto {
        if seg.retries >= P.MAX_RETRIES {
          dead := Some(seg);
        } else {
          ghost var again := Again(snd.queue[i], now);
          var f := Retransmit(i, now);
          ResendsAppend(rcv, was, again);
          toSend, resent := sent + [f], was + [again];
        }
      }
    }

    /** Tick's pass over the queue; it stops at the first segment that is out of retries. */
    method ResendExpired(now: int) returns (dead: Option<Segment32>, toSend: seq<seq<byte>>)
      requires SendImage() && ReceiveImage()
      modifies `sndQueue, `snd
      ensures SendImage()
      ensures var scan := P.ScanQueue(old(snd).queue, now, old(snd).rtt.rto);
              && snd == old(snd).(queue := scan.queue)
              && dead == (if scan.dead.None? then None else Some(Image(scan.dead.value)))
              && (dead.None? ==> toSend == Resends(old(rcv), scan.resent))
    {
      ghost var was := snd;
      ghost var q := snd.queue;
      ghost var resent: seq<P.Segment> := [];
      toSend := [];
      for i := 0 to |sndQueue|
        invariant Scanned(q, was, resent, i, now) && toSend == Resends(rcv, resent)
      {
        dead, toSend, resent := ResendOne(i, now, toSend, q, was, resent);
        if dead.Some? {
          return dead, [];
        }
      }
      ScanDone(q, snd.queue, resent, now, rtt.rto);
      return None, toSend;
    }

    method BackOff()
      requires SendImage()
      modifies `ssthresh, `cwnd, `rtt, `snd
      ensures SendImage() && snd == P.OnLoss(old(snd))
    {
      ssthresh := cwnd / 2;
      if ssthresh < 2 * P.MAX_SEGMENT { ssthresh := 2 * P.MAX_SEGMENT; }
      cwnd := P.INITIAL_CWND;
      rtt := rtt.(rto := 2 * rtt.rto);
      if rtt.rto > MAX_RTO { rtt := rtt.(rto := MAX_RTO); }
      snd := P.OnLoss(snd);
    }

    /** The persist timer. */
    method ProbeWindow(now: int) returns (probe: seq<seq<byte>>)
      requires Represents()
      modifies `lastProbe, `probeInterval
      ensures Represents()
      ensures View() == P.ProbeStep(old(View()), now).0
      ensures WindowsFit(P.ProbeStep(old(View()), now).1) && probe == WireAll(P.ProbeStep(old(View()), now).1)
    {
      probe := [];
      if peerWnd == 0 && !closed {
        if lastProbe.None? || now - lastProbe.value >= probeInterval {
          lastProbe := Some(now);
          probeInterval := 2 * probeInterval;
          if probeInterval > MAX_RTO { probeInterval := MAX_RTO; }
          var f := MakeFrame(P.FRAME_DATA, sndNext, [], snd.next);
          probe := [f];
        }
      } else {
        probeInterval := MIN_RTO;
      }
    }

    method MarkDead(victim: Segment32, ghost v: P.Segment)
      requires victim == Image(v)
      modifies `reset, `err, `cause
      ensures ErrorMatches() && reset && cause == Some(P.ErrUnreachable(v.seqNo, v.retries))
    {
      reset := true;
      err := Some(ErrUnreachable(victim.seqNo, victim.retries));
      cause := Some(P.ErrUnreachable(v.seqNo, v.retries));
    }

    /** What the pass leads to: the stream dies, or backs off if anything was lost. */
    method Conclude(victim: Option<Segment32>, toSend: seq<seq<byte>>, ghost was: P.Endpoint, ghost scan: P.Scan)
      requires SendImage() && ErrorMatches() && View() == was.(snd := was.snd.(queue := scan.queue))
      requires victim == if scan.dead.None? then None else Some(Image(scan.dead.value))
      requires victim.None? ==> |toSend| == |scan.resent|
      modifies `reset, `err, `cause, `snd, `ssthresh, `cwnd, `rtt
      ensures SendImage() && ErrorMatches() && View() == ScanOutcome(was, scan)
    {
      if victim.Some? {
        MarkDead(victim.value, scan.dead.value);
      } else if |toSend| > 0 {
        BackOff();
      }
    }

    /** The pass over the queue with its outcome. */
    method ScanOrDie(now: int) returns (dead: bool, toSend: seq<seq<byte>>)
      requires Represents()
      modifies `sndQueue, `snd, `reset, `err, `cause, `ssthresh, `cwnd, `rtt
      ensures SendImage() && ErrorMatches()
      ensures var scan := P.ScanQueue(old(snd).queue, now, old(snd).rtt.rto);
              && (dead <==> scan.dead.Some?)
              && View() == ScanOutcome(old(View()), scan)
              && (!dead ==> toSend == Resends(old(rcv), scan.resent))
    {
      ghost var was := View();
      ghost var scan := P.ScanQueue(snd.queue, now, snd.rtt.rto);
      var victim;
      victim, toSend := ResendExpired(now);
      Conclude(victim, toSend, was, scan);
      dead := victim.Some?;
    }

    /** What is left of Tick after the pass over the queue: the probe and the pending ACK. */
    method FinishTick(toSend: seq<seq<byte>>, now: int, ghost resent: seq<P.Frame>)
      requires Represents() && WindowsFit(resent) && toSend == WireAll(resent)
      modifies `lastProbe, `probeInterval, `ackPending, `wire
      ensures Represents()
      ensures Took(P.FinishTick(old(View()), resent, now).0, P.FinishTick(old(View()), resent, now).1)
    {
      FinishOutput(View(), resent, now);
      var probe := ProbeWindow(now);
      var needAck := ackPending;
      var ackFrame := MakeFrame(P.FRAME_ACK, sndNext, [], snd.next);
      ackPending := false;
      wire := wire + (toSend + probe + if needAck then [ackFrame] else []);
    }

    /** The same, with what is to be sent as frames. */
    method PassOver(now: int) returns (dead: bool, toSend: seq<seq<byte>>)
      requires Represents()
      modifies `sndQueue, `snd, `reset, `err, `cause, `ssthresh, `cwnd, `rtt
      ensures Represents()
      ensures var scan := P.ScanQueue(old(snd).queue, now, old(snd).rtt.rto);
              && (dead <==> scan.dead.Some?)
              && View() == ScanOutcome(old(View()), scan)
              && (!dead ==> WindowsFit(P.Frames(old(View()), scan.resent))
                            && toSend == WireAll(P.Frames(old(View()), scan.resent)))
    {
      ResendsAreFrames(View(), P.ScanQueue(snd.queue, now, snd.rtt.rto).resent);
      dead, toSend := ScanOrDie(now);
    }

    method Tick(now: int) returns (alive: bool)
      requires Represents()
      modifies `sndQueue, `snd, `reset, `err, `cause, `ssthresh, `cwnd, `rtt
      modifies `lastProbe, `probeInterval, `ackPending, `wire
      ensures Represents()
      ensures alive == !reset
      ensures Took(P.TickStep(old(View()), now).0, P.TickStep(old(View()), now).1)
    {
      if reset { return false; }
      ghost var was := View();
      ghost var scan := P.ScanQueue(was.snd.queue, now, was.snd.rtt.rto);
      var dead, toSend := PassOver(now);
      if dead { return false; }
      FinishTick(toSend, now, P.Frames(was, scan.resent));
      return true;
    }
  }

  // ---- lemmas for the loops ----

  lemma {:induction false} TilesWithin(s: P.Sender, q: seq<P.Segment>, lo: nat, hi: nat, i: nat, now: int)
    requires Tiles(q, lo, hi) && i < |q|
    requires forall seg :: seg in q ==> SegmentInv(s, seg, now)
    ensures lo <= q[i].seqNo && q[i].End() <= hi
    decreases |q|
  {
    assert SegmentInv(s, q[0], now);
    TilesOrder(q[1..], q[0].End(), hi);
    if i > 0 {
      TilesWithin(s, q[1..], q[0].End(), hi, i - 1, now);
    }
  }

  lemma {:induction false} AckedAtMost(q: seq<P.Segment>, lo: nat, hi: nat, ack: nat)
    requires Tiles(q, lo, hi)
    ensures P.AckedBytes(q, ack) <= hi - lo
    decreases |q|
  {
    if q != [] {
      TilesOrder(q[1..], q[0].End(), hi);
      AckedAtMost(q[1..], q[0].End(), hi, ack);
    }
  }

  /** The first i segments have been examined with this outcome; the rest is still to come. */
  predicate RetireSplit(q: seq<P.Segment>, i: nat, ack: nat, now: int, rtt0: Rtt,
                        kept: seq<P.Segment>, acked: nat, rtt: Rtt)
    requires i <= |q|
  {
    && P.Retire(q, ack) == kept + P.Retire(q[i..], ack)
    && P.AckedBytes(q, ack) == acked + P.AckedBytes(q[i..], ack)
    && P.SampleRetired(q, ack, now, rtt0) == P.SampleRetired(q[i..], ack, now, rtt)
  }

  lemma RetireNext(q: seq<P.Segment>, i: nat, ack: nat, now: int, rtt0: Rtt,
                   kept: seq<P.Segment>, acked: nat, rtt: Rtt)
    requires i < |q| && RetireSplit(q, i, ack, now, rtt0, kept, acked, rtt)
    ensures q[i].End() > ack ==> RetireSplit(q, i + 1, ack, now, rtt0, kept + [q[i]], acked, rtt)
    ensures q[i].End() <= ack ==>
              var rtt' := if q[i].retries == 0 then RttEstimator.UpdateRTT(rtt, now - q[i].sentAt) else rtt;
              && RetireSplit(q, i + 1, ack, now, rtt0, kept, acked + |q[i].data|, rtt')
              && acked + |q[i].data| <= P.AckedBytes(q, ack)
  {
    assert q[i..][0] == q[i] && q[i..][1..] == q[i + 1..];
  }

  lemma RetireDone(q: seq<P.Segment>, ack: nat, now: int, rtt0: Rtt,
                   kept: seq<P.Segment>, acked: nat, rtt: Rtt)
    requires RetireSplit(q, |q|, ack, now, rtt0, kept, acked, rtt)
    ensures kept == P.Retire(q, ack) && acked == P.AckedBytes(q, ack)
    ensures rtt == P.SampleRetired(q, ack, now, rtt0)
  {
    assert q[|q|..] == [];
  }

  lemma GrowthFits(s: P.Sender, ack: nat, now: int)
    requires SenderInv(s, now)
    ensures var acked := P.AckedBytes(s.queue, ack);
            && s.cwnd > 0 && s.cwnd + acked < TWO32 && P.MAX_SEGMENT * acked < TWO32
            && 0 <= P.MAX_SEGMENT * acked / s.cwnd <= acked
  {
    AckedAtMost(s.queue, s.unack, s.next, ack);
    GrowCwndInRange(s.cwnd, s.ssthresh, P.AckedBytes(s.queue, ack));
  }

  lemma PeerWindowKeepsInv(s: P.Sender, wnd: nat, now: int)
    requires SenderInv(s, now) && wnd <= P.MAX_WINDOW
    ensures SenderInv(s.(peerWnd := wnd), now)
  {
    SegmentsSurvive(s, s.(peerWnd := wnd), now);
  }

  /** The comparison of this segment's end with the ACK is decided correctly. */
  predicate Decided(seg: P.Segment, ack: nat) {
    && Add32(Wrap(seg.seqNo), |seg.data|) == Wrap(seg.End())
    && (SeqLE(Wrap(seg.End()), Wrap(ack)) <==> seg.End() <= ack)
  }

  lemma SegmentEnds(s: P.Sender, ack: nat, now: int)
    requires SenderInv(s, now) && s.unack <= ack <= s.next
    ensures forall i :: 0 <= i < |s.queue| ==> Decided(s.queue[i], ack)
  {
    forall i | 0 <= i < |s.queue|
      ensures Decided(s.queue[i], ack)
    {
      TilesWithin(s, s.queue, s.unack, s.next, i, now);
      AddWrap(s.queue[i].seqNo, |s.queue[i].data|);
      SerialOrderExact(s.queue[i].End(), ack);
    }
  }

  lemma AcceptTrimmed(r: P.Receiver, at: nat, data: seq<byte>, trim: nat)
    requires data != [] && DataFits(r, at, data)
    requires trim == if at + |data| <= r.next then |data| else if at < r.next then r.next - at else 0
    ensures trim >= |data| ==> P.AcceptData(r, at, data) == r
    ensures 0 < trim < |data| ==> P.AcceptData(r, at, data) == P.Place(r, r.next, data[trim..])
                                  && PlaceFits(r, r.next, data[trim..])
    ensures trim == 0 ==> P.AcceptData(r, at, data) == P.Place(r, at, data) && PlaceFits(r, at, data)
  {
  }

  lemma OrderIsKept(a: int, b: int)
    requires -TWO31 <= a - b < TWO31
    ensures SeqLE(Wrap(a), Wrap(b)) <==> a <= b
    ensures SeqLT(Wrap(a), Wrap(b)) <==> a < b
  {
    SerialOrderExact(a, b);
  }

  lemma EqualIsKept(a: int, b: int)
    requires -TWO32 < a - b < TWO32
    ensures Wrap(a) == Wrap(b) <==> a == b
  {
    if Wrap(a) == Wrap(b) { WrapInjective(a, b); }
  }

  lemma GapIsKept(a: int, b: int)
    requires 0 <= a - b < TWO32
    ensures Sub32(Wrap(a), Wrap(b)) == a - b
  {
    SubWrap(a, b);
  }

  /** What acceptData finds to be old, by 32-bit comparison. */
  function Overlap32(next: uint32, seqNo: uint32, len: nat): nat {
    if SeqLE(Add32(seqNo, len), next) then len
    else if SeqLT(seqNo, next) then Min(Sub32(next, seqNo), len)
    else 0
  }

  /** Less than 2^31 bytes stale, data is found to be old exactly as far as it is. */
  lemma OverlapIsTrue(next: nat, at: nat, len: nat)
    requires next - at < TWO31 && at + len <= next + P.MAX_WINDOW
    ensures Overlap32(Wrap(next), Wrap(at), len) == if at + len <= next then len else if at < next then next - at else 0
  {
    AddWrap(at, len);
    OrderIsKept(at + len, next);
    OrderIsKept(at, next);
    if at < next {
      GapIsKept(next, at);
    }
  }

  /**
   * Why a delivery must not be staler: a segment that was delivered long ago is recognised as
   * old exactly while its end lies at most 2^31 bytes below `next`; beyond that it is taken for
   * data that came early, under a number other than that of `next`, and is parked.
   */
  lemma OldIsKnownIff(next: nat, at: nat, len: nat)
    requires 0 < len && at + len <= next && next - at < TWO32
    ensures Overlap32(Wrap(next), Wrap(at), len) == len <==> next - (at + len) <= TWO31
    ensures next - (at + len) > TWO31 ==> Overlap32(Wrap(next), Wrap(at), len) == 0 && Wrap(at) != Wrap(next)
  {
    AddWrap(at, len);
    SerialOrderExact(at + len, next);
    SerialOrderExact(at, next);
    EqualIsKept(at, next);
  }

  lemma DrainUnfolds(r: P.Receiver)
    requires r.next in r.ooo
    ensures |P.DrainRound(r).ooo| < |r.ooo|
    ensures P.Drain(r) == P.Drain(P.DrainRound(r))
    ensures r.ooo[r.next] == [] ==> P.Drain(r) == P.DrainRound(r)
  {
    P.RemoveShrinks(r.ooo, r.next);
  }

  lemma DrainableNext(r: P.Receiver)
    requires Drainable(r) && r.next in r.ooo
    ensures Drainable(P.DrainRound(r))
  {
  }

  /** The first i segments have been scanned with this outcome; the rest is still to come. */
  predicate ScanSplit(q: seq<P.Segment>, q': seq<P.Segment>, resent: seq<P.Segment>, i: nat, now: int, rto: int)
    requires i <= |q| == |q'|
  {
    var rest := P.ScanQueue(q[i..], now, rto);
    && q'[i..] == q[i..]
    && P.ScanQueue(q, now, rto) == P.Scan(q'[..i] + rest.queue, resent + rest.resent, rest.dead)
  }

  /** What scanning segment i does, in each of its three cases. */
  lemma ScanNext(q: seq<P.Segment>, q': seq<P.Segment>, resent: seq<P.Segment>, i: nat, now: int, rto: int)
    requires i < |q| == |q'| && ScanSplit(q, q', resent, i, now, rto)
    ensures q'[i] == q[i]
    ensures now - q[i].sentAt < rto ==> ScanSplit(q, q', resent, i + 1, now, rto)
    ensures now - q[i].sentAt >= rto && q[i].retries >= P.MAX_RETRIES ==>
              P.ScanQueue(q, now, rto).queue == q' && P.ScanQueue(q, now, rto).dead == Some(q[i])
    ensures now - q[i].sentAt >= rto && q[i].retries < P.MAX_RETRIES ==>
              var again := Again(q[i], now);
              ScanSplit(q, q'[i := again], resent + [again], i + 1, now, rto)
  {
    assert q'[i..][0] == q'[i] && q[i..][0] == q[i];
    assert q'[i..][1..] == q'[i + 1..] && q[i..][1..] == q[i + 1..];
    var rest := P.ScanQueue(q[i + 1..], now, rto);
    if now - q[i].sentAt < rto {
      assert q'[..i] + ([q[i]] + rest.queue) == q'[..i + 1] + rest.queue;
    } else if q[i].retries >= P.MAX_RETRIES {
      assert q'[..i] + q'[i..] == q';
    } else {
      var again := Again(q[i], now);
      var q1 := q'[i := again];
      assert q'[..i] + ([again] + rest.queue) == q1[..i + 1] + rest.queue;
      assert resent + ([again] + rest.resent) == resent + [again] + rest.resent;
      assert q1[i + 1..] == q[i + 1..];
    }
  }

  lemma ScanDone(q: seq<P.Segment>, q': seq<P.Segment>, resent: seq<P.Segment>, now: int, rto: int)
    requires |q| == |q'| && ScanSplit(q, q', resent, |q|, now, rto)
    ensures P.ScanQueue(q, now, rto) == P.Scan(q', resent, None)
  {
    assert q[|q|..] == [] && q'[..|q|] == q';
  }

  lemma OneFrame(f: P.Frame)
    requires f.wnd < 0x1_0000
    ensures WindowsFit([f]) && WireAll([f]) == [Wire(f)]
  {
  }

  function ScanOutcome(e: P.Endpoint, scan: P.Scan): P.Endpoint {
    if scan.dead.Some? then P.Die(e, scan) else P.AfterScan(e, scan)
  }

  function Again(seg: P.Segment, now: int): P.Segment {
    seg.(retries := seg.retries + 1, sentAt := now)
  }

  /** The frames of a list of segments, stamped with the state of this receiver. */
  function Resends(r: P.Receiver, segs: seq<P.Segment>): seq<seq<byte>> {
    seq(|segs|, i requires 0 <= i < |segs| =>
      Wire(P.Frame(P.FRAME_DATA, segs[i].seqNo, r.next, P.AdvertiseWindow(r), segs[i].data)))
  }

  lemma ResendsAppend(r: P.Receiver, segs: seq<P.Segment>, seg: P.Segment)
    ensures Resends(r, segs + [seg])
         == Resends(r, segs) + [Wire(P.Frame(P.FRAME_DATA, seg.seqNo, r.next, P.AdvertiseWindow(r), seg.data))]
  {
  }

  lemma ResendsAreFrames(e: P.Endpoint, segs: seq<P.Segment>)
    ensures WindowsFit(P.Frames(e, segs)) && WireAll(P.Frames(e, segs)) == Resends(e.rcv, segs)
  {
  }

  lemma FinishOutput(e: P.Endpoint, resent: seq<P.Frame>, now: int)
    requires WindowsFit(resent)
    ensures var probe := P.ProbeStep(e, now).1;
            var ack := P.MakeFrame(e, P.FRAME_ACK, e.snd.next, []);
            && WindowsFit(P.FinishTick(e, resent, now).1) && WindowsFit(probe)
            && WireAll(P.FinishTick(e, resent, now).1)
            == WireAll(resent) + WireAll(probe) + (if e.ackPending then [Wire(ack)] else [])
  {
    var probe := P.ProbeStep(e, now).1;
    var acks := if e.ackPending then [P.MakeFrame(e, P.FRAME_ACK, e.snd.next, [])] else [];
    WireAllAppend(resent, probe);
    WireAllAppend(resent + probe, acks);
  }
}
