/**
 * Two 32-bit streams joined by a hostile network, and the run of the unbounded protocol they
 * follow.
 */
module StreamPair {
  import opened Basics
  import P = StreamProtocol
  import opened StreamSystem
  import opened StreamInvariant
  import opened StreamWire
  import opened Stream32

  ghost predicate Tracks(x: Stream, e: P.Endpoint, log: seq<P.Frame>)
    reads x
  {
    x.Represents() && x.View() == e && WindowsFit(log) && x.wire == WireAll(log)
  }

  lemma WireDecodes(f: P.Frame)
    requires f.wnd < 0x1_0000 && |f.payload| < 0x1_0000
    ensures DecodeFrame(Wire(f)) == Ok(FrameImage(f))
  {
    FrameRoundTrip(FrameImage(f), []);
  }

  /** What a delivery puts on the wire: the ACK it owes, or nothing. */
  lemma DeliveryOutput(e: P.Endpoint, frames: seq<P.Frame>, i: nat, now: int, log: seq<P.Frame>)
    requires i < |frames| && WindowsFit(log)
    ensures var (e', out) := Call(e, frames, Deliver(i), now);
            && WindowsFit(out) && WindowsFit(log + out) && WireAll(log + out) == WireAll(log) + WireAll(out)
            && e' == (if P.AnswersWithAck(frames[i]) then P.AckStep(P.OnFrameStep(e, frames[i], now)).0
                      else P.OnFrameStep(e, frames[i], now))
            && out == (if P.AnswersWithAck(frames[i]) then P.AckStep(P.OnFrameStep(e, frames[i], now)).1 else [])
  {
    var reply := P.AckStep(P.OnFrameStep(e, frames[i], now)).1;
    OneFrame(reply[0]);
    WireAllAppend(log, reply);
    assert log + [] == log;
  }

  /** Delivery of any frame of the log that is not 2^31 bytes stale. */
  method Receive(x: Stream, inbox: seq<seq<byte>>, i: nat, now: int, ghost e: P.Endpoint, ghost y: P.Endpoint,
                 ghost log: seq<P.Frame>, ghost frames: seq<P.Frame>)
    requires Tracks(x, e, log) && Paired(e, y, now)
    requires WindowsFit(frames) && inbox == WireAll(frames) && LogInv(y, e, frames)
    requires i < |inbox| && Fresh(e, frames[i])
    modifies x
    ensures Tracks(x, Call(e, frames, Deliver(i), now).0, log + Call(e, frames, Deliver(i), now).1)
  {
    ghost var f := frames[i];
    assert FrameInv(y, e, f);
    WireDecodes(f);
    ArrivalFits(e, y, f, now);
    DeliveryOutput(e, frames, i, now, log);
    x.OnFrame(inbox[i], now, f);
  }

  /** Any other call, on a stream that is ready for it. */
  method Invoke(x: Stream, act: Action, now: int, ghost e: P.Endpoint, ghost log: seq<P.Frame>) returns (r: ReadResult32)
    requires Tracks(x, e, log) && OffsetsInv(e.snd) && CanAct(e, [], act) && !act.Deliver?
    modifies x
    ensures Tracks(x, Call(e, [], act, now).0, log + Call(e, [], act, now).1)
    ensures act.Read? ==> r == ReadImage(P.ReadOutcome(e, act.cap))
  {
    ghost var out := Call(e, [], act, now).1;
    assert log + [] == log;
    r := Blocked;
    match act
    case Write(p) =>
      var _ := x.WriteSegment(p, now);
      WireAllAppend(log, out);
    case Read(cap) =>
      r := x.Read(cap);
      if WindowsFit(out) { WireAllAppend(log, out); }
    case Close =>
      x.Close();
      WireAllAppend(log, out);
    case Ack =>
      x.SendAck();
      WireAllAppend(log, out);
    case Tick =>
      var _ := x.Tick(now);
      WireAllAppend(log, out);
  }

  /** What a call does does not depend on the other end's log, unless it is a delivery. */
  lemma CallAlone(e: P.Endpoint, frames: seq<P.Frame>, act: Action, now: int)
    requires CanAct(e, frames, act) && !act.Deliver?
    ensures CanAct(e, [], act) && Call(e, [], act, now) == Call(e, frames, act, now)
  {
  }

  /** Any call on one stream of a pair. */
  method Move(x: Stream, act: Action, now: int, inbox: seq<seq<byte>>, ghost e: P.Endpoint, ghost y: P.Endpoint,
              ghost log: seq<P.Frame>, ghost frames: seq<P.Frame>) returns (r: ReadResult32)
    requires Tracks(x, e, log) && Paired(e, y, now) && CanAct(e, frames, act)
    requires WindowsFit(frames) && inbox == WireAll(frames) && LogInv(y, e, frames)
    requires act.Deliver? ==> Fresh(e, frames[act.index])
    modifies x
    ensures Tracks(x, Call(e, frames, act, now).0, log + Call(e, frames, act, now).1)
    ensures act.Read? ==> r == ReadImage(P.ReadOutcome(e, act.cap))
  {
    r := Blocked;
    if act.Deliver? {
      Receive(x, inbox, act.index, now, e, y, log, frames);
    } else {
      CallAlone(e, frames, act, now);
      r := Invoke(x, act, now, e, log);
    }
  }

  class Pair {
    const a: Stream
    const b: Stream
    ghost var sys: System

    /** The two streams are the 32-bit image of a reachable state of the unbounded protocol. */
    ghost predicate Valid()
      reads this, a, b
    {
      && a != b
      && Tracks(a, sys.a, sys.ab) && Tracks(b, sys.b, sys.ba)
      && Reachable(sys)
    }

    constructor (t0: int)
      ensures Valid() && sys == InitSystem(t0) && fresh(a) && fresh(b)
    {
      a := new Stream();
      b := new Stream();
      sys := InitSystem(t0);
      new;
      assert Runs(InitSystem(t0), []) && After(InitSystem(t0), []) == sys;
    }

    method AtA(act: Action, now: int) returns (r: ReadResult32)
      requires Valid() && Enabled(sys, Event(A, act, now))
      requires act.Deliver? ==> Fresh(sys.a, sys.ba[act.index])
      modifies a
      ensures Tracks(a, Call(sys.a, sys.ba, act, now).0, sys.ab + Call(sys.a, sys.ba, act, now).1)
      ensures act.Read? ==> r == ReadImage(P.ReadOutcome(sys.a, act.cap))
    {
      ReachableInv(sys);
      LaterEndpoint(sys.a, sys.now, now);
      LaterEndpoint(sys.b, sys.now, now);
      r := Move(a, act, now, b.wire, sys.a, sys.b, sys.ab, sys.ba);
    }

    method AtB(act: Action, now: int) returns (r: ReadResult32)
      requires Valid() && Enabled(sys, Event(B, act, now))
      requires act.Deliver? ==> Fresh(sys.b, sys.ab[act.index])
      modifies b
      ensures Tracks(b, Call(sys.b, sys.ab, act, now).0, sys.ba + Call(sys.b, sys.ab, act, now).1)
      ensures act.Read? ==> r == ReadImage(P.ReadOutcome(sys.b, act.cap))
    {
      ReachableInv(sys);
      LaterEndpoint(sys.a, sys.now, now);
      LaterEndpoint(sys.b, sys.now, now);
      r := Move(b, act, now, a.wire, sys.b, sys.a, sys.ba, sys.ab);
    }

    /**
     * Any call at either end, with any frame of the other end's log as input of a delivery,
     * keeps the pair on a run of the unbounded protocol. The only demand on the network is
     * that a delivered frame is less than 2^31 bytes stale.
     */
    method Do(side: Side, act: Action, now: int) returns (r: ReadResult32)
      requires Valid() && Enabled(sys, Event(side, act, now))
      requires act.Deliver? ==>
                 if side.A? then Fresh(sys.a, sys.ba[act.index]) else Fresh(sys.b, sys.ab[act.index])
      modifies this, a, b
      ensures Valid() && sys == Steps(old(sys), side, act, now)
      ensures act.Read? ==> r == ReadImage(P.ReadOutcome(if side.A? then old(sys).a else old(sys).b, act.cap))
    {
      StepsAre(sys, side, act, now);
      if side.A? {
        r := AtA(act, now);
      } else {
        r := AtB(act, now);
      }
      sys := Steps(sys, side, act, now);
    }

    /**
     * End to end, in the fields of the program: after any such calls, however many times the
     * 32-bit counters have wrapped, the bytes read at B and the bytes in B's buffer are the
     * first bytes written at A, and B's counter is their number modulo 2^32.
     */
    lemma BytesArriveIntact()
      requires Valid()
      ensures sys.b.rcv.next <= |sys.a.snd.written|
      ensures sys.b.rcv.delivered + b.rcvBuf == sys.a.snd.written[..sys.b.rcv.next]
      ensures b.rcvNext == sys.b.rcv.next % TWO32 && a.sndNext == |sys.a.snd.written| % TWO32
      ensures b.finRecvd ==> a.closed && b.rcvNext == a.sndNext
      ensures b.finRecvd ==> sys.b.rcv.delivered + b.rcvBuf == sys.a.snd.written
    {
      ReachableInv(sys);
      if b.finRecvd {
        assert sys.a.snd.written[..sys.b.rcv.next] == sys.a.snd.written;
      }
    }
  }
}
