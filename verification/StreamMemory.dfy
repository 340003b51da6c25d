/** How much a receiver can ever be made to hold, in order and parked together. */
module StreamMemory {
  import opened Basics
  import opened StreamProtocol
  import opened StreamSystem
  import opened StreamInvariant

  ghost function ParkedBytes(m: map<nat, seq<byte>>): nat
    decreases |m|
  {
    if m == map[] then 0
    else
      var k :| k in m;
      RemoveShrinks(m, k);
      |m[k]| + ParkedBytes(m - {k})
  }

  ghost function Held(r: Receiver): nat {
    |r.buf| + ParkedBytes(r.ooo)
  }

  lemma {:induction false} ParkedRemove(m: map<nat, seq<byte>>, k: nat)
    requires k in m
    ensures ParkedBytes(m) == |m[k]| + ParkedBytes(m - {k})
    decreases |m|
  {
    var j :| j in m && ParkedBytes(m) == |m[j]| + ParkedBytes(m - {j});
    if j != k {
      RemoveShrinks(m, j);
      RemoveShrinks(m, k);
      ParkedRemove(m - {j}, k);
      ParkedRemove(m - {k}, j);
      assert m - {j} - {k} == m - {k} - {j};
    }
  }

  lemma ParkedAdd(m: map<nat, seq<byte>>, k: nat, data: seq<byte>)
    requires k !in m
    ensures ParkedBytes(m[k := data]) == |data| + ParkedBytes(m)
  {
    ParkedRemove(m[k := data], k);
    assert m[k := data] - {k} == m;
  }

  lemma {:induction false} MaxKey(ks: set<nat>) returns (k: nat)
    requires ks != {}
    ensures k in ks && forall j :: j in ks ==> j <= k
  {
    var one :| one in ks;
    var rest := ks - {one};
    if rest == {} {
      assert ks == {one};
      k := one;
    } else {
      var m := MaxKey(rest);
      k := if one < m then m else one;
      assert forall j :: j in ks ==> j == one || j in rest;
    }
  }

  /** Disjoint pieces inside [lo, hi) add up to at most hi - lo. */
  lemma {:induction false} PiecesFit(m: map<nat, seq<byte>>, lo: nat, hi: nat)
    requires lo <= hi
    requires forall k :: k in m ==> lo <= k && k + |m[k]| <= hi
    requires forall j, k :: j in m && k in m && j < k ==> j + |m[j]| <= k
    ensures ParkedBytes(m) <= hi - lo
    decreases |m|
  {
    if m != map[] {
      var k := MaxKey(m.Keys);
      RemoveShrinks(m, k);
      ParkedRemove(m, k);
      PiecesFit(m - {k}, lo, k);
    }
  }

  /** Everything parked has been sent but not yet acknowledged. */
  lemma ParkedFits(r: Receiver, x: Endpoint)
    requires OffsetsInv(x.snd) && ReceiverInv(r, x)
    ensures ParkedBytes(r.ooo) <= x.snd.next - r.next
  {
    forall k | k in r.ooo
      ensures k + |r.ooo[k]| <= x.snd.next
      ensures forall j :: j in r.ooo && k < j ==> k + |r.ooo[k]| <= j
    {
      assert ParkedInv(x, k, r.ooo[k]);
      forall j | j in r.ooo && k < j
        ensures k + |r.ooo[k]| <= j
      {
        assert ParkedInv(x, j, r.ooo[j]);
      }
    }
    PiecesFit(r.ooo, r.next, x.snd.next);
  }

  /** Draining moves bytes from the parked map to the buffer and loses none. */
  lemma {:induction false} DrainConserves(r: Receiver)
    ensures Held(Drain(r)) == Held(r)
    decreases |r.ooo|
  {
    if r.next in r.ooo {
      RemoveShrinks(r.ooo, r.next);
      ParkedRemove(r.ooo, r.next);
      if r.ooo[r.next] != [] {
        DrainConserves(DrainRound(r));
      }
    }
  }

  const HELD_MAX: nat := RECV_BUF_MAX + MAX_WINDOW

  /** Data at or above `next` is held in full or not at all. */
  lemma PlaceConserves(r: Receiver, lo: nat, data: seq<byte>)
    ensures Held(Place(r, lo, data)) == Held(r) || Held(Place(r, lo, data)) == Held(r) + |data|
    ensures Held(Place(r, lo, data)) != Held(r) ==> |r.buf| + |data| <= RECV_BUF_MAX
  {
    if lo == r.next {
      DrainConserves(Appended(r, data));
    } else if lo !in r.ooo {
      ParkedAdd(r.ooo, lo, data);
    }
  }

  lemma AcceptDataBounded(r: Receiver, x: Endpoint, lo: nat, data: seq<byte>)
    requires OffsetsInv(x.snd) && ReceiverInv(r, x) && SentSegment(x.snd, lo, data)
    requires Held(r) <= HELD_MAX
    ensures Held(AcceptData(r, lo, data)) <= HELD_MAX
  {
    NeverPartialOverlap(r, x, lo, data);
    ParkedFits(r, x);
    PlaceConserves(r, lo, data);
  }

  lemma AcceptFinHolds(r: Receiver, x: Endpoint)
    requires OffsetsInv(x.snd) && ReceiverInv(r, x) && x.finSent
    ensures Held(AcceptFin(r, x.snd.next)) == Held(r)
  {
    var k := x.snd.next;
    AcceptFinKeepsInv(r, x);
    if k != r.next {
      if k in r.ooo {
        assert r.ooo[k := []] == r.ooo;
      } else {
        ParkedAdd(r.ooo, k, []);
      }
    }
  }

  predicate ReadsOrKeeps(r: Receiver, r': Receiver) {
    |r'.buf| <= |r.buf| && r'.ooo == r.ooo
  }

  lemma OthersOnlyRead(x: Endpoint, inbox: seq<Frame>, act: Action, now: int)
    requires CanAct(x, inbox, act) && !act.Deliver?
    ensures ReadsOrKeeps(x.rcv, Act(x, inbox, act, now).0.rcv)
  {
  }

  lemma DeliveryBounded(x: Endpoint, y: Endpoint, f: Frame, now: int)
    requires OffsetsInv(y.snd) && ReceiverInv(x.rcv, y) && FrameInv(y, x, f) && Held(x.rcv) <= HELD_MAX
    ensures Held(OnFrameStep(x, f, now).rcv) <= HELD_MAX
  {
    if f.typ == FRAME_DATA && f.payload != [] {
      AcceptDataBounded(x.rcv, y, f.seqNo, f.payload);
    } else if f.typ == FRAME_FIN {
      AcceptFinHolds(x.rcv, y);
    }
  }

  lemma ActBounded(x: Endpoint, y: Endpoint, inbox: seq<Frame>, act: Action, now: int)
    requires OffsetsInv(y.snd) && ReceiverInv(x.rcv, y) && LogInv(y, x, inbox) && CanAct(x, inbox, act)
    requires Held(x.rcv) <= HELD_MAX
    ensures Held(Act(x, inbox, act, now).0.rcv) <= HELD_MAX
  {
    if act.Deliver? {
      assert FrameInv(y, x, inbox[act.index]);
      DeliveryBounded(x, y, inbox[act.index], now);
    } else {
      OthersOnlyRead(x, inbox, act, now);
    }
  }

  lemma StepBounded(s: System, ev: Event)
    requires SystemInv(s) && Enabled(s, ev)
    requires Held(s.a.rcv) <= HELD_MAX && Held(s.b.rcv) <= HELD_MAX
    ensures var s' := Step(s, ev); Held(s'.a.rcv) <= HELD_MAX && Held(s'.b.rcv) <= HELD_MAX
  {
    LaterEndpoint(s.a, s.now, ev.now);
    LaterEndpoint(s.b, s.now, ev.now);
    if ev.side.A? {
      ActBounded(s.a, s.b, s.ba, ev.action, ev.now);
    } else {
      ActBounded(s.b, s.a, s.ab, ev.action, ev.now);
    }
  }

  lemma {:induction false} RunBounded(s: System, evs: seq<Event>)
    requires SystemInv(s) && Runs(s, evs)
    requires Held(s.a.rcv) <= HELD_MAX && Held(s.b.rcv) <= HELD_MAX
    ensures var s' := After(s, evs); Held(s'.a.rcv) <= HELD_MAX && Held(s'.b.rcv) <= HELD_MAX
    decreases |evs|
  {
    if evs != [] {
      StepKeepsInv(s, evs[0]);
      StepBounded(s, evs[0]);
      RunBounded(Step(s, evs[0]), evs[1..]);
    }
  }

  /**
   * The true bound under any reordering: in order and parked together, a receiver holds at
   * most RecvBufMax plus one largest window.
   */
  lemma ReceiveMemoryBounded(s: System)
    requires Reachable(s)
    ensures Held(s.a.rcv) <= RECV_BUF_MAX + MAX_WINDOW
    ensures Held(s.b.rcv) <= RECV_BUF_MAX + MAX_WINDOW
  {
    var t0: int, evs: seq<Event> :| Runs(InitSystem(t0), evs) && s == After(InitSystem(t0), evs);
    InitKeepsInv(t0);
    RunBounded(InitSystem(t0), evs);
  }
}
