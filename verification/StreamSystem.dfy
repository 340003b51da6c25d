/**
 * Two endpoints and a hostile network.
 *
 * Each direction of the network is the log of every frame ever sent that way. Any entry may
 * be delivered at any time, any number of times or never: that is loss, duplication and
 * reordering at once.
 */
module StreamSystem {
  import opened Basics
  import opened StreamProtocol

  /** `heardA` and `heardB` are history: the log position last delivered to that side, or -1. */
  datatype System = System(
    a: Endpoint, b: Endpoint, ab: seq<Frame>, ba: seq<Frame>, heardA: int, heardB: int, now: int)

  datatype Action =
    | Write(bytes: seq<byte>) | Read(cap: nat) | Close | Ack | Tick | Deliver(index: nat)

  datatype Side = A | B

  datatype Event = Event(side: Side, action: Action, now: int)

  function InitSystem(now: int): System {
    System(InitEndpoint(), InitEndpoint(), [], [], -1, -1, now)
  }

  /** The same system seen from the other end. */
  function Swap(s: System): System {
    System(s.b, s.a, s.ba, s.ab, s.heardB, s.heardA, s.now)
  }

  /** Write goes on only with an open window; everything else may happen at any time. */
  predicate CanAct(e: Endpoint, inbox: seq<Frame>, act: Action) {
    match act
    case Write(p) => p != [] && !e.closed && !e.reset && e.snd.unack <= e.snd.next && WindowAvailable(e.snd) > 0
    case Deliver(i) => i < |inbox|
    case _ => true
  }

  function Act(e: Endpoint, inbox: seq<Frame>, act: Action, now: int): (Endpoint, seq<Frame>)
    requires CanAct(e, inbox, act)
  {
    match act
    case Write(p) => WriteStep(e, p, now)
    case Read(cap) => (ReadStep(e, cap), [])
    case Close => CloseStep(e)
    case Ack => AckStep(e)
    case Tick => TickStep(e, now)
    case Deliver(i) => (OnFrameStep(e, inbox[i], now), [])
  }

  function StepA(s: System, act: Action, now: int): System
    requires CanAct(s.a, s.ba, act)
  {
    var (a, out) := Act(s.a, s.ba, act, now);
    System(a, s.b, s.ab + out, s.ba, if act.Deliver? then act.index else s.heardA, s.heardB, now)
  }

  predicate Enabled(s: System, ev: Event) {
    && s.now <= ev.now
    && (if ev.side.A? then CanAct(s.a, s.ba, ev.action) else CanAct(s.b, s.ab, ev.action))
  }

  function Step(s: System, ev: Event): System
    requires Enabled(s, ev)
  {
    if ev.side.A? then StepA(s, ev.action, ev.now)
    else Swap(StepA(Swap(s), ev.action, ev.now))
  }

  /** A run is a list of events, each possible in the state its predecessors lead to. */
  predicate Runs(s: System, evs: seq<Event>)
    decreases |evs|
  {
    evs == [] || (Enabled(s, evs[0]) && Runs(Step(s, evs[0]), evs[1..]))
  }

  function After(s: System, evs: seq<Event>): System
    requires Runs(s, evs)
    decreases |evs|
  {
    if evs == [] then s else After(Step(s, evs[0]), evs[1..])
  }

  ghost predicate Reachable(s: System) {
    exists t0: int, evs: seq<Event> :: Runs(InitSystem(t0), evs) && s == After(InitSystem(t0), evs)
  }

  lemma {:induction false} RunsAppend(s: System, evs: seq<Event>, ev: Event)
    requires Runs(s, evs) && Enabled(After(s, evs), ev)
    ensures Runs(s, evs + [ev]) && After(s, evs + [ev]) == Step(After(s, evs), ev)
    decreases |evs|
  {
    if evs == [] {
      assert evs + [ev] == [ev];
      assert Runs(Step(s, ev), [ev][1..]) && After(Step(s, ev), [ev][1..]) == Step(s, ev);
    } else {
      assert (evs + [ev])[1..] == evs[1..] + [ev];
      RunsAppend(Step(s, evs[0]), evs[1..], ev);
    }
  }

  lemma StepReachable(s: System, ev: Event)
    requires Reachable(s) && Enabled(s, ev)
    ensures Reachable(Step(s, ev))
  {
    var t0: int, evs: seq<Event> :| Runs(InitSystem(t0), evs) && s == After(InitSystem(t0), evs);
    RunsAppend(InitSystem(t0), evs, ev);
  }

  /** Whether the call also sends an ACK, as a second step under the lock. */
  predicate AcksAfterwards(e: Endpoint, inbox: seq<Frame>, act: Action)
    requires CanAct(e, inbox, act)
  {
    match act
    case Read(cap) => e.rcv.buf != []
    case Deliver(i) => AnswersWithAck(inbox[i])
    case _ => false
  }

  function Call(e: Endpoint, inbox: seq<Frame>, act: Action, now: int): (Endpoint, seq<Frame>)
    requires CanAct(e, inbox, act)
  {
    var (e1, out) := Act(e, inbox, act, now);
    if AcksAfterwards(e, inbox, act) then (AckStep(e1).0, out + AckStep(e1).1) else (e1, out)
  }

  /** The one or two steps of the protocol that a call takes. */
  function Steps(s: System, side: Side, act: Action, now: int): System
    requires Enabled(s, Event(side, act, now))
  {
    var s1 := Step(s, Event(side, act, now));
    var acks := if side.A? then AcksAfterwards(s.a, s.ba, act) else AcksAfterwards(s.b, s.ab, act);
    if acks then Step(s1, Event(side, Ack, now)) else s1
  }

  /** A call moves one end and lengthens the log of that end. */
  lemma StepsAre(s: System, side: Side, act: Action, now: int)
    requires Reachable(s) && Enabled(s, Event(side, act, now))
    ensures Reachable(Steps(s, side, act, now))
    ensures side.A? ==> var (e, out) := Call(s.a, s.ba, act, now);
                        && Steps(s, side, act, now).a == e && Steps(s, side, act, now).ab == s.ab + out
                        && Steps(s, side, act, now).b == s.b && Steps(s, side, act, now).ba == s.ba
    ensures side.B? ==> var (e, out) := Call(s.b, s.ab, act, now);
                        && Steps(s, side, act, now).b == e && Steps(s, side, act, now).ba == s.ba + out
                        && Steps(s, side, act, now).a == s.a && Steps(s, side, act, now).ab == s.ab
  {
    StepReachable(s, Event(side, act, now));
    var s1 := Step(s, Event(side, act, now));
    var acks := if side.A? then AcksAfterwards(s.a, s.ba, act) else AcksAfterwards(s.b, s.ab, act);
    if acks {
      StepReachable(s1, Event(side, Ack, now));
      var (log, x, inbox) := if side.A? then (s.ab, s.a, s.ba) else (s.ba, s.b, s.ab);
      var (e1, out) := Act(x, inbox, act, now);
      assert log + out + AckStep(e1).1 == log + (out + AckStep(e1).1);
    }
  }

  /** A run of whole calls: every call is followed by the ACK it owes. */
  predicate CallRuns(s: System, calls: seq<Event>)
    decreases |calls|
  {
    calls == [] || (Enabled(s, calls[0])
                    && CallRuns(Steps(s, calls[0].side, calls[0].action, calls[0].now), calls[1..]))
  }

  function AfterCalls(s: System, calls: seq<Event>): System
    requires CallRuns(s, calls)
    decreases |calls|
  {
    if calls == [] then s
    else AfterCalls(Steps(s, calls[0].side, calls[0].action, calls[0].now), calls[1..])
  }

  /** The states that calls on two streams lead to. */
  ghost predicate CallReachable(s: System) {
    exists t0: int, calls: seq<Event> ::
      CallRuns(InitSystem(t0), calls) && s == AfterCalls(InitSystem(t0), calls)
  }

  lemma {:induction false} CallsAppend(s: System, calls: seq<Event>, ev: Event)
    requires CallRuns(s, calls) && Enabled(AfterCalls(s, calls), ev)
    ensures CallRuns(s, calls + [ev])
    ensures AfterCalls(s, calls + [ev]) == Steps(AfterCalls(s, calls), ev.side, ev.action, ev.now)
    decreases |calls|
  {
    if calls == [] {
      var s1 := Steps(s, ev.side, ev.action, ev.now);
      assert calls + [ev] == [ev] && [ev][1..] == [];
      assert CallRuns(s1, []) && AfterCalls(s1, []) == s1;
    } else {
      assert (calls + [ev])[1..] == calls[1..] + [ev];
      CallsAppend(Steps(s, calls[0].side, calls[0].action, calls[0].now), calls[1..], ev);
    }
  }

  lemma CallLeadsOn(s: System, side: Side, act: Action, now: int)
    requires CallReachable(s) && Enabled(s, Event(side, act, now))
    ensures CallReachable(Steps(s, side, act, now))
  {
    var t0: int, calls: seq<Event> :| CallRuns(InitSystem(t0), calls) && s == AfterCalls(InitSystem(t0), calls);
    CallsAppend(InitSystem(t0), calls, Event(side, act, now));
  }

  lemma {:induction false} CallsAreRuns(s: System, calls: seq<Event>)
    requires Reachable(s) && CallRuns(s, calls)
    ensures Reachable(AfterCalls(s, calls))
    decreases |calls|
  {
    if calls != [] {
      StepsAre(s, calls[0].side, calls[0].action, calls[0].now);
      CallsAreRuns(Steps(s, calls[0].side, calls[0].action, calls[0].now), calls[1..]);
    }
  }

  /** Runs of calls are runs. */
  lemma CallReachableIsReachable(s: System)
    requires CallReachable(s)
    ensures Reachable(s)
  {
    var t0: int, calls: seq<Event> :| CallRuns(InitSystem(t0), calls) && s == AfterCalls(InitSystem(t0), calls);
    assert Runs(InitSystem(t0), []) && After(InitSystem(t0), []) == InitSystem(t0);
    CallsAreRuns(InitSystem(t0), calls);
  }
}
