/** Hop-by-hop forwarding: frames, the walk through one node, and journeys across the network. */
module Forwarding {
  import opened Basics
  import opened StreamWire
  import P = NsPath
  import T = NsTable

  type Path = T.Path

  // ---- frames ----

  const RETIRED_MAGIC: byte := 0xDF
  const PATH_MAGIC: byte := 0xDE

  datatype Frame = Frame(path: Path, consumed: nat, payload: seq<byte>)

  datatype Refusal = EmptyFrame | RetiredFormat | Truncated | BadPath(error: T.NsError) | UnknownMarker

  /** The counter keeps only its low 16 bits. A path that cannot be encoded is not sent. */
  function EncodeFrame(f: Frame): Option<seq<byte>> {
    match P.Encode(f.path)
    case Err(_) => None
    case Ok(enc) => Some([PATH_MAGIC] + enc + PutUint16(f.consumed % 0x1_0000) + f.payload)
  }

  function DecodeFrame(b: seq<byte>): Result<Frame, Refusal> {
    if |b| < 1 then Err(EmptyFrame)
    else if b[0] == RETIRED_MAGIC then Err(RetiredFormat)
    else if b[0] != PATH_MAGIC then Err(UnknownMarker)
    else if |b| < 2 then Err(Truncated)
    else
      match P.Decode(b[1..])
      case Err(e) => Err(BadPath(e))
      case Ok(p) =>
        var n := 2 + |p| * P.NID_SIZE;
        if |b| < n + 2 then Err(Truncated)
        else Ok(Frame(p, Uint16(b[n..n + 2]), b[n + 2..]))
  }

  lemma EncodedLength(p: Path)
    requires P.Encode(p).Ok?
    ensures |P.Encode(p).value| == 1 + |p| * P.NID_SIZE
  {
  }

  /** A frame survives the wire whole, exactly when its counter fits 16 bits. */
  lemma FrameRoundTrip(f: Frame)
    ensures EncodeFrame(f).Some? <==> 1 <= |f.path| <= T.MAX_DEPTH
    ensures EncodeFrame(f).Some? ==>
              DecodeFrame(EncodeFrame(f).value) == Ok(f.(consumed := f.consumed % 0x1_0000))
  {
    P.PathRoundTrip(f.path, []);
    if EncodeFrame(f).Some? {
      var enc, c := P.Encode(f.path).value, PutUint16(f.consumed % 0x1_0000);
      var b := EncodeFrame(f).value;
      EncodedLength(f.path);
      P.PathRoundTrip(f.path, c + f.payload);
      assert b[1..] == enc + (c + f.payload);
      var n := 2 + |f.path| * P.NID_SIZE;
      assert b[n..n + 2] == c && b[n + 2..] == f.payload;
    }
  }

  /** Whatever is accepted has a path of 1 to 16 levels and a 16-bit counter. */
  lemma DecodedFrame(b: seq<byte>)
    requires DecodeFrame(b).Ok?
    ensures 1 <= |DecodeFrame(b).value.path| <= T.MAX_DEPTH && DecodeFrame(b).value.consumed < 0x1_0000
    ensures EncodeFrame(DecodeFrame(b).value) == Some(b)
  {
    var f := DecodeFrame(b).value;
    P.DecodedBytes(b[1..]);
    EncodedLength(f.path);
    P.PathRoundTrip(f.path, []);
    var n, enc := 2 + |f.path| * P.NID_SIZE, P.Encode(f.path).value;
    Uint16RoundTrip(0, b[n..n + 2]);
    assert b[1..n] == b[1..][..n - 1] == enc;
    assert b == [b[0]] + b[1..n] + b[n..n + 2] + b[n + 2..];
  }

  // ---- one node ----

  datatype Router = Router(name: string, depth: int, nids: map<string, string>)

  /** The routers hosted on a box, each under the level it reads, and the addresses of the hops. */
  datatype Node = Node(routers: map<int, Router>, hops: map<string, string>)

  predicate WellBuilt(n: Node) {
    forall d :: d in n.routers ==> n.routers[d].depth == d
  }

  /** Hosts the configured routers; of two for one level the later is kept. */
  method Host(rs: seq<Router>, hops: map<string, string>) returns (n: Node)
    ensures WellBuilt(n) && n.hops == hops
    ensures forall i :: 0 <= i < |rs| ==> rs[i].depth in n.routers
    ensures forall d :: d in n.routers ==>
              exists i :: 0 <= i < |rs| && n.routers[d] == rs[i] && forall j :: i < j < |rs| ==> rs[j].depth != d
  {
    var routers: map<int, Router> := map[];
    for k := 0 to |rs|
      invariant forall i :: 0 <= i < k ==> rs[i].depth in routers
      invariant forall d :: d in routers ==> routers[d].depth == d
      invariant forall d :: d in routers ==>
                  exists i :: 0 <= i < k && routers[d] == rs[i] && forall j :: i < j < k ==> rs[j].depth != d
    {
      routers := routers[rs[k].depth := rs[k]];
    }
    return Node(routers, hops);
  }

  const DELIVER := ":deliver"
  const LOCAL := ":local"
  const LOCAL_NEXT := ":localnext"

  datatype DropReason = NoRouter | NoLevel | NoRoute | UnknownHop | NoNextRouter

  /** What one level of the walk decides. A stranded frame has matched, but there is no router for the next level. */
  datatype Verdict = Drop(reason: DropReason) | Stranded | Deliver | Next | Send(addr: string)

  function KeyAt(path: Path, depth: int): Option<string> {
    if 0 <= depth < |path| then Some(P.Decimal(path[depth])) else None
  }

  function Match(n: Node, path: Path, consumed: nat): Verdict {
    if consumed !in n.routers then Drop(NoRouter)
    else
      var r := n.routers[consumed];
      var key := KeyAt(path, r.depth);
      if key.None? then Drop(NoLevel)
      else if key.value !in r.nids then Drop(NoRoute)
      else if r.nids[key.value] !in n.hops then Drop(UnknownHop)
      else
        var hop := n.hops[r.nids[key.value]];
        if hop == DELIVER || hop == LOCAL then Deliver
        else if hop == LOCAL_NEXT then
          if consumed + 1 !in n.routers then Stranded else Next
        else Send(hop)
  }

  predicate Matched(v: Verdict) {
    !v.Drop?
  }

  /** A level beyond the path never matches: this is what bounds every walk. */
  lemma MatchWithinPath(n: Node, path: Path, consumed: nat)
    requires WellBuilt(n) && Matched(Match(n, path, consumed))
    ensures consumed < |path|
  {
  }

  /** How a frame leaves a node, and the counter it leaves with. */
  datatype Outcome = Dropped(reason: DropReason) | Delivered(consumed: nat) | Sent(addr: string, consumed: nat)

  function RouteFrom(n: Node, path: Path, consumed: nat): Outcome
    requires WellBuilt(n)
    decreases |path| - consumed
  {
    match Match(n, path, consumed)
    case Drop(reason) => Dropped(reason)
    case Stranded => Dropped(NoNextRouter)
    case Deliver => Delivered(consumed + 1)
    case Send(addr) => Sent(addr, consumed + 1)
    case Next => MatchWithinPath(n, path, consumed); RouteFrom(n, path, consumed + 1)
  }

  /** The walk through the routers of one node. */
  method Route(n: Node, path: Path, start: nat) returns (out: Outcome)
    requires WellBuilt(n)
    ensures out == RouteFrom(n, path, start)
  {
    var consumed := start;
    while true
      invariant RouteFrom(n, path, consumed) == RouteFrom(n, path, start)
      decreases |path| - consumed
    {
      if consumed !in n.routers {
        return Dropped(NoRouter);
      }
      var r := n.routers[consumed];
      var key := KeyAt(path, r.depth);
      if key.None? {
        return Dropped(NoLevel);
      }
      if key.value !in r.nids {
        return Dropped(NoRoute);
      }
      var nextLabel := r.nids[key.value];
      if nextLabel !in n.hops {
        return Dropped(UnknownHop);
      }
      var hop := n.hops[nextLabel];
      consumed := consumed + 1;
      if hop == DELIVER || hop == LOCAL {
        return Delivered(consumed);
      }
      if hop == LOCAL_NEXT {
        if consumed !in n.routers {
          return Dropped(NoNextRouter);
        }
      } else {
        return Sent(hop, consumed);
      }
    }
  }

  // ---- the whole network ----

  type Network = map<string, Node>

  predicate NetworkBuilt(net: Network) {
    forall a :: a in net ==> WellBuilt(net[a])
  }

  datatype End = Lost(addr: string) | Refused(reason: DropReason) | Arrived

  /** A match was made at this box on this level. */
  datatype Visit = Visit(addr: string, level: nat)

  datatype Journey = Journey(visits: seq<Visit>, end: End)

  /** The whole way of a frame: every match it makes, and how it ends. */
  function Travel(net: Network, addr: string, path: Path, consumed: nat): (j: Journey)
    requires NetworkBuilt(net)
    decreases |path| - consumed
  {
    if addr !in net then Journey([], Lost(addr))
    else
      var v := Match(net[addr], path, consumed);
      if v.Drop? then Journey([], Refused(v.reason))
      else if v.Deliver? then Journey([Visit(addr, consumed)], Arrived)
      else if v.Stranded? then Journey([Visit(addr, consumed)], Refused(NoNextRouter))
      else
        MatchWithinPath(net[addr], path, consumed);
        var rest := Travel(net, if v.Next? then addr else v.addr, path, consumed + 1);
        Journey([Visit(addr, consumed)] + rest.visits, rest.end)
  }

  /**
   * However the hop tables are written, even in cycles, the levels matched along a journey
   * are consecutive: no level is matched twice, none is skipped, and there are at most as
   * many matches as the path has levels left.
   */
  lemma {:induction false} TravelIsBounded(net: Network, addr: string, path: Path, consumed: nat)
    requires NetworkBuilt(net)
    ensures var vs := Travel(net, addr, path, consumed).visits;
            && (forall i :: 0 <= i < |vs| ==> vs[i].level == consumed + i)
            && (vs != [] ==> consumed + |vs| <= |path|)
    decreases |path| - consumed
  {
    if addr in net {
      var v := Match(net[addr], path, consumed);
      if v.Next? || v.Send? {
        MatchWithinPath(net[addr], path, consumed);
        TravelIsBounded(net, if v.Next? then addr else v.addr, path, consumed + 1);
      } else if v.Deliver? || v.Stranded? {
        MatchWithinPath(net[addr], path, consumed);
      }
    }
  }

  /** The outcome of one node is what the journey j does at that node. */
  ghost predicate Stretch(net: Network, path: Path, consumed: nat, out: Outcome, j: Journey)
    requires NetworkBuilt(net)
  {
    match out
    case Dropped(reason) => j.end == Refused(reason)
    case Delivered(c) => j.end == Arrived && c == consumed + |j.visits|
    case Sent(a, c) =>
      var rest := Travel(net, a, path, c);
      && consumed < c <= |path| && j.end == rest.end && |j.visits| == c - consumed + |rest.visits|
      && j.visits[c - consumed..] == rest.visits
  }

  lemma StretchGrows(net: Network, path: Path, consumed: nat, out: Outcome, j: Journey, v: Visit)
    requires NetworkBuilt(net) && Stretch(net, path, consumed + 1, out, j)
    ensures Stretch(net, path, consumed, out, Journey([v] + j.visits, j.end))
  {
    if out.Sent? {
      var k := out.consumed - consumed;
      assert ([v] + j.visits)[k..] == j.visits[k - 1..];
    }
  }

  /** The walk through one node is a stretch of the journey. */
  lemma {:induction false} RouteIsAStretch(net: Network, addr: string, path: Path, consumed: nat)
    requires NetworkBuilt(net) && addr in net
    ensures Stretch(net, path, consumed, RouteFrom(net[addr], path, consumed), Travel(net, addr, path, consumed))
    decreases |path| - consumed
  {
    var v := Match(net[addr], path, consumed);
    var j := Travel(net, addr, path, consumed);
    if v.Next? {
      MatchWithinPath(net[addr], path, consumed);
      RouteIsAStretch(net, addr, path, consumed + 1);
      StretchGrows(net, path, consumed, RouteFrom(net[addr], path, consumed + 1),
                   Travel(net, addr, path, consumed + 1), Visit(addr, consumed));
    } else if v.Send? {
      MatchWithinPath(net[addr], path, consumed);
      assert j.visits[1..] == Travel(net, v.addr, path, consumed + 1).visits;
    }
  }

  lemma {:induction false} RouteRaises(n: Node, path: Path, consumed: nat)
    requires WellBuilt(n) && RouteFrom(n, path, consumed).Sent?
    ensures consumed < RouteFrom(n, path, consumed).consumed <= |path|
    decreases |path| - consumed
  {
    MatchWithinPath(n, path, consumed);
    if Match(n, path, consumed).Next? {
      RouteRaises(n, path, consumed + 1);
    }
  }

  // ---- frames in flight ----

  datatype Packet = Packet(addr: string, bytes: seq<byte>)

  /** A box receives bytes and may send bytes on. */
  function Relay(net: Network, p: Packet): Option<Packet>
    requires NetworkBuilt(net)
  {
    if p.addr !in net || DecodeFrame(p.bytes).Err? then None
    else
      var f := DecodeFrame(p.bytes).value;
      match RouteFrom(net[p.addr], f.path, f.consumed)
      case Sent(addr, consumed) =>
        (match EncodeFrame(f.(consumed := consumed))
         case None => None
         case Some(b) => Some(Packet(addr, b)))
      case _ => None
  }

  /**
   * One hop changes nothing but the counter, and raises it: the 16-bit field on the wire
   * never loses a bit, and the path and the payload go through untouched.
   */
  lemma RelayKeepsFrame(net: Network, p: Packet)
    requires NetworkBuilt(net) && Relay(net, p).Some?
    ensures DecodeFrame(p.bytes).Ok? && DecodeFrame(Relay(net, p).value.bytes).Ok?
    ensures var f, g := DecodeFrame(p.bytes).value, DecodeFrame(Relay(net, p).value.bytes).value;
            && g.path == f.path && g.payload == f.payload
            && f.consumed < g.consumed <= |f.path| <= T.MAX_DEPTH
            && RouteFrom(net[p.addr], f.path, f.consumed) == Sent(Relay(net, p).value.addr, g.consumed)
  {
    var f := DecodeFrame(p.bytes).value;
    DecodedFrame(p.bytes);
    RouteRaises(net[p.addr], f.path, f.consumed);
    SentOn(f, RouteFrom(net[p.addr], f.path, f.consumed).consumed);
  }

  /** A counter within the path survives the 16 bits of the wire. */
  lemma SentOn(f: Frame, consumed: nat)
    requires 1 <= |f.path| <= T.MAX_DEPTH && consumed <= |f.path|
    ensures EncodeFrame(f.(consumed := consumed)).Some?
    ensures DecodeFrame(EncodeFrame(f.(consumed := consumed)).value) == Ok(f.(consumed := consumed))
  {
    FrameRoundTrip(f.(consumed := consumed));
  }

  ghost predicate Chain(net: Network, ps: seq<Packet>)
    requires NetworkBuilt(net)
  {
    forall i {:trigger ps[i]} :: 0 <= i < |ps| - 1 ==> Relay(net, ps[i]) == Some(ps[i + 1])
  }

  lemma {:induction false} ChainRaises(net: Network, ps: seq<Packet>, k: nat)
    requires NetworkBuilt(net) && Chain(net, ps) && 0 < k < |ps|
    ensures DecodeFrame(ps[0].bytes).Ok? && DecodeFrame(ps[k].bytes).Ok?
    ensures var f, g := DecodeFrame(ps[0].bytes).value, DecodeFrame(ps[k].bytes).value;
            g.path == f.path && g.payload == f.payload && f.consumed + k <= g.consumed <= |f.path| <= T.MAX_DEPTH
    decreases k
  {
    if k > 1 {
      ChainRaises(net, ps, k - 1);
    }
    assert Relay(net, ps[k - 1]) == Some(ps[k]);
    RelayKeepsFrame(net, ps[k - 1]);
  }

  /**
   * No frame circulates. Whatever bytes enter the network anywhere, with whatever counter, and
   * whatever the tables say, they are passed on at most 16 times; the path and the payload
   * that come out are the ones that went in.
   */
  lemma NoFrameCirculates(net: Network, ps: seq<Packet>)
    requires NetworkBuilt(net) && Chain(net, ps)
    ensures |ps| <= T.MAX_DEPTH + 1
    ensures |ps| > 1 ==>
              var f, g := DecodeFrame(ps[0].bytes), DecodeFrame(ps[|ps| - 1].bytes);
              f.Ok? && g.Ok? && g.value.path == f.value.path && g.value.payload == f.value.payload
  {
    if |ps| > 1 {
      ChainRaises(net, ps, |ps| - 1);
    }
  }

  // ---- tables that follow a tree ----

  /** Which node of the tree the router at a box and level serves. */
  type Duty = map<Visit, T.Labels>

  predicate Hosted(net: Network, v: Visit) {
    v.addr in net && v.level in net[v.addr].routers
  }

  /** The hop the router at v has for an identifier. */
  function HopFor(net: Network, v: Visit, nid: uint32): Option<string>
    requires Hosted(net, v)
  {
    var n := net[v.addr];
    var nids := n.routers[v.level].nids;
    if P.Decimal(nid) in nids && nids[P.Decimal(nid)] in n.hops then Some(n.hops[nids[P.Decimal(nid)]]) else None
  }

  /** Where the walk goes on with this hop, if it does. */
  function Onward(v: Visit, hop: string): Option<Visit> {
    if hop == DELIVER || hop == LOCAL then None
    else if hop == LOCAL_NEXT then Some(Visit(v.addr, v.level + 1))
    else Some(Visit(hop, v.level + 1))
  }

  /** The identifier is that of a child, and the hop leads to a router that serves the child. */
  ghost predicate Follows(t: T.Table, net: Network, duty: Duty, v: Visit, nid: uint32, hop: string, l: T.Label)
    requires v in duty
  {
    var child, w := duty[v] + [l], Onward(v, hop);
    && child in t && t[child].nid == nid
    && (w.Some? && Hosted(net, w.value) ==> w.value in duty && duty[w.value] == child)
  }

  /** Every router's table follows the children of the tree node the router serves. */
  ghost predicate Faithful(t: T.Table, net: Network, duty: Duty) {
    forall v :: v in duty ==>
      && duty[v] in t && |duty[v]| == v.level
      && forall nid: uint32 :: Hosted(net, v) && HopFor(net, v, nid).Some? ==>
           exists l :: Follows(t, net, duty, v, nid, HopFor(net, v, nid).value, l)
  }

  /** The routers visited from level c on serve the levels of one name, in order. */
  ghost predicate Descends(duty: Duty, vs: seq<Visit>, name: T.Labels, c: nat) {
    c + |vs| <= |name| && forall i :: 0 <= i < |vs| ==> vs[i] in duty && duty[vs[i]] == name[..c + i]
  }

  lemma MatchIsAHop(net: Network, v: Visit, path: Path)
    requires NetworkBuilt(net) && v.addr in net && Matched(Match(net[v.addr], path, v.level))
    ensures v.level < |path| && Hosted(net, v) && HopFor(net, v, path[v.level]).Some?
    ensures var m, w := Match(net[v.addr], path, v.level), Onward(v, HopFor(net, v, path[v.level]).value);
            && (m.Deliver? ==> w == None)
            && (m.Stranded? ==> w == Some(Visit(v.addr, v.level + 1)) && !Hosted(net, w.value))
            && (m.Next? ==> w == Some(Visit(v.addr, v.level + 1)))
            && (m.Send? ==> w == Some(Visit(m.addr, v.level + 1)))
  {
  }

  /** The first visit of a journey leads one level further down the tree. */
  lemma VisitDescends(t: T.Table, net: Network, duty: Duty, v: Visit, path: Path) returns (l: T.Label)
    requires NetworkBuilt(net) && Faithful(t, net, duty) && v in duty
    requires v.level <= |path| && T.Bears(t, duty[v], path[..v.level])
    requires v.addr in net && Matched(Match(net[v.addr], path, v.level))
    ensures v.level < |path| && Hosted(net, v) && HopFor(net, v, path[v.level]).Some?
    ensures Follows(t, net, duty, v, path[v.level], HopFor(net, v, path[v.level]).value, l)
    ensures T.Bears(t, duty[v] + [l], path[..v.level + 1]) && |duty[v]| == v.level
  {
    var c, q := v.level, duty[v];
    MatchIsAHop(net, v, path);
    l :| Follows(t, net, duty, v, path[c], HopFor(net, v, path[c]).value, l);
    T.ChildBears(t, q, l, path[..c]);
    assert path[..c + 1] == path[..c] + [path[c]];
  }

  lemma OneVisit(duty: Duty, v: Visit, l: T.Label)
    requires v in duty && |duty[v]| == v.level
    ensures Descends(duty, [v], duty[v] + [l], v.level)
  {
  }

  /** A journey that starts where the path so far leads goes on along the path. */
  lemma {:induction false} TravelFollowsTree(t: T.Table, net: Network, duty: Duty, v: Visit, path: Path)
      returns (name: T.Labels)
    requires NetworkBuilt(net) && Faithful(t, net, duty) && v in duty
    requires v.level <= |path| && T.Bears(t, duty[v], path[..v.level])
    requires Travel(net, v.addr, path, v.level).visits != []
    ensures var vs := Travel(net, v.addr, path, v.level).visits;
            v.level + |vs| <= |path| && T.Bears(t, name, path[..v.level + |vs|]) && Descends(duty, vs, name, v.level)
    decreases |path| - v.level
  {
    var l := VisitDescends(t, net, duty, v, path);
    MatchIsAHop(net, v, path);
    name := duty[v] + [l];
    OneVisit(duty, v, l);
    var m := Match(net[v.addr], path, v.level);
    if m.Next? || m.Send? {
      var w := Onward(v, HopFor(net, v, path[v.level]).value).value;
      var rest := Travel(net, w.addr, path, w.level).visits;
      assert Travel(net, v.addr, path, v.level).visits == [v] + rest;
      if rest != [] {
        StartsHosted(net, w, path);
        name := TravelFollowsTree(t, net, duty, w, path);
        DescendsFrom(duty, v, rest, name, duty[v] + [l], l);
      }
    }
  }

  lemma StartsHosted(net: Network, w: Visit, path: Path)
    requires NetworkBuilt(net) && Travel(net, w.addr, path, w.level).visits != []
    ensures Hosted(net, w) && Travel(net, w.addr, path, w.level).visits[0] == w
  {
  }

  lemma DescendsFrom(duty: Duty, v: Visit, rest: seq<Visit>, name: T.Labels, child: T.Labels, l: T.Label)
    requires v in duty && |duty[v]| == v.level && child == duty[v] + [l]
    requires rest != [] && Descends(duty, rest, name, v.level + 1) && duty[rest[0]] == child
    ensures Descends(duty, [v] + rest, name, v.level)
  {
    var vs, c := [v] + rest, v.level;
    assert name[..c + 1] == child;
    assert name[..c] == child[..c] == duty[v];
    forall i | 0 <= i < |vs|
      ensures vs[i] in duty && duty[vs[i]] == name[..c + i]
    {
      if i > 0 {
        assert vs[i] == rest[i - 1];
      }
    }
  }

  /**
   * Parent-scoped identifiers are never ambiguous in flight. A frame injected at a router of
   * the root visits the routers of successive ancestors of one name; and when every level of
   * the path is matched, that name is the one that reversing the path gives, whichever tree
   * walk finds it.
   */
  lemma JourneyFollowsReverse(t: T.Table, net: Network, duty: Duty, addr: string, path: Path, name: T.Labels)
    requires T.WellNumbered(t) && NetworkBuilt(net) && Faithful(t, net, duty)
    requires Visit(addr, 0) in duty
    ensures var vs := Travel(net, addr, path, 0).visits;
            && (vs != [] ==> |vs| <= |path| && exists reached :: T.Bears(t, reached, path[..|vs|]) && Descends(duty, vs, reached, 0))
            && (vs != [] && |vs| == |path| && T.Bears(t, name, path) ==> Descends(duty, vs, name, 0))
            && (vs != [] && |vs| == |path| ==> exists reached :: T.Bears(t, reached, path))
  {
    var vs := Travel(net, addr, path, 0).visits;
    if vs != [] {
      assert duty[Visit(addr, 0)] == [] && T.Bears(t, [], path[..0]);
      var reached := TravelFollowsTree(t, net, duty, Visit(addr, 0), path);
      assert T.Bears(t, reached, path[..|vs|]);
      if |vs| == |path| {
        assert path[..|vs|] == path;
        if T.Bears(t, name, path) {
          T.PathsAreUnique(t, [], name, reached);
        }
      }
    }
  }

  // ---- tables that cover a tree ----

  predicate IsLeaf(t: T.Table, name: T.Labels) {
    forall p :: p in t ==> !(name < p)
  }

  /** The hop for a child delivers when the child is a leaf, and otherwise leads to a router that serves it. */
  predicate Reaches(t: T.Table, net: Network, duty: Duty, v: Visit, child: T.Labels, hop: string) {
    var w := Onward(v, hop);
    if IsLeaf(t, child) then w == None
    else w.Some? && w.value in duty && duty[w.value] == child
  }

  /** Every router is hosted and has an entry for every child of the node it serves. */
  ghost predicate Complete(t: T.Table, net: Network, duty: Duty) {
    forall v :: v in duty ==>
      && Hosted(net, v) && duty[v] in t && |duty[v]| == v.level
      && forall l: T.Label {:trigger duty[v] + [l]} :: duty[v] + [l] in t ==> HasEntry(t, net, duty, v, duty[v] + [l])
  }

  predicate HasEntry(t: T.Table, net: Network, duty: Duty, v: Visit, child: T.Labels)
    requires Hosted(net, v) && child in t
  {
    var hop := HopFor(net, v, t[child].nid);
    hop.Some? && Reaches(t, net, duty, v, child, hop.value)
  }

  lemma HopIsAMatch(net: Network, v: Visit, path: Path)
    requires NetworkBuilt(net) && Hosted(net, v) && v.level < |path| && HopFor(net, v, path[v.level]).Some?
    ensures var m, w := Match(net[v.addr], path, v.level), Onward(v, HopFor(net, v, path[v.level]).value);
            && (w.None? ==> m.Deliver?)
            && (w.Some? && Hosted(net, w.value) ==>
                  if w.value.addr == v.addr then m.Next? || m == Send(v.addr) else m == Send(w.value.addr))
  {
  }

  /** At a router beyond the last level of the path nothing matches. */
  lemma PathEnds(net: Network, v: Visit, path: Path)
    requires NetworkBuilt(net) && Hosted(net, v) && v.level == |path|
    ensures Travel(net, v.addr, path, v.level) == Journey([], Refused(NoLevel))
  {
  }

  /** What is left of the journey of a name from the router that serves its first c labels. */
  lemma {:induction false} TravelReachesEnd(t: T.Table, net: Network, duty: Duty, v: Visit, name: T.Labels, path: Path)
    requires T.WellNumbered(t) && NetworkBuilt(net) && Complete(t, net, duty) && v in duty
    requires T.Bears(t, name, path) && v.level < |path| && duty[v] == name[..v.level]
    ensures var j := Travel(net, v.addr, path, v.level);
            |j.visits| == |path| - v.level && j.end == if IsLeaf(t, name) then Arrived else Refused(NoLevel)
    decreases |path| - v.level
  {
    var c := v.level;
    T.RootChild(t, name, c);
    var child := name[..c + 1];
    assert child == duty[v] + [name[c]] && child in t;
    assert HasEntry(t, net, duty, v, child);
    HopIsAMatch(net, v, path);
    var w := Onward(v, HopFor(net, v, path[c]).value);
    MatchWithinPath(net[v.addr], path, c);
    if c + 1 < |path| {
      T.NamesAreMembers(t, name);
      assert child < name;
      TravelReachesEnd(t, net, duty, w.value, name, path);
    } else {
      assert child == name;
      if w.Some? {
        PathEnds(net, w.value, path);
      }
    }
  }

  /**
   * Through complete tables every name is reached: a frame with its path, injected at a router
   * of the root, is matched once on every level of the path, and it arrives exactly when the
   * name is a leaf of the tree.
   */
  lemma EveryNameIsReached(t: T.Table, net: Network, duty: Duty, addr: string, path: Path, name: T.Labels)
    requires T.WellNumbered(t) && NetworkBuilt(net) && Complete(t, net, duty) && Visit(addr, 0) in duty
    requires T.Bears(t, name, path) && name != []
    ensures var j := Travel(net, addr, path, 0);
            && |j.visits| == |path| && (j.end == Arrived <==> IsLeaf(t, name))
            && forall i :: 0 <= i < |path| ==> j.visits[i].level == i
  {
    assert duty[Visit(addr, 0)] == [];
    TravelReachesEnd(t, net, duty, Visit(addr, 0), name, path);
    TravelIsBounded(net, addr, path, 0);
  }
}
