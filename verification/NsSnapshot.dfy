/** Persistence of the tree: the nested snapshot, what restoring accepts, and what it gives back. */
module NsSnapshot {
  import opened Basics
  import opened NsTable

  /** The persisted form of one node; the counter travels with it. */
  datatype SnapNode = SnapNode(nid: uint32, next: uint32, children: map<Label, SnapNode>)

  /** A stored counter of 0 reads as the initial one. */
  function FixedCounter(next: uint32): uint32 {
    if next == 0 then 1 else next
  }

  function ChildLabels(t: Table, at: Labels): (ls: set<Label>)
    ensures forall l :: l in ls <==> at + [l] in t
  {
    var ls := set p | p in t && |p| == |at| + 1 && p[..|at|] == at :: p[|at|];
    assert forall l :: l in ls <==> at + [l] in t by {
      forall l: Label
        ensures l in ls <==> at + [l] in t
      {
        if at + [l] in t {
          assert (at + [l])[|at|] == l && (at + [l])[..|at|] == at;
        }
        if l in ls {
          var p :| p in t && |p| == |at| + 1 && p[..|at|] == at && p[|at|] == l;
          assert p == at + [l];
        }
      }
    }
    ls
  }

  /** Snapshot of the subtree at one node. The depth limit bounds the recursion. */
  function Pack(t: Table, at: Labels): SnapNode
    requires at in t && forall p :: p in t ==> |p| <= MAX_DEPTH
    decreases MAX_DEPTH - |at|
  {
    SnapNode(t[at].nid, t[at].next, map l | l in ChildLabels(t, at) :: Pack(t, at + [l]))
  }

  /** The children outside `left` are packed. */
  predicate PackedBut(t: Table, at: Labels, left: set<Label>, kids: map<Label, SnapNode>)
    requires forall p :: p in t ==> |p| <= MAX_DEPTH
  {
    && (forall l :: l in kids ==> at + [l] in t && l !in left && kids[l] == Pack(t, at + [l]))
    && (forall l :: l in ChildLabels(t, at) ==> l in left || l in kids)
  }

  lemma PackedAll(t: Table, at: Labels, kids: map<Label, SnapNode>)
    requires at in t && (forall p :: p in t ==> |p| <= MAX_DEPTH) && PackedBut(t, at, {}, kids)
    ensures SnapNode(t[at].nid, t[at].next, kids) == Pack(t, at)
  {
    assert kids == map l | l in ChildLabels(t, at) :: Pack(t, at + [l]);
  }

  // ---- a snapshot as a set of slots ----

  predicate InSnap(s: SnapNode, p: Labels)
    decreases |p|
  {
    p == [] || (p[0] in s.children && InSnap(s.children[p[0]], p[1..]))
  }

  function NodeAt(s: SnapNode, p: Labels): SnapNode
    requires InSnap(s, p)
    decreases |p|
  {
    if p == [] then s else NodeAt(s.children[p[0]], p[1..])
  }

  function RestoredSlot(s: SnapNode): Slot {
    Slot(s.nid, FixedCounter(s.next))
  }

  /** The tree that restoring s builds. */
  ghost predicate RestoresTo(s: SnapNode, t: Table) {
    && (forall p :: p in t <==> InSnap(s, p))
    && (forall p :: p in t ==> t[p] == RestoredSlot(NodeAt(s, p)))
  }

  /** The identifiers of the children are issued, and no two are equal. */
  predicate NidsAccepted(s: SnapNode) {
    && (forall l :: l in s.children ==> 0 < s.children[l].nid < FixedCounter(s.next))
    && (forall l, l' :: l in s.children && l' in s.children && s.children[l].nid == s.children[l'].nid ==> l == l')
  }

  /** The consistency checks of Restore, node by node. */
  predicate Accepts(s: SnapNode, depth: nat)
    decreases s
  {
    && depth <= MAX_DEPTH
    && NidsAccepted(s)
    && forall l :: l in s.children ==> Accepts(s.children[l], depth + 1)
  }

  lemma {:induction false} InSnapSplits(s: SnapNode, p: Labels, l: Label)
    ensures InSnap(s, p + [l]) <==> InSnap(s, p) && l in NodeAt(s, p).children
    ensures InSnap(s, p + [l]) ==> NodeAt(s, p + [l]) == NodeAt(s, p).children[l]
    decreases |p|
  {
    if p == [] {
      assert [] + [l] == [l] && [l][1..] == [];
      assert InSnap(s, [l]) <==> l in s.children && InSnap(s.children[l], []);
    } else {
      assert (p + [l])[0] == p[0] && (p + [l])[1..] == p[1..] + [l];
      if p[0] in s.children {
        InSnapSplits(s.children[p[0]], p[1..], l);
      }
    }
  }

  lemma {:induction false} AcceptsDown(s: SnapNode, depth: nat, p: Labels, n: SnapNode, d: nat)
    requires Accepts(s, depth) && InSnap(s, p) && n == NodeAt(s, p) && d == depth + |p|
    ensures Accepts(n, d)
    decreases |p|
  {
    if p != [] {
      AcceptsDown(s.children[p[0]], depth + 1, p[1..], n, d);
    }
  }

  lemma AcceptsBelow(s: SnapNode, depth: nat, p: Labels)
    requires Accepts(s, depth) && InSnap(s, p)
    ensures Accepts(NodeAt(s, p), depth + |p|)
  {
    AcceptsDown(s, depth, p, NodeAt(s, p), depth + |p|);
  }

  lemma RefusesAbove(s: SnapNode, depth: nat, p: Labels)
    requires InSnap(s, p) && !Accepts(NodeAt(s, p), depth + |p|)
    ensures !Accepts(s, depth)
  {
    if Accepts(s, depth) {
      AcceptsBelow(s, depth, p);
    }
  }

  /**
   * Whatever snapshot is accepted, the restored tree satisfies the whole node invariant and
   * the depth limit, and no counter in it has wrapped.
   */
  lemma AcceptedIsSound(s: SnapNode, t: Table)
    requires Accepts(s, 0) && RestoresTo(s, t)
    ensures TableInv(t) && NoWrap(t)
  {
    assert InSnap(s, []);
    forall p | p in t
      ensures |p| <= MAX_DEPTH
    {
      AcceptsBelow(s, 0, p);
    }
    forall p: Labels, l: Label {:trigger p + [l]} | p + [l] in t
      ensures p in t && 0 < t[p + [l]].nid < Bound(t[p].next)
    {
      InSnapSplits(s, p, l);
      AcceptsBelow(s, 0, p);
    }
    forall p: Labels, l: Label, l': Label {:trigger p + [l], p + [l']}
      | p + [l] in t && p + [l'] in t && t[p + [l]].nid == t[p + [l']].nid
      ensures l == l'
    {
      InSnapSplits(s, p, l);
      InSnapSplits(s, p, l');
      AcceptsBelow(s, 0, p);
    }
  }

  // ---- snapshot, then restore ----

  lemma {:induction false} PackHolds(t: Table, at: Labels, p: Labels)
    requires TableInv(t) && at in t
    ensures InSnap(Pack(t, at), p) <==> at + p in t
    ensures at + p in t ==> NodeAt(Pack(t, at), p) == Pack(t, at + p)
    decreases |p|
  {
    if p == [] {
      assert at + p == at;
    } else {
      Regroup(at, p);
      if at + [p[0]] in t {
        PackHolds(t, at + [p[0]], p[1..]);
      } else if at + p in t {
        AncestorsExist(t, at + [p[0]], p[1..]);
      }
    }
  }

  /** The counters of one node and of everything below it pass the checks. */
  predicate CountersHold(t: Table) {
    forall p :: p in t && t[p].next == 0 ==> ChildLabels(t, p) == {}
  }

  lemma {:induction false} PackAccepted(t: Table, at: Labels)
    requires TableInv(t) && at in t && CountersHold(t)
    ensures Accepts(Pack(t, at), |at|)
    decreases MAX_DEPTH - |at|
  {
    var s := Pack(t, at);
    forall l | l in s.children
      ensures Accepts(s.children[l], |at| + 1) && 0 < s.children[l].nid < FixedCounter(s.next)
    {
      assert at + [l] in t;
      assert |at + [l]| <= MAX_DEPTH;
      PackAccepted(t, at + [l]);
    }
    forall l, l' | l in s.children && l' in s.children && s.children[l].nid == s.children[l'].nid
      ensures l == l'
    {
      assert at + [l] in t && at + [l'] in t;
      assert Pack(t, at + [l]).nid == t[at + [l]].nid && Pack(t, at + [l']).nid == t[at + [l']].nid;
    }
  }

  /** Restore of Snapshot as a table: every wrapped counter starts again at 1. */
  function Reloaded(t: Table): Table {
    map p | p in t :: Slot(t[p].nid, FixedCounter(t[p].next))
  }

  /** The snapshot of a tree is accepted exactly when no wrapped counter has a live child. */
  lemma SnapshotAcceptedIff(t: Table)
    requires TableInv(t)
    ensures Accepts(Pack(t, []), 0) <==> CountersHold(t)
  {
    if CountersHold(t) {
      PackAccepted(t, []);
    } else {
      var p :| p in t && t[p].next == 0 && ChildLabels(t, p) != {};
      var l :| l in ChildLabels(t, p);
      assert p + [l] in t;
      PackHolds(t, [], p);
      assert [] + p == p;
      assert l in Pack(t, p).children && Pack(t, p).children[l].nid == t[p + [l]].nid;
      assert !Accepts(Pack(t, p), |p|);
      RefusesAbove(Pack(t, []), 0, p);
    }
  }

  lemma SnapshotRestores(t: Table)
    requires TableInv(t)
    ensures RestoresTo(Pack(t, []), Reloaded(t))
  {
    forall p: Labels
      ensures p in Reloaded(t) <==> InSnap(Pack(t, []), p)
      ensures p in Reloaded(t) ==> Reloaded(t)[p] == RestoredSlot(NodeAt(Pack(t, []), p))
    {
      PackHolds(t, [], p);
      assert [] + p == p;
    }
  }

  /**
   * The round trip is exact, accepted and equal in every slot, if and only if no counter has
   * wrapped. Equal tables answer every later sequence of operations alike, because each
   * operation is a function of the table.
   */
  lemma RoundTripExactIff(t: Table)
    requires TableInv(t)
    ensures Accepts(Pack(t, []), 0) && RestoresTo(Pack(t, []), t) <==> NoWrap(t)
  {
    SnapshotAcceptedIff(t);
    SnapshotRestores(t);
    if NoWrap(t) {
      assert Reloaded(t) == t;
    } else {
      var p :| p in t && t[p].next == 0;
      assert t[p] != Reloaded(t)[p];
    }
  }
}
