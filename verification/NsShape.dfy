/**
 * The shape of the pointer tree, without the heap: which nodes there are, what their two
 * indexes hold, and the table they stand for.
 */
module NsShape {
  import opened Basics
  import opened Names
  import T = NsTable

  class Node {
    const name: string
    const nid: uint32
    ghost const at: Labels
    var children: map<string, Node>
    var byNID: map<uint32, Node>
    var nextNID: uint32

    constructor (name: string, nid: uint32, ghost at: Labels)
      ensures this.name == name && this.nid == nid && this.at == at
      ensures children == map[] && byNID == map[] && nextNID == 1
    {
      this.name, this.nid, this.at := name, nid, at;
      children, byNID, nextNID := map[], map[], 1;
    }
  }

  /** What one node object holds, as a value. */
  datatype Indices = Indices(children: map<string, Node>, byNID: map<uint32, Node>)

  const NO_CHILDREN := Indices(map[], map[])

  datatype Shape = Shape(nodes: map<Labels, Node>, indices: map<Labels, Indices>, table: T.Table)

  /** The two indexes of the node at p: all its children, and the same children by identifier. */
  ghost predicate Indexes(nodes: map<Labels, Node>, p: Labels, ix: Indices) {
    && (forall l: string :: l in ix.children <==> p + [l] in nodes)
    && (forall l: string :: l in ix.children ==> ix.children[l] == nodes[p + [l]] && ix.children[l].name == l)
    && (forall l: string :: l in ix.children ==>
          ix.children[l].nid in ix.byNID && ix.byNID[ix.children[l].nid] == ix.children[l])
    && (forall k: uint32 :: k in ix.byNID ==> IndexedChild(ix, k))
  }

  ghost predicate IndexedChild(ix: Indices, k: uint32)
    requires k in ix.byNID
  {
    var child := ix.byNID[k];
    child.nid == k && child.name in ix.children && ix.children[child.name] == child
  }

  /** A subtree whose topmost node is the one at `base`. */
  ghost predicate WellShaped(s: Shape, base: Labels) {
    && base in s.nodes
    && s.nodes.Keys == s.indices.Keys == s.table.Keys
    && forall p {:trigger NodeFits(s, base, p)} :: p in s.nodes ==> NodeFits(s, base, p)
  }

  ghost predicate NodeFits(s: Shape, base: Labels, p: Labels)
    requires p in s.nodes && p in s.indices && p in s.table
  {
    && base <= p && s.nodes[p].at == p && s.nodes[p].nid == s.table[p].nid
    && (p != base ==> p[..|p| - 1] in s.nodes)
    && Indexes(s.nodes, p, s.indices[p])
  }

  /** The node object at p holds what the shape says. */
  ghost predicate Stored(s: Shape, p: Labels)
    requires p in s.nodes && p in s.indices && p in s.table
    reads s.nodes[p]
  {
    var n := s.nodes[p];
    n.children == s.indices[p].children && n.byNID == s.indices[p].byNID && n.nextNID == s.table[p].next
  }

  /** Every node object of the shape is in repr and holds what the shape says. */
  ghost predicate Held(s: Shape, repr: set<Node>)
    requires s.nodes.Keys == s.indices.Keys == s.table.Keys
    reads repr
  {
    forall p {:trigger Stored(s, p)} :: p in s.nodes ==> s.nodes[p] in repr && Stored(s, p)
  }

  // ---- a single node ----

  function Leaf(n: Node, at: Labels, next: uint32): Shape {
    Shape(map[at := n], map[at := NO_CHILDREN], map[at := T.Slot(n.nid, next)])
  }

  lemma LeafFits(n: Node, at: Labels, next: uint32)
    requires n.at == at
    ensures WellShaped(Leaf(n, at, next), at)
  {
    assert NodeFits(Leaf(n, at, next), at, at) by {
      forall l: string
        ensures at + [l] != at
      {
        assert |at + [l]| == |at| + 1;
      }
    }
  }

  // ---- ancestors ----

  lemma {:induction false} HasAncestor(s: Shape, base: Labels, p: Labels, q: Labels)
    requires WellShaped(s, base) && q in s.nodes && base <= p <= q
    ensures p in s.nodes
    decreases |q|
  {
    if p != q {
      assert NodeFits(s, base, q);
      HasAncestor(s, base, p, q[..|q| - 1]);
    }
  }

  // ---- linking a subtree under a node ----

  function Linked(s: Shape, at: Labels, l: string, c: Shape): Shape
    requires at in s.indices && at + [l] in c.nodes
  {
    var ix, child := s.indices[at], c.nodes[at + [l]];
    Shape(s.nodes + c.nodes,
          s.indices[at := Indices(ix.children[l := child], ix.byNID[child.nid := child])] + c.indices,
          s.table + c.table)
  }

  /** The subtree c can be linked under the node at `at`. */
  ghost predicate Linkable(s: Shape, base: Labels, at: Labels, l: string, c: Shape) {
    && WellShaped(s, base) && at in s.nodes && WellShaped(c, at + [l])
    && l !in s.indices[at].children && c.nodes[at + [l]].name == l
    && c.nodes[at + [l]].nid !in s.indices[at].byNID
  }

  lemma LinkedApart(s: Shape, base: Labels, at: Labels, l: string, c: Shape)
    requires Linkable(s, base, at, l, c)
    ensures at + [l] !in s.nodes && at !in c.nodes
    ensures forall p :: p in s.nodes ==> !(at + [l] <= p)
    ensures forall p :: p in c.nodes ==> p !in s.nodes && at + [l] <= p
  {
    assert NodeFits(s, base, at);
    assert base <= at + [l];
    forall p | p in s.nodes
      ensures !(at + [l] <= p)
    {
      if at + [l] <= p {
        HasAncestor(s, base, at + [l], p);
      }
    }
    forall p | p in c.nodes
      ensures at + [l] <= p
    {
      assert NodeFits(c, at + [l], p);
    }
  }

  /** Away from `at` nothing changes. */
  lemma LinkedElsewhere(s: Shape, base: Labels, at: Labels, l: string, c: Shape, p: Labels)
    requires Linkable(s, base, at, l, c)
    ensures var s' := Linked(s, at, l, c);
            && (p in s.nodes && p != at ==>
                  p in s'.nodes && s'.nodes[p] == s.nodes[p] && s'.indices[p] == s.indices[p] && s'.table[p] == s.table[p])
            && (p in c.nodes ==>
                  p in s'.nodes && s'.nodes[p] == c.nodes[p] && s'.indices[p] == c.indices[p] && s'.table[p] == c.table[p])
  {
    LinkedApart(s, base, at, l, c);
  }

  lemma LinkedHere(s: Shape, base: Labels, at: Labels, l: string, c: Shape)
    requires Linkable(s, base, at, l, c)
    ensures var s', ix, child := Linked(s, at, l, c), s.indices[at], c.nodes[at + [l]];
            && at in s'.nodes && s'.nodes[at] == s.nodes[at] && s'.table[at] == s.table[at]
            && s'.indices[at] == Indices(ix.children[l := child], ix.byNID[child.nid := child])
  {
    LinkedApart(s, base, at, l, c);
  }

  lemma BelowOrEqual(at: Labels, l: string, p: Labels, m: string)
    ensures at + [l] <= p + [m] <==> (p == at && m == l) || at + [l] <= p
  {
    if at + [l] <= p + [m] {
      if |p| == |at| {
        assert p + [m] == at + [l];
        T.AppendInjective(p, m, at, l);
      } else {
        assert (p + [m])[..|at| + 1] == p[..|at| + 1];
      }
    }
  }

  /** The children of a node after the link: those it had, and the new one. */
  lemma LinkedSiblings(s: Shape, base: Labels, at: Labels, l: string, c: Shape)
    requires Linkable(s, base, at, l, c)
    ensures forall m: string :: at + [m] in Linked(s, at, l, c).nodes <==> at + [m] in s.nodes || m == l
    ensures forall m: string :: at + [m] in s.nodes ==>
              m != l && Linked(s, at, l, c).nodes[at + [m]] == s.nodes[at + [m]]
  {
    LinkedApart(s, base, at, l, c);
    LinkedHere(s, base, at, l, c);
    var s' := Linked(s, at, l, c);
    forall m: string
      ensures at + [m] in s'.nodes <==> at + [m] in s.nodes || m == l
      ensures at + [m] in s.nodes ==> m != l && s'.nodes[at + [m]] == s.nodes[at + [m]]
    {
      BelowOrEqual(at, l, at, m);
    }
  }

  lemma LinkedParentFits(s: Shape, base: Labels, at: Labels, l: string, c: Shape)
    requires Linkable(s, base, at, l, c)
    ensures var s' := Linked(s, at, l, c); at in s'.nodes && NodeFits(s', base, at)
  {
    LinkedApart(s, base, at, l, c);
    LinkedHere(s, base, at, l, c);
    assert NodeFits(s, base, at);
    var s', ix := Linked(s, at, l, c), s.indices[at];
    LinkedSiblings(s, base, at, l, c);
    var ix' := s'.indices[at];
    forall k: uint32 | k in ix'.byNID
      ensures IndexedChild(ix', k)
    {
      if k in ix.byNID {
        assert IndexedChild(ix, k);
      }
    }
  }

  lemma LinkedOldFits(s: Shape, base: Labels, at: Labels, l: string, c: Shape, p: Labels)
    requires Linkable(s, base, at, l, c) && p in s.nodes && p != at
    ensures var s' := Linked(s, at, l, c); p in s'.nodes && NodeFits(s', base, p)
  {
    LinkedApart(s, base, at, l, c);
    LinkedElsewhere(s, base, at, l, c, p);
    assert NodeFits(s, base, p);
    forall m: string
      ensures p + [m] !in c.nodes
    {
      BelowOrEqual(at, l, p, m);
    }
  }

  lemma LinkedNewFits(s: Shape, base: Labels, at: Labels, l: string, c: Shape, p: Labels)
    requires Linkable(s, base, at, l, c) && p in c.nodes
    ensures var s' := Linked(s, at, l, c); p in s'.nodes && NodeFits(s', base, p)
  {
    LinkedApart(s, base, at, l, c);
    LinkedElsewhere(s, base, at, l, c, p);
    assert NodeFits(c, at + [l], p) && NodeFits(s, base, at);
    assert p == at + [l] ==> p[..|p| - 1] == at;
    forall m: string
      ensures p + [m] !in s.nodes
    {
      assert at + [l] <= p + [m];
    }
  }

  lemma LinkedNodeFits(s: Shape, base: Labels, at: Labels, l: string, c: Shape, p: Labels)
    requires Linkable(s, base, at, l, c) && (p in s.nodes || p in c.nodes)
    ensures var s' := Linked(s, at, l, c); p in s'.nodes && NodeFits(s', base, p)
  {
    if p == at {
      LinkedParentFits(s, base, at, l, c);
    } else if p in s.nodes {
      LinkedOldFits(s, base, at, l, c, p);
    } else {
      LinkedNewFits(s, base, at, l, c, p);
    }
  }

  lemma LinkedKeys(s: Shape, base: Labels, at: Labels, l: string, c: Shape)
    requires Linkable(s, base, at, l, c)
    ensures var s' := Linked(s, at, l, c);
            base in s'.nodes && s'.nodes.Keys == s'.indices.Keys == s'.table.Keys == s.nodes.Keys + c.nodes.Keys
  {
  }

  lemma LinkedFits(s: Shape, base: Labels, at: Labels, l: string, c: Shape)
    requires Linkable(s, base, at, l, c)
    ensures WellShaped(Linked(s, at, l, c), base)
  {
    LinkedKeys(s, base, at, l, c);
    var s' := Linked(s, at, l, c);
    forall p | p in s'.nodes.Keys
      ensures NodeFits(s', base, p)
    {
      LinkedNodeFits(s, base, at, l, c, p);
    }
  }

  /** Makes `child`, the top of a finished subtree, a child of `cur`. */
  method Link(cur: Node, name: string, child: Node,
              ghost s: Shape, ghost base: Labels, ghost at: Labels, ghost c: Shape,
              ghost repr: set<Node>, ghost below: set<Node>)
    requires Linkable(s, base, at, name, c) && Held(s, repr) && Held(c, below)
    requires s.nodes[at] == cur && c.nodes[at + [name]] == child && cur !in below
    modifies cur
    ensures WellShaped(Linked(s, at, name, c), base) && Held(Linked(s, at, name, c), repr + below)
  {
    assert NodeFits(s, base, at) && Stored(s, at);
    cur.children := cur.children[name := child];
    cur.byNID := cur.byNID[child.nid := child];
    LinkedFits(s, base, at, name, c);
    LinkedHere(s, base, at, name, c);
    ghost var s' := Linked(s, at, name, c);
    forall p | p in s'.nodes
      ensures s'.nodes[p] in repr + below && Stored(s', p)
    {
      LinkedElsewhere(s, base, at, name, c, p);
      if p in c.nodes {
        assert old(Stored(c, p));
      } else {
        assert NodeFits(s, base, p) && old(Stored(s, p));
      }
    }
  }

  // ---- moving a counter ----

  function Recounted(s: Shape, at: Labels, next: uint32): Shape
    requires at in s.table
  {
    s.(table := s.table[at := s.table[at].(next := next)])
  }

  lemma RecountedFits(s: Shape, base: Labels, at: Labels, next: uint32)
    requires WellShaped(s, base) && at in s.nodes
    ensures WellShaped(Recounted(s, at, next), base)
  {
    var s' := Recounted(s, at, next);
    forall p | p in s'.nodes
      ensures NodeFits(s', base, p)
    {
      assert NodeFits(s, base, p);
    }
  }

  method SetCounter(cur: Node, next: uint32, ghost s: Shape, ghost base: Labels, ghost at: Labels, ghost repr: set<Node>)
    requires WellShaped(s, base) && Held(s, repr) && at in s.nodes && s.nodes[at] == cur
    modifies cur`nextNID
    ensures WellShaped(Recounted(s, at, next), base) && Held(Recounted(s, at, next), repr)
  {
    assert NodeFits(s, base, at) && Stored(s, at);
    cur.nextNID := next;
    RecountedFits(s, base, at, next);
    ghost var s' := Recounted(s, at, next);
    forall p | p in s'.nodes
      ensures s'.nodes[p] in repr && Stored(s', p)
    {
      assert NodeFits(s, base, p) && old(Stored(s, p));
    }
  }

  // ---- one new node ----

  function Attached(s: Shape, at: Labels, n: Node, next: uint32): Shape
    requires at in s.indices && at in s.table
  {
    Recounted(Linked(s, at, n.name, Leaf(n, at + [n.name], 1)), at, next)
  }

  lemma NewIsLinkable(s: Shape, at: Labels, n: Node)
    requires WellShaped(s, []) && at in s.nodes && n.at == at + [n.name]
    requires n.name !in s.indices[at].children && n.nid !in s.indices[at].byNID
    ensures Linkable(s, [], at, n.name, Leaf(n, at + [n.name], 1))
  {
    LeafFits(n, at + [n.name], 1);
  }

  lemma AttachedTable(t: T.Table, at: Labels, n: Node, next: uint32)
    requires at in t && at != at + [n.name]
    ensures var linked := t + map[at + [n.name] := T.Slot(n.nid, 1)];
            linked[at := linked[at].(next := next)] == T.Insert(t, at, n.name, n.nid, next)
  {
  }

  lemma AttachedNodes(s: Shape, at: Labels, n: Node, next: uint32)
    requires Linkable(s, [], at, n.name, Leaf(n, at + [n.name], 1))
    ensures Attached(s, at, n, next).nodes == s.nodes[at + [n.name] := n]
    ensures Linked(s, at, n.name, Leaf(n, at + [n.name], 1)).nodes == s.nodes[at + [n.name] := n]
    ensures at != at + [n.name] && [] != at + [n.name]
  {
    assert |at + [n.name]| == |at| + 1;
  }

  method NewChild(cur: Node, name: string, nid: uint32, next: uint32,
                  ghost s: Shape, ghost at: Labels, ghost repr: set<Node>) returns (child: Node, ghost s': Shape)
    requires WellShaped(s, []) && Held(s, repr) && at in s.nodes && s.nodes[at] == cur
    requires name !in cur.children && nid !in cur.byNID
    modifies cur
    ensures fresh(child) && child.nid == nid
    ensures WellShaped(s', []) && Held(s', repr + {child})
    ensures at + [name] in s'.nodes && s'.nodes[at + [name]] == child && s'.nodes[[]] == s.nodes[[]]
    ensures s'.table == T.Insert(s.table, at, name, nid, next)
  {
    child := new Node(name, nid, at + [name]);
    assert Stored(s, at);
    ghost var leaf := Leaf(child, at + [name], 1);
    NewIsLinkable(s, at, child);
    AttachedNodes(s, at, child, next);
    AttachedTable(s.table, at, child, next);
    assert Stored(leaf, at + [name]);
    Link(cur, name, child, s, [], at, leaf, repr, {child});
    SetCounter(cur, next, Linked(s, at, name, leaf), [], at, repr + {child});
    s' := Attached(s, at, child, next);
  }

  // ---- cutting a subtree off ----

  function Unlinked(s: Shape, at: Labels, l: string, nid: uint32): Shape
    requires s.nodes.Keys == s.indices.Keys
  {
    var cut := at + [l];
    Shape(map p | p in s.nodes && !(cut <= p) :: s.nodes[p],
          map p | p in s.nodes && !(cut <= p) ::
            if p == at then Indices(s.indices[p].children - {l}, s.indices[p].byNID - {nid}) else s.indices[p],
          T.Prune(s.table, cut))
  }

  lemma UnlinkedParent(s: Shape, at: Labels, l: string, nid: uint32)
    requires WellShaped(s, []) && at in s.nodes && l in s.indices[at].children && s.indices[at].children[l].nid == nid
    ensures var s' := Unlinked(s, at, l, nid); at in s'.nodes && NodeFits(s', [], at)
  {
    var s', ix := Unlinked(s, at, l, nid), s.indices[at];
    assert NodeFits(s, [], at);
    assert at != at + [l] by {
      assert |at + [l]| == |at| + 1;
    }
    forall m: string
      ensures at + [l] <= at + [m] <==> m == l
    {
      BelowOrEqual(at, l, at, m);
    }
    var ix' := s'.indices[at];
    forall k: uint32 | k in ix'.byNID
      ensures IndexedChild(ix', k)
    {
      assert IndexedChild(ix, k);
    }
  }

  lemma UnlinkedOther(s: Shape, at: Labels, l: string, nid: uint32, p: Labels)
    requires WellShaped(s, []) && p in s.nodes && p != at && !(at + [l] <= p)
    ensures var s' := Unlinked(s, at, l, nid); p in s'.nodes && NodeFits(s', [], p)
  {
    var s' := Unlinked(s, at, l, nid);
    assert NodeFits(s, [], p);
    forall m: string
      ensures p + [m] in s.nodes ==> p + [m] in s'.nodes
    {
      BelowOrEqual(at, l, p, m);
    }
    if p != [] {
      BelowOrEqual(at, l, p[..|p| - 1], p[|p| - 1]);
      assert p[..|p| - 1] + [p[|p| - 1]] == p;
    }
  }

  lemma UnlinkedFits(s: Shape, at: Labels, l: string, nid: uint32)
    requires WellShaped(s, []) && at in s.nodes && l in s.indices[at].children && s.indices[at].children[l].nid == nid
    ensures WellShaped(Unlinked(s, at, l, nid), [])
  {
    var s' := Unlinked(s, at, l, nid);
    forall p | p in s'.nodes
      ensures NodeFits(s', [], p)
    {
      if p == at {
        UnlinkedParent(s, at, l, nid);
      } else {
        UnlinkedOther(s, at, l, nid, p);
      }
    }
  }

  /** Takes the child `name` out of both indexes; its whole subtree goes with it. */
  method Unlink(cur: Node, name: string, ghost s: Shape, ghost at: Labels, ghost repr: set<Node>)
      returns (ghost s': Shape)
    requires WellShaped(s, []) && Held(s, repr) && at in s.nodes && s.nodes[at] == cur && name in cur.children
    modifies cur
    ensures WellShaped(s', []) && Held(s', repr) && s'.nodes[[]] == s.nodes[[]]
    ensures s'.table == T.Prune(s.table, at + [name])
  {
    var nid := cur.children[name].nid;
    s' := Unlinked(s, at, name, nid);
    assert NodeFits(s, [], at) && Stored(s, at);
    UnlinkedFits(s, at, name, nid);
    cur.children := cur.children - {name};
    cur.byNID := cur.byNID - {nid};
    forall p | p in s'.nodes
      ensures s'.nodes[p] in repr && Stored(s', p)
    {
      assert NodeFits(s, [], p) && old(Stored(s, p));
    }
  }

  // ---- the indexes and the table ----

  /** Both indexes of a node know exactly the children the table has below it. */
  lemma IndexedBelow(s: Shape, base: Labels, p: Labels)
    requires WellShaped(s, base) && p in s.nodes
    ensures s.nodes[p].nid == s.table[p].nid
    ensures forall l: string :: l in s.indices[p].children <==> p + [l] in s.table
    ensures forall l: string :: l in s.indices[p].children ==>
              s.indices[p].children[l] == s.nodes[p + [l]] && s.nodes[p + [l]].nid == s.table[p + [l]].nid
    ensures forall k: uint32 :: k in s.indices[p].byNID <==> T.NidTaken(s.table, p, k)
  {
    assert NodeFits(s, base, p);
    var ix := s.indices[p];
    forall l: string | l in ix.children
      ensures s.nodes[p + [l]].nid == s.table[p + [l]].nid
    {
      assert NodeFits(s, base, p + [l]);
    }
    forall k: uint32
      ensures k in ix.byNID <==> T.NidTaken(s.table, p, k)
    {
      if k in ix.byNID {
        assert IndexedChild(ix, k);
        assert NodeFits(s, base, p + [ix.byNID[k].name]);
        T.SiblingTakesNid(s.table, p, ix.byNID[k].name);
      } else {
        forall l: string {:trigger p + [l]} | p + [l] in s.table
          ensures s.table[p + [l]].nid != k
        {
          assert NodeFits(s, base, p + [l]);
          assert l in ix.children;
        }
        T.NotTaken(s.table, p, k);
      }
    }
  }

  /** What looking an identifier up finds. */
  lemma IndexedBy(s: Shape, base: Labels, p: Labels, k: uint32)
    requires WellShaped(s, base) && p in s.nodes && k in s.indices[p].byNID
    ensures var child := s.indices[p].byNID[k];
            p + [child.name] in s.nodes && s.nodes[p + [child.name]] == child && s.table[p + [child.name]].nid == k
  {
    assert NodeFits(s, base, p) && IndexedChild(s.indices[p], k);
    assert NodeFits(s, base, p + [s.indices[p].byNID[k].name]);
  }

  lemma NodeNames(s: Shape, base: Labels, p: Labels)
    requires WellShaped(s, base) && p in s.nodes && p != base
    ensures p != [] && p == p[..|p| - 1] + [s.nodes[p].name]
  {
    assert NodeFits(s, base, p);
    var q, l := p[..|p| - 1], p[|p| - 1];
    assert p == q + [l] && NodeFits(s, base, q);
    assert l in s.indices[q].children;
  }
}
